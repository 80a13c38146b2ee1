# Solar Caravan Club publisher: title, list and request-body model

`post.py` publishes one HTML article to a WordPress site through the REST API.
Before anything is sent over the network, the script does three things:

- It picks a post title from the article (`extract_title_from_html`). It uses the
  text of the first `<h1>` element, else the text of the first `<title>` element,
  else `Solar Caravan Article - ` followed by the current time as
  `YYYY-MM-DD HH:MM`.
- It reads the optional category ids and tag names from the `POST_CATEGORIES` and
  `POST_TAGS` environment variables. Each value is a comma-separated list:
  - each piece is stripped;
  - categories keep only the pieces that are all digits, as integers;
  - tags keep only the non-blank pieces;
  - an empty variable gives no list at all.
- It builds the JSON request body (`post_data`) from the title, the content,
  the status and the two lists.

This project models those three steps in Dafny and proves what they promise.

- `AsciiText` (`text.dfy`): the string primitives the script uses.
  - `str.strip()`, `str.isdigit()` and `int()` on digit strings.
  - `str.split(',')` and its inverse `','.join(...)`.
  - Case-insensitive literal search, which is the `re.IGNORECASE` half of the
    two title patterns.
- `Timestamp` (`timestamp.dfy`): the `strftime("%Y-%m-%d %H:%M")` rendering of a
  clock reading, and a parser that reads it back.
- `HtmlTitle` (`title.dfy`): the title logic.
  - The regular expression `<NAME[^>]*>(.*?)</NAME>` under `re.search` with
    IGNORECASE and DOTALL is stated declaratively (`ElementMatch`, `FirstMatch`).
  - It is computed directly by `FindElement`, and the two are proved to agree.
  - Tag removal (`re.sub(r'<[^>]+>', '', ...)`) is one left-to-right pass (`StripTags`).
- `PostEnv` (`env_lists.dfy`): the two list comprehensions over the environment values.
- `Publisher` (`payload.dfy`): the imperative part.
  - `BuildPostData` builds the dictionary and then adds the two optional keys in
    place, as `publish_post` does.
  - `PreparePost` follows `main` from the creation of the publisher to the call of `publish_post`.
- `Wrappers` (`wrappers.dfy`): `Option`, used for Python's `None`.

`post.py` sends the loaded HTML unchanged as the post content (post.py:229),
and `PreparePost` proves that the content field is exactly the loaded HTML.

## Model

| member | source | states |
|---|---|---|
| AsciiText.SkipSpaces | post.py:216 | the scan from the left stops at the first non-whitespace character, having passed only whitespace |
| AsciiText.BackSpaces | post.py:216 | the scan from the right stops just after the last non-whitespace character, having passed only whitespace |
| AsciiText.Trim | post.py:216 | `strip()` yields a string with no leading or trailing whitespace, no longer than its input |
| AsciiText.TrimSpec | post.py:216 | the stripped string is a slice of the input, and everything cut off at the two ends is whitespace |
| AsciiText.TrimKeepsOut | post.py:219 | stripping introduces no character, so a stripped piece of a comma split still holds no comma |
| AsciiText.TrimAllSpace | post.py:219 | an all-whitespace piece strips to the empty string, which is falsy |
| AsciiText.TrimOfTrimmed | post.py:219 | stripping an already stripped string leaves it unchanged |
| AsciiText.DigitChar | post.py:216 | a value below ten is spelled by a digit character whose value is that number |
| AsciiText.DecimalString | post.py:216 | the decimal spelling of a number is all digits with no leading zero |
| AsciiText.DecimalRoundTrip | post.py:216 | `int(str(n)) == n`: the digit value of a number's spelling is the number |
| AsciiText.Split | post.py:216 | `split(',')` gives at least one piece, no piece contains the separator, and joining the pieces with the separator gives back the input |
| AsciiText.SplitNoSeparator | post.py:219 | a string without the separator splits into itself alone |
| AsciiText.SplitAppend | post.py:216 | splitting `a + ',' + b` gives the pieces of `a` followed by the pieces of `b` |
| AsciiText.SplitJoin | post.py:219 | splitting a join of separator-free pieces gives back exactly those pieces |
| AsciiText.FindFrom | post.py:175 | a reported position lies at or after the start, with room for the whole pattern |
| AsciiText.FindFromSpec | post.py:175 | the search reports an occurrence of the pattern, ignoring ASCII case, with none between the start and it, and reports none only when no position at or after the start has one |
| AsciiText.FindFromIgnoresCase | post.py:175 | two texts equal up to letter case give the same search result |
| Timestamp.Pad2 | post.py:187 | two zero-padded digits whose value is the input |
| Timestamp.Pad4 | post.py:187 | four zero-padded digits whose value is the input |
| Timestamp.FormatMinute | post.py:187 | the rendering has the shape `YYYY-MM-DD HH:MM` |
| Timestamp.ParseMinute | post.py:187 | only a well-shaped stamp with in-range fields reads back, and it reads back as a valid time |
| Timestamp.FormatParses | post.py:187 | the rendered time reads back as the same year, month, day, hour and minute |
| HtmlTitle.FindElement | post.py:175-176 | a found match has its opening `>` before the closing tag, inside the document |
| HtmlTitle.FindGreaterThan | post.py:175 | the search for `[^>]*>` stops at the first `>` after the tag name, and finds none only when no `>` follows |
| HtmlTitle.FindElementSpec | post.py:175-176 | the computed span is the leftmost match of `<h1[^>]*>(.*?)</h1>` (first `>` after the tag name, lazy group up to the first closing tag), and nothing is found exactly when no match exists |
| HtmlTitle.FoundIsFirst | post.py:175 | a reported span is a match of the pattern, and no match starts further left |
| HtmlTitle.NotFoundIsNone | post.py:175-176 | when nothing is reported, the pattern matches nowhere in the document |
| HtmlTitle.NoMatchWithoutOpen | post.py:175 | without an opening `<h1` (in any case) there is no match |
| HtmlTitle.NoMatchWithoutGreaterThan | post.py:175 | when no `>` follows the leftmost opening, no later opening can match either |
| HtmlTitle.NoMatchWithoutClose | post.py:175 | when no closing tag follows the first `>` after the leftmost opening, there is no match anywhere |
| HtmlTitle.MatchFound | post.py:175 | the leftmost opening, its first `>` and the first closing tag after it form the leftmost match |
| HtmlTitle.FindElementNone | post.py:176 | when the pattern has no match, the search reports nothing |
| HtmlTitle.FirstMatchUnique | post.py:175 | the leftmost match is unique: its start, the end of the opening tag and the closing tag are determined |
| HtmlTitle.FindElementFinds | post.py:181-182 | whenever the pattern has a leftmost match, the search returns exactly its span |
| HtmlTitle.FindElementIgnoresCase | post.py:181 | the element search gives the same span on texts that differ only in letter case |
| HtmlTitle.FindElementBySearches | post.py:181 | two texts on which every literal search agrees give the same element span |
| HtmlTitle.LeadingTag | post.py:177 | a tag `<[^>]+>` opening at the start of the text closes at a `>` at index two or later |
| HtmlTitle.LeadingTagSpec | post.py:177 | the tag cut at the head is a real `<[^>]+>` tag; when a `<` is not followed by `>` and no tag is cut, no `>` follows it at all |
| HtmlTitle.NoLeadingTag | post.py:177 | a tag-free text has no tag at its head for the substitution to remove |
| HtmlTitle.StripTags | post.py:177 | removing tags never lengthens the text |
| HtmlTitle.StripTagsKeepsChars | post.py:177 | removing tags introduces no character: every character of the result is in the input |
| HtmlTitle.StripTagsTagFree | post.py:177 | after `re.sub(r'<[^>]+>', '', ...)` no `<[^>]+>` tag is left in the text |
| HtmlTitle.NoTagAtHead | post.py:177 | a text the pass does not cut at its head has no tag starting at position 0 |
| HtmlTitle.ClosedAtOnce | post.py:177 | a text opening with `<>` has no tag starting at position 0 |
| HtmlTitle.NeverClosed | post.py:177 | a text with no `>` after its opening `<` has no tag starting at position 0 |
| HtmlTitle.TagAtShift | post.py:177 | a tag after the first character is a tag of the rest of the text |
| HtmlTitle.TagFreeSlice | post.py:177 | any slice of a tag-free text is tag-free |
| HtmlTitle.StripTagsOfTagFree | post.py:177 | the substitution leaves tag-free text unchanged |
| HtmlTitle.StripTagsIdempotent | post.py:183 | applying the substitution twice gives the same as applying it once |
| HtmlTitle.TrimTagFree | post.py:177 | stripping whitespace keeps a text tag-free |
| HtmlTitle.ElementText | post.py:177 | the cleaned element text has no surrounding whitespace and no tag |
| HtmlTitle.ExtractTitle | post.py:170-188 | when either element is found the title has no surrounding whitespace and no tag left in it; when neither is, the title starts with `Solar Caravan Article - ` and the rest reads back as the given time |
| HtmlTitle.HeadingDecides | post.py:175-178 | when the document has an `<h1>` match, the title is the cleaned text of the leftmost one, and neither `<title>` nor the clock matters |
| HtmlTitle.BlankHeadingDoesNotFallThrough | post.py:176-178 | an `<h1>` whose text is blank after cleaning gives the empty title and does not fall through to `<title>` |
| HtmlTitle.TitleElementDecides | post.py:180-184 | without any `<h1>` match, the title is the cleaned text of the leftmost `<title>` element |
| HtmlTitle.TimestampDecides | post.py:186-188 | with neither element, the title is `Solar Caravan Article - ` followed by the time, and the time can be read back from it |
| HtmlTitle.SearchesIgnoreTagCase | post.py:175-181 | both searches give the same spans on texts that differ only in letter case, so `<H1>` and `<TITLE>` count |
| HtmlTitle.StripExample | post.py:177 | `<i>A</i>` cleans to `A` |
| HtmlTitle.HeadingSpanExample | post.py:175 | in `<H1>A</H1>` the upper-case heading is found at position 0, its `>` at 3 and its closing tag at 5 |
| HtmlTitle.HeadingExample | post.py:175-178 | an upper-case `<H1>A</H1>` gives the title `A` |
| PostEnv.FilterMap | post.py:216 | a comprehension's result is no longer than its input |
| PostEnv.FilterMapFrom | post.py:216 | every element of a comprehension's result is the image of an input piece that passed the filter |
| PostEnv.FilterMapAppend | post.py:216 | the comprehension over concatenated inputs is the concatenation of the results, so the order is kept |
| PostEnv.FilterMapEmpty | post.py:219 | the comprehension is empty exactly when no piece qualifies |
| PostEnv.FilterMapKeepsAll | post.py:219 | when every piece qualifies and maps to itself, the comprehension returns its input |
| PostEnv.ParseCategories | post.py:215-216 | no list exactly when the variable is empty; otherwise every id is the value of a piece that is all digits once stripped |
| PostEnv.CategoriesOfPiece | post.py:216 | a single piece gives its integer value when it is all digits once stripped, and an empty list otherwise |
| PostEnv.CategoriesAppend | post.py:216 | the ids of `a,b` are the ids of `a` followed by the ids of `b` |
| PostEnv.CategoriesEmptyList | post.py:216 | a non-empty variable gives an empty list, not None, exactly when no piece is all digits |
| PostEnv.IdsOfDecimals | post.py:216 | reading the decimal spellings of ids gives back the ids |
| PostEnv.CategoriesRoundTrip | post.py:215-216 | any non-empty id list written as comma-separated decimals reads back unchanged |
| PostEnv.ParseTags | post.py:218-219 | no list exactly when the variable is empty; otherwise every tag is non-blank, stripped and free of commas |
| PostEnv.TagsOfPiece | post.py:219 | a single piece gives its stripped text when that is not empty, and nothing otherwise |
| PostEnv.TagsAppend | post.py:219 | the tags of `a,b` are the tags of `a` followed by the tags of `b` |
| PostEnv.TagsEmptyList | post.py:219 | a non-empty variable gives an empty list, not None, exactly when every piece is blank |
| PostEnv.TagsOfTrimmed | post.py:219 | a list of non-blank stripped pieces passes through the comprehension unchanged |
| PostEnv.TagsRoundTrip | post.py:218-219 | non-blank, stripped, comma-free tags joined with commas read back unchanged |
| Publisher.BuildPostData | post.py:44-58 | the body has exactly title, content, status and `format: "standard"`; `categories` and `tags` are present exactly when the argument is a non-empty list, and then hold it |
| Publisher.GetEnv | post.py:212 | a variable that is set gives its value, even when it is empty; an unset one gives the default |
| Publisher.PreparePost | post.py:191-229 | no post is prepared when `WP_APP_PASS` is unset or empty (the publisher raises and the run exits) or when the content is empty. Otherwise the body is well formed, its title is the extracted title and its content is the loaded HTML unchanged. Its status is `PUBLISH_STATUS` or `draft`. It carries categories exactly when some piece of `POST_CATEGORIES` is all digits once stripped, and tags exactly when some piece of `POST_TAGS` is non-blank, each holding the parsed list |

## Left out

- The POST request and its response handling (post.py:60-85) are not modelled. They are I/O against a remote server.
- `get_categories` and `create_category` (post.py:87-132) are not modelled. They are also requests to the server, and `main` never calls them.
- `WordPressPublisher.__init__` (post.py:16-27) is modelled only in its refusal to start: `PreparePost` returns None when `WP_APP_PASS` is unset or empty, where the constructor raises and `main` exits (post.py:22-23, 247-251). `WP_SITE`, `WP_USER` and the endpoint URL only address the request, which is not modelled.
- `load_html_content` (post.py:135-168) is not modelled because it reads files and the environment. `PreparePost` takes the loaded text as a parameter, and the empty string stands for "nothing loaded".
- The console output, the writing of `publish_result.json`, the handling of the call's result and `sys.exit` (post.py:235-251) are not modelled. `PreparePost` returns None on the two paths where the script exits before publishing.
- The clock is a parameter (`Moment`), not a reading of `datetime.now()`. Seconds and smaller units are never printed, so they are not represented.
- Timestamp.FormatMinute: always pads the year to four digits. The platform's `strftime` may print years before 1000 unpadded.
- AsciiText.Trim: strips only ASCII whitespace. Python's `strip()` also removes Unicode spaces such as U+00A0 and U+2003.
- AsciiText.IsDigits: accepts only `0`-`9`. Python's `isdigit()` also accepts other Unicode digits, and for some of them, such as `²`, `int()` then raises an error.
- AsciiText.Lower: folds only `A`-`Z`. Under IGNORECASE, Python's `re` also lets `İ` and `ı` match the `i` of `title`.
- The regular-expression engine itself is not modelled. Each of the two fixed patterns is modelled by its meaning (`ElementMatch`, `FirstMatch`) and by a direct search proved equal to it.
