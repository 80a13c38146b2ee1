/**
 * `extract_title_from_html` (post.py:170-188): the post title is the text of the first
 * `<h1>` element, else of the first `<title>` element, else a fixed prefix and the time.
 *
 * Each of the two searches is the pattern `<NAME[^>]*>(.*?)</NAME>` under `re.search`
 * with IGNORECASE and DOTALL. ElementMatch states what a match of that pattern is;
 * FindElement computes the leftmost one directly (no regular-expression engine), and
 * FindElementSpec proves the two agree. The inner text is cleaned by one left-to-right
 * pass of `re.sub(r'<[^>]+>', '', ...)` (StripTags) followed by `str.strip()`.
 */
module HtmlTitle {
  import opened Wrappers
  import opened AsciiText
  import opened Timestamp

  const HeadingOpen := "<h1"
  const HeadingClose := "</h1>"
  const TitleOpen := "<title"
  const TitleClose := "</title>"
  const FallbackPrefix := "Solar Caravan Article - "

  // ---------------------------------------------------------------------------
  // The element pattern `<open>[^>]*>(.*?)<close>`

  /** `s` matches the pattern starting at `start`: `open` there (any case), then a run of
      non-`>` characters, the `>` at `gt`, then the shortest run of any characters
      (newlines included) up to the first `close` at `end`. The group is `s[gt + 1..end]`. */
  ghost predicate ElementMatch(s: string, open: string, close: string, start: nat, gt: nat, end: nat) {
    && OccursAt(s, start, open)
    && start + |open| <= gt < |s| && s[gt] == '>'
    && (forall m :: start + |open| <= m < gt ==> s[m] != '>')
    && gt < end && OccursAt(s, end, close)
    && (forall m :: gt < m < end ==> !OccursAt(s, m, close))
  }

  /** The match `re.search` reports: the one that starts leftmost. */
  ghost predicate FirstMatch(s: string, open: string, close: string, start: nat, gt: nat, end: nat) {
    && ElementMatch(s, open, close, start, gt, end)
    && forall i: nat, j: nat, k: nat :: i < start ==> !ElementMatch(s, open, close, i, j, k)
  }

  ghost predicate NoMatch(s: string, open: string, close: string) {
    forall i: nat, j: nat, k: nat :: !ElementMatch(s, open, close, i, j, k)
  }

  /** Where a match starts, where its opening tag ends, and where the closing tag starts. */
  datatype Span = Span(start: nat, gt: nat, end: nat)

  /** The leftmost `open`, the first `>` after it, the first `close` after that. */
  function FindElement(s: string, open: string, close: string): (r: Option<Span>)
    ensures r.Some? ==> r.value.gt < r.value.end <= |s|
  {
    match FindFrom(s, open, 0)
    case None => None
    case Some(i) =>
      match FindFrom(s, ">", i + |open|)
      case None => None
      case Some(j) =>
        match FindFrom(s, close, j + 1)
        case None => None
        case Some(k) => Some(Span(i, j, k))
  }

  /** The search for `>` finds the first `>` at or after `from`, and none only when there is none. */
  lemma {:induction false} FindGreaterThan(s: string, from: nat)
    ensures FindFrom(s, ">", from).Some? ==>
      var j := FindFrom(s, ">", from).value;
      j < |s| && s[j] == '>' && forall m :: from <= m < j ==> s[m] != '>'
    ensures FindFrom(s, ">", from).None? ==> forall m :: from <= m < |s| ==> s[m] != '>'
    decreases |s| - from
  {
    if from < |s| {
      assert OccursAt(s, from, ">") <==> s[from] == '>' by {
        assert ">"[0] == '>';
        assert s[from + 0] == s[from];
      }
      if s[from] != '>' {
        FindGreaterThan(s, from + 1);
      }
    }
  }

  /** FindElement reports exactly the match `re.search` reports, and nothing when there is none. */
  lemma FindElementSpec(s: string, open: string, close: string)
    ensures FindElement(s, open, close).Some? ==>
      var m := FindElement(s, open, close).value;
      FirstMatch(s, open, close, m.start, m.gt, m.end)
    ensures FindElement(s, open, close).None? <==> NoMatch(s, open, close)
  {
    if FindElement(s, open, close).Some? {
      var m := FindElement(s, open, close).value;
      FoundIsFirst(s, open, close, m);
      assert ElementMatch(s, open, close, m.start, m.gt, m.end);
    } else {
      NotFoundIsNone(s, open, close);
    }
  }

  /** A span FindElement reports is the leftmost match. */
  lemma FoundIsFirst(s: string, open: string, close: string, m: Span)
    requires FindElement(s, open, close) == Some(m)
    ensures FirstMatch(s, open, close, m.start, m.gt, m.end)
  {
    SearchesOfFound(s, open, close, m);
    FindFromSpec(s, open, 0);
    FindGreaterThan(s, m.start + |open|);
    FindFromSpec(s, close, m.gt + 1);
    MatchFound(s, open, close, m.start, m.gt, m.end);
  }

  /** The three searches behind a reported span. */
  lemma SearchesOfFound(s: string, open: string, close: string, m: Span)
    requires FindElement(s, open, close) == Some(m)
    ensures FindFrom(s, open, 0) == Some(m.start)
    ensures FindFrom(s, ">", m.start + |open|) == Some(m.gt)
    ensures FindFrom(s, close, m.gt + 1) == Some(m.end)
  {
  }

  /** When FindElement reports nothing, there is no match at all. */
  lemma NotFoundIsNone(s: string, open: string, close: string)
    requires FindElement(s, open, close) == None
    ensures NoMatch(s, open, close)
  {
    FindFromSpec(s, open, 0);
    match FindFrom(s, open, 0)
    case None =>
      NoMatchWithoutOpen(s, open, close);
    case Some(i) =>
      FindGreaterThan(s, i + |open|);
      match FindFrom(s, ">", i + |open|)
      case None =>
        NoMatchWithoutGreaterThan(s, open, close, i);
      case Some(j) =>
        FindFromSpec(s, close, j + 1);
        NoMatchWithoutClose(s, open, close, i, j);
  }

  /** The leftmost opening is at `i`. */
  ghost predicate FirstOpen(s: string, open: string, i: nat) {
    OccursAt(s, i, open) && forall p :: 0 <= p < i ==> !OccursAt(s, p, open)
  }

  /** The first `>` at or after the end of the opening name is at `j`. */
  ghost predicate FirstGreaterThan(s: string, from: nat, j: nat) {
    from <= j < |s| && s[j] == '>' && forall m :: from <= m < j ==> s[m] != '>'
  }

  lemma NoMatchWithoutOpen(s: string, open: string, close: string)
    requires forall p :: 0 <= p ==> !OccursAt(s, p, open)
    ensures NoMatch(s, open, close)
  {
  }

  lemma NoMatchWithoutGreaterThan(s: string, open: string, close: string, i: nat)
    requires FirstOpen(s, open, i)
    requires forall m :: i + |open| <= m < |s| ==> s[m] != '>'
    ensures NoMatch(s, open, close)
  {
    forall i': nat, j': nat, k': nat ensures !ElementMatch(s, open, close, i', j', k') {
      assert ElementMatch(s, open, close, i', j', k') ==> i <= i';
    }
  }

  lemma NoMatchWithoutClose(s: string, open: string, close: string, i: nat, j: nat)
    requires FirstOpen(s, open, i)
    requires FirstGreaterThan(s, i + |open|, j)
    requires forall p :: j + 1 <= p ==> !OccursAt(s, p, close)
    ensures NoMatch(s, open, close)
  {
    forall i': nat, j': nat, k': nat ensures !ElementMatch(s, open, close, i', j', k') {
      assert ElementMatch(s, open, close, i', j', k') ==> i <= i' && j <= j' && OccursAt(s, k', close);
    }
  }

  lemma MatchFound(s: string, open: string, close: string, i: nat, j: nat, k: nat)
    requires FirstOpen(s, open, i)
    requires FirstGreaterThan(s, i + |open|, j)
    requires j + 1 <= k && OccursAt(s, k, close) && forall p :: j + 1 <= p < k ==> !OccursAt(s, p, close)
    ensures FirstMatch(s, open, close, i, j, k)
  {
    forall i': nat, j': nat, k': nat | i' < i ensures !ElementMatch(s, open, close, i', j', k') {
      assert !OccursAt(s, i', open);
    }
  }

  /** When `re.search` finds nothing, neither does FindElement. */
  lemma FindElementNone(s: string, open: string, close: string)
    requires NoMatch(s, open, close)
    ensures FindElement(s, open, close) == None
  {
    FindElementSpec(s, open, close);
  }

  /** A string has at most one leftmost match. */
  lemma FirstMatchUnique(s: string, open: string, close: string, a: nat, b: nat, c: nat, x: nat, y: nat, z: nat)
    requires FirstMatch(s, open, close, a, b, c)
    requires FirstMatch(s, open, close, x, y, z)
    ensures a == x && b == y && c == z
  {
    assert a < x ==> !ElementMatch(s, open, close, a, b, c);
    assert x < a ==> !ElementMatch(s, open, close, x, y, z);
    assert a == x;
    assert b == y;
  }

  /** Whenever `re.search` reports a match, FindElement reports the same one. */
  lemma FindElementFinds(s: string, open: string, close: string, start: nat, gt: nat, end: nat)
    requires FirstMatch(s, open, close, start, gt, end)
    ensures FindElement(s, open, close) == Some(Span(start, gt, end))
  {
    FindElementSpec(s, open, close);
    assert !NoMatch(s, open, close);
    var m := FindElement(s, open, close).value;
    FirstMatchUnique(s, open, close, start, gt, end, m.start, m.gt, m.end);
  }

  /** Matching ignores case: two documents that differ only in ASCII case give the same match. */
  lemma FindElementIgnoresCase(s: string, t: string, open: string, close: string)
    requires SameIgnoringCase(s, t)
    ensures FindElement(s, open, close) == FindElement(t, open, close)
  {
    forall from: nat, pat: string ensures FindFrom(s, pat, from) == FindFrom(t, pat, from) {
      FindFromIgnoresCase(s, t, pat, from);
    }
    FindElementBySearches(s, t, open, close);
  }

  /** FindElement depends on the document only through the searches it makes. */
  lemma FindElementBySearches(s: string, t: string, open: string, close: string)
    requires forall from: nat, pat: string :: FindFrom(s, pat, from) == FindFrom(t, pat, from)
    ensures FindElement(s, open, close) == FindElement(t, open, close)
  {
  }

  // ---------------------------------------------------------------------------
  // re.sub(r'<[^>]+>', '', text)

  /** `t[lt..gt + 1]` matches `<[^>]+>`: a `<`, at least one character other than `>`, and a `>`. */
  ghost predicate TagAt(t: string, lt: nat, gt: nat) {
    lt + 2 <= gt < |t| && t[lt] == '<' && t[gt] == '>' && forall m :: lt < m < gt ==> t[m] != '>'
  }

  ghost predicate TagFree(t: string) {
    forall lt: nat, gt: nat :: !TagAt(t, lt, gt)
  }

  /** The position of the `>` that closes a `<[^>]+>` tag starting at `s[0]`, if one does. */
  function LeadingTag(s: string): (r: Option<nat>)
    ensures r.Some? ==> 2 <= r.value < |s|
  {
    if |s| >= 2 && s[0] == '<' && s[1] != '>' then FindFrom(s, ">", 2) else None
  }

  /** The leading tag is a real `<[^>]+>` tag; when there is none after a `<`, no `>` follows at all. */
  lemma LeadingTagSpec(s: string)
    ensures LeadingTag(s).Some? ==> TagAt(s, 0, LeadingTag(s).value)
    ensures LeadingTag(s).None? && |s| >= 2 && s[0] == '<' && s[1] != '>' ==>
      forall m :: 1 <= m < |s| ==> s[m] != '>'
  {
    if |s| >= 2 && s[0] == '<' && s[1] != '>' {
      FindGreaterThan(s, 2);
    }
  }

  /** One left-to-right pass deleting every non-overlapping `<[^>]+>`. */
  function StripTags(s: string): (r: string)
    ensures |r| <= |s|
    decreases |s|
  {
    if s == [] then []
    else
      match LeadingTag(s)
      case Some(gt) => StripTags(s[gt + 1..])
      case None => [s[0]] + StripTags(s[1..])
  }

  /** The pass only deletes: every character of the result comes from the input. */
  lemma {:induction false} StripTagsKeepsChars(s: string)
    ensures forall c :: c in StripTags(s) ==> c in s
    decreases |s|
  {
    if s != [] {
      match LeadingTag(s)
      case Some(gt) =>
        StripTagsKeepsChars(s[gt + 1..]);
        assert forall c :: c in s[gt + 1..] ==> c in s;
      case None =>
        StripTagsKeepsChars(s[1..]);
        assert forall c :: c in s[1..] ==> c in s;
    }
  }

  /** After the pass no tag is left: deleting a tag never forms a new one. */
  lemma {:induction false} StripTagsTagFree(s: string)
    ensures TagFree(StripTags(s))
    decreases |s|
  {
    if s == [] {
      return;
    }
    match LeadingTag(s)
    case Some(gt) =>
      StripTagsTagFree(s[gt + 1..]);
    case None =>
      StripTagsTagFree(s[1..]);
      NoTagAtHead(s);
      forall lt: nat, gt: nat ensures !TagAt([s[0]] + StripTags(s[1..]), lt, gt) {
        TagAtShift(s[0], StripTags(s[1..]), lt, gt);
      }
  }

  /** A character the pass keeps never opens a tag in the output: it is not '<', or nothing
      follows it, or a '>' follows it at once, or no '>' follows it at all. */
  lemma NoTagAtHead(s: string)
    requires s != [] && LeadingTag(s).None?
    ensures forall gt: nat :: !TagAt([s[0]] + StripTags(s[1..]), 0, gt)
  {
    if |s| >= 2 && s[0] == '<' {
      if s[1] == '>' {
        ClosedAtOnce(s);
      } else {
        NeverClosed(s);
      }
    }
  }

  lemma ClosedAtOnce(s: string)
    requires |s| >= 2 && s[1] == '>'
    ensures ([s[0]] + StripTags(s[1..]))[1] == '>'
  {
    assert LeadingTag(s[1..]).None?;
    assert s[1..][1..] == s[2..];
  }

  lemma NeverClosed(s: string)
    requires |s| >= 2 && s[0] == '<' && s[1] != '>' && LeadingTag(s).None?
    ensures forall m :: 1 <= m < |[s[0]] + StripTags(s[1..])| ==> ([s[0]] + StripTags(s[1..]))[m] != '>'
  {
    var rest := StripTags(s[1..]);
    LeadingTagSpec(s);
    assert '>' !in s[1..];
    StripTagsKeepsChars(s[1..]);
    assert '>' !in rest;
  }

  lemma TagAtShift(c: char, rest: string, lt: nat, gt: nat)
    ensures lt > 0 && TagAt([c] + rest, lt, gt) ==> TagAt(rest, lt - 1, gt - 1)
  {
    if lt > 0 && TagAt([c] + rest, lt, gt) {
      forall m | lt - 1 < m < gt - 1 ensures rest[m] != '>' {
        assert ([c] + rest)[m + 1] == rest[m];
      }
    }
  }

  lemma TagFreeSlice(t: string, a: nat, b: nat)
    requires a <= b <= |t|
    requires TagFree(t)
    ensures TagFree(t[a..b])
  {
    forall lt: nat, gt: nat ensures !TagAt(t[a..b], lt, gt) {
      if TagAt(t[a..b], lt, gt) {
        assert TagAt(t, a + lt, a + gt);
      }
    }
  }

  /** A tag-free text has no leading tag for the pass to cut. */
  lemma NoLeadingTag(s: string)
    requires TagFree(s)
    ensures LeadingTag(s).None?
  {
    LeadingTagSpec(s);
    assert forall gt: nat :: !TagAt(s, 0, gt);
  }

  /** Text that holds no tag passes through unchanged. */
  lemma {:induction false} StripTagsOfTagFree(s: string)
    requires TagFree(s)
    ensures StripTags(s) == s
    decreases |s|
  {
    if s != [] {
      NoLeadingTag(s);
      TagFreeSlice(s, 1, |s|);
      assert s[1..|s|] == s[1..];
      StripTagsOfTagFree(s[1..]);
    }
  }

  /** The pass is idempotent. */
  lemma StripTagsIdempotent(s: string)
    ensures StripTags(StripTags(s)) == StripTags(s)
  {
    StripTagsTagFree(s);
    StripTagsOfTagFree(StripTags(s));
  }

  lemma TrimTagFree(s: string)
    requires TagFree(s)
    ensures TagFree(Trim(s))
  {
    var a := SkipSpaces(s, 0);
    TagFreeSlice(s, a, BackSpaces(s, a, |s|));
  }

  /** `re.sub(r'<[^>]+>', '', inner).strip()`: no surrounding whitespace and no tag left. */
  function ElementText(inner: string): (t: string)
    ensures Trimmed(t) && TagFree(t)
  {
    StripTagsTagFree(inner);
    TrimTagFree(StripTags(inner));
    Trim(StripTags(inner))
  }

  // ---------------------------------------------------------------------------
  // extract_title_from_html

  /** The post title, given the document and the local time at the call: element text
      when either element is found, else a title from which the time can be read back. */
  function ExtractTitle(html: string, now: Moment): (title: string)
    requires now.Valid()
    ensures FindElement(html, HeadingOpen, HeadingClose).Some? || FindElement(html, TitleOpen, TitleClose).Some? ==>
      Trimmed(title) && TagFree(title)
    ensures FindElement(html, HeadingOpen, HeadingClose).None? && FindElement(html, TitleOpen, TitleClose).None? ==>
      |title| >= |FallbackPrefix| && title[..|FallbackPrefix|] == FallbackPrefix &&
      ParseMinute(title[|FallbackPrefix|..]) == Some(now)
  {
    match FindElement(html, HeadingOpen, HeadingClose)
    case Some(h) => ElementText(html[h.gt + 1..h.end])
    case None =>
      match FindElement(html, TitleOpen, TitleClose)
      case Some(t) => ElementText(html[t.gt + 1..t.end])
      case None =>
        var stamp := FormatMinute(now);
        FormatParses(now);
        assert (FallbackPrefix + stamp)[|FallbackPrefix|..] == stamp;
        assert (FallbackPrefix + stamp)[..|FallbackPrefix|] == FallbackPrefix;
        FallbackPrefix + stamp
  }

  /** The first `<h1>` element decides the title; `<title>` and the clock are not consulted. */
  lemma HeadingDecides(html: string, now: Moment, start: nat, gt: nat, end: nat)
    requires now.Valid()
    requires FirstMatch(html, HeadingOpen, HeadingClose, start, gt, end)
    ensures ExtractTitle(html, now) == ElementText(html[gt + 1..end])
    ensures Trimmed(ExtractTitle(html, now)) && TagFree(ExtractTitle(html, now))
  {
    FindElementFinds(html, HeadingOpen, HeadingClose, start, gt, end);
    TitleOfHeading(html, now, Span(start, gt, end));
  }

  /** A found heading decides the title. */
  lemma TitleOfHeading(html: string, now: Moment, h: Span)
    requires now.Valid()
    requires FindElement(html, HeadingOpen, HeadingClose) == Some(h)
    ensures ExtractTitle(html, now) == ElementText(html[h.gt + 1..h.end])
  {
  }

  /** Without a heading, a found title element decides the title. */
  lemma TitleOfTitleElement(html: string, now: Moment, t: Span)
    requires now.Valid()
    requires FindElement(html, HeadingOpen, HeadingClose) == None
    requires FindElement(html, TitleOpen, TitleClose) == Some(t)
    ensures ExtractTitle(html, now) == ElementText(html[t.gt + 1..t.end])
  {
  }

  /** With neither search successful, the title is the prefix and the time. */
  lemma TitleOfNeither(html: string, now: Moment)
    requires now.Valid()
    requires FindElement(html, HeadingOpen, HeadingClose) == None
    requires FindElement(html, TitleOpen, TitleClose) == None
    ensures ExtractTitle(html, now) == FallbackPrefix + FormatMinute(now)
  {
  }

  /** An `<h1>` whose text strips to nothing still gives "" rather than falling through to `<title>`. */
  lemma BlankHeadingDoesNotFallThrough(html: string, now: Moment, start: nat, gt: nat, end: nat)
    requires now.Valid()
    requires FirstMatch(html, HeadingOpen, HeadingClose, start, gt, end)
    requires AllSpace(StripTags(html[gt + 1..end]))
    ensures ExtractTitle(html, now) == ""
  {
    HeadingDecides(html, now, start, gt, end);
    TrimAllSpace(StripTags(html[gt + 1..end]));
  }

  /** Without any `<h1>` match, the first `<title>` element decides the title. */
  lemma TitleElementDecides(html: string, now: Moment, start: nat, gt: nat, end: nat)
    requires now.Valid()
    requires NoMatch(html, HeadingOpen, HeadingClose)
    requires FirstMatch(html, TitleOpen, TitleClose, start, gt, end)
    ensures ExtractTitle(html, now) == ElementText(html[gt + 1..end])
    ensures Trimmed(ExtractTitle(html, now)) && TagFree(ExtractTitle(html, now))
  {
    FindElementNone(html, HeadingOpen, HeadingClose);
    FindElementFinds(html, TitleOpen, TitleClose, start, gt, end);
    TitleOfTitleElement(html, now, Span(start, gt, end));
  }

  /** With neither element, the title is the prefix and the time as `YYYY-MM-DD HH:MM`. */
  lemma TimestampDecides(html: string, now: Moment)
    requires now.Valid()
    requires NoMatch(html, HeadingOpen, HeadingClose)
    requires NoMatch(html, TitleOpen, TitleClose)
    ensures ExtractTitle(html, now) == FallbackPrefix + FormatMinute(now)
    ensures ParseMinute(ExtractTitle(html, now)[|FallbackPrefix|..]) == Some(now)
  {
    FindElementNone(html, HeadingOpen, HeadingClose);
    FindElementNone(html, TitleOpen, TitleClose);
    TitleOfNeither(html, now);
    FormatParses(now);
    assert (FallbackPrefix + FormatMinute(now))[|FallbackPrefix|..] == FormatMinute(now);
  }

  /** Both searches ignore letter case: `<H1>`, `<Title>` are found where `<h1>`, `<title>` would be. */
  lemma SearchesIgnoreTagCase(html: string, other: string)
    requires SameIgnoringCase(html, other)
    ensures FindElement(html, HeadingOpen, HeadingClose) == FindElement(other, HeadingOpen, HeadingClose)
    ensures FindElement(html, TitleOpen, TitleClose) == FindElement(other, TitleOpen, TitleClose)
  {
    FindElementIgnoresCase(html, other, HeadingOpen, HeadingClose);
    FindElementIgnoresCase(html, other, TitleOpen, TitleClose);
  }

  // ---------------------------------------------------------------------------
  // Worked examples

  /** A tag pair around a word leaves the word. */
  lemma StripExample()
    ensures StripTags("<i>A</i>") == "A"
  {
    var s := "<i>A</i>";
    assert OccursAt(s, 2, ">");
    assert LeadingTag(s) == Some(2);
    var t := "</i>";
    assert s[3..] == ['A'] + t;
    assert !OccursAt(t, 2, ">") by { assert Lower(t[2]) != ">"[0]; }
    assert OccursAt(t, 3, ">");
    assert LeadingTag(t) == Some(3);
    assert StripTags(t) == [];
    assert StripTags(['A'] + t) == ['A'] + StripTags(t);
  }

  /** An upper-case heading is found where its lower-case spelling would be. */
  lemma HeadingSpanExample(s: string)
    requires s == "<H1>A</H1>"
    ensures FindElement(s, HeadingOpen, HeadingClose) == Some(Span(0, 3, 5))
  {
    assert OccursAt(s, 0, HeadingOpen);
    assert FindFrom(s, HeadingOpen, 0) == Some(0);
    assert OccursAt(s, 3, ">");
    assert FindFrom(s, ">", 3) == Some(3);
    assert !OccursAt(s, 4, HeadingClose) by { assert Lower(s[4]) != HeadingClose[0]; }
    assert OccursAt(s, 5, HeadingClose);
    assert FindFrom(s, HeadingClose, 4) == Some(5);
  }

  /** An upper-case heading gives its text as the title. */
  lemma HeadingExample(s: string, now: Moment)
    requires s == "<H1>A</H1>"
    requires now.Valid()
    ensures ExtractTitle(s, now) == "A"
  {
    HeadingSpanExample(s);
    TitleOfHeading(s, now, Span(0, 3, 5));
    assert s[4..5] == "A";
    StripTagsOfTagFree("A");
    TrimOfTrimmed("A");
  }
}
