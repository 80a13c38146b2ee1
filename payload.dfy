/**
 * The request body that `WordPressPublisher.publish_post` sends to the posts
 * endpoint (post.py:44-58), and the way `main` fills in its arguments from the
 * loaded article and the environment (post.py:191-227).
 */
module Publisher {
  import opened Wrappers
  import opened AsciiText
  import opened Timestamp
  import opened HtmlTitle
  import opened PostEnv

  /** A JSON value of the request body: a string, a list of ids or a list of names. */
  datatype Field = Text(text: string) | Ids(ids: seq<nat>) | Names(names: seq<string>)

  /** The request body, keyed by field name. */
  type PostData = map<string, Field>

  const DefaultStatus := "draft"
  const PostFormat := "standard"

  /** Python truthiness of an optional list: present and non-empty. */
  predicate Given<T>(xs: Option<seq<T>>) {
    xs.Some? && |xs.value| > 0
  }

  /** The four fields every post carries, each a string, with the fixed format. */
  predicate HasCoreFields(d: PostData) {
    && "title" in d && d["title"].Text?
    && "content" in d && d["content"].Text?
    && "status" in d && d["status"].Text?
    && "format" in d && d["format"] == Text(PostFormat)
  }

  /** The shape of every body the publisher sends: the core fields, and lists only when non-empty. */
  predicate WellFormed(d: PostData) {
    && HasCoreFields(d)
    && d.Keys <= {"title", "content", "status", "format", "categories", "tags"}
    && ("categories" in d ==> d["categories"].Ids? && |d["categories"].ids| > 0)
    && ("tags" in d ==> d["tags"].Names? && |d["tags"].names| > 0)
  }

  /**
   * Builds the body: the four core fields, then the id list and the tag list
   * each added only when it is present and non-empty.
   */
  method BuildPostData(title: string, content: string, status: string := DefaultStatus,
                       categories: Option<seq<nat>> := None, tags: Option<seq<string>> := None)
    returns (postData: PostData)
    ensures WellFormed(postData)
    ensures postData.Keys == {"title", "content", "status", "format"}
                             + (if Given(categories) then {"categories"} else {})
                             + (if Given(tags) then {"tags"} else {})
    ensures postData["title"] == Text(title)
    ensures postData["content"] == Text(content)
    ensures postData["status"] == Text(status)
    ensures "categories" in postData <==> Given(categories)
    ensures "categories" in postData ==> postData["categories"] == Ids(categories.value)
    ensures "tags" in postData <==> Given(tags)
    ensures "tags" in postData ==> postData["tags"] == Names(tags.value)
  {
    postData := map["title" := Text(title), "content" := Text(content),
                    "status" := Text(status), "format" := Text(PostFormat)];
    if Given(categories) {
      postData := postData["categories" := Ids(categories.value)];
    }
    if Given(tags) {
      postData := postData["tags" := Names(tags.value)];
    }
  }

  /** `os.getenv(key, default)` over an explicit environment. */
  function GetEnv(env: map<string, string>, key: string, default: string): (v: string)
    ensures key in env ==> v == env[key]
    ensures key !in env ==> v == default
  {
    if key in env then env[key] else default
  }

  /**
   * What `main` hands to `publish_post` for an article and an environment:
   * None when WP_APP_PASS is unset or empty (the publisher refuses to start and
   * the run exits) or when no content was loaded (the run exits), otherwise the body built
   * from the extracted title, the content unchanged, PUBLISH_STATUS (default
   * "draft") and the lists read from POST_CATEGORIES and POST_TAGS.
   */
  method PreparePost(html: string, now: Moment, env: map<string, string>) returns (r: Option<PostData>)
    requires now.Valid()
    ensures r.None? <==> GetEnv(env, "WP_APP_PASS", "") == [] || html == []
    ensures r.Some? ==> WellFormed(r.value)
    ensures r.Some? ==> r.value["title"] == Text(ExtractTitle(html, now))
    ensures r.Some? ==> r.value["content"] == Text(html)
    ensures r.Some? ==> r.value["status"] == Text(GetEnv(env, "PUBLISH_STATUS", DefaultStatus))
    ensures r.Some? ==>
      ("categories" in r.value <==>
         exists p :: p in Split(GetEnv(env, "POST_CATEGORIES", ""), ',') && IsDigits(Trim(p)))
    ensures r.Some? && "categories" in r.value ==>
      r.value["categories"] == Ids(ParseCategories(GetEnv(env, "POST_CATEGORIES", "")).value)
    ensures r.Some? ==>
      ("tags" in r.value <==>
         exists p :: p in Split(GetEnv(env, "POST_TAGS", ""), ',') && Trim(p) != [])
    ensures r.Some? && "tags" in r.value ==>
      r.value["tags"] == Names(ParseTags(GetEnv(env, "POST_TAGS", "")).value)
  {
    if GetEnv(env, "WP_APP_PASS", "") == [] {
      return None;
    }
    if html == [] {
      return None;
    }
    var title := ExtractTitle(html, now);
    var status := GetEnv(env, "PUBLISH_STATUS", DefaultStatus);
    var categoriesEnv := GetEnv(env, "POST_CATEGORIES", "");
    var categories := ParseCategories(categoriesEnv);
    var tagsEnv := GetEnv(env, "POST_TAGS", "");
    var tags := ParseTags(tagsEnv);
    if categoriesEnv != [] {
      CategoriesEmptyList(categoriesEnv);
    }
    if tagsEnv != [] {
      TagsEmptyList(tagsEnv);
    }
    var postData := BuildPostData(title, html, status, categories, tags);
    return Some(postData);
  }
}
