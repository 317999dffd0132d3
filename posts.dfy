/**
 * process_single_post: turn one feed entry into one display record, with
 * the page's data first and the feed's own text and a placeholder image as
 * the fallbacks; and the index view's choice of the most recent records.
 */
module EntryProcessor {
  import opened Wrappers
  import opened TextNormalizer
  import opened Truncation
  import opened UrlResolver
  import opened Dates
  import opened PageEnricher

  /**
   * A feed entry. content holds the values of entry.content, in order; the
   * view reads only the first.
   */
  datatype RawEntry = RawEntry(title: string, link: string, published: string, content: seq<string>)

  /** The record the templates show. */
  datatype PostRecord = PostRecord(title: string, date: string, excerpt: string, link: string, image: string)

  /**
   * What the view calls and this model does not define: html.unescape,
   * urllib's percent-decoding, and the pages the web serves during one
   * refresh, by URL.
   */
  datatype Env = Env(unescape: string -> string, unquote: string -> string, web: string -> Page)

  /** The image shown when the page has none. */
  const Placeholder: string := "https://placehold.co/600x400/E30613/FFFFFF?text=PSOE+News"

  /** Python truthiness of a value that is None or a string. */
  predicate Truthy(o: Option<string>)
    // Python's `if x:` on a str that may be None: None and "" are false
    ensures !Truthy(o) <==> o == None || o == Some("")
  {
    o.Some? && o.value != []
  }

  /** The resolved link of an entry and the data scraped from it. */
  function ResolvedLink(entry: RawEntry, env: Env): string {
    GetRealUrl(entry.link, env.unquote)
  }

  function Scraped(entry: RawEntry, env: Env): ScrapedData {
    var link := ResolvedLink(entry, env);
    ArticleData(link, env.web(link), env.unescape)
  }

  /**
   * process_single_post(entry). None stands for the exception that
   * entry.content[0] raises when the entry has no content and the page gave
   * no description: AttributeError without a content list, IndexError for an
   * empty one.
   */
  function ProcessSinglePost(entry: RawEntry, env: Env): (r: Option<PostRecord>)
    ensures r.None? <==> !Truthy(Scraped(entry, env).description) && entry.content == []
    ensures r.Some? ==> r.value.title == CleanText(Some(entry.title), env.unescape) && Normalized(r.value.title)
    ensures r.Some? ==> r.value.date == ParseDate(entry.published)
    ensures r.Some? ==> r.value.link == ResolvedLink(entry, env)
    ensures r.Some? ==>
      r.value.image == (if Truthy(Scraped(entry, env).image) then Scraped(entry, env).image.value else Placeholder)
    ensures r.Some? ==> r.value.image != []
    ensures r.Some? ==> |r.value.excerpt| <= DefaultLength + |DefaultSuffix|
  {
    var title := CleanText(Some(entry.title), env.unescape);
    var link := GetRealUrl(entry.link, env.unquote);
    var data := ArticleData(link, env.web(link), env.unescape);
    if !Truthy(data.description) && entry.content == [] then None
    else
      var excerpt :=
        if Truthy(data.description) then SmartTruncate(data.description.value, DefaultLength, DefaultSuffix)
        else SmartTruncate(CleanText(Some(entry.content[0]), env.unescape), DefaultLength, DefaultSuffix);
      var image := if Truthy(data.image) then data.image.value else Placeholder;
      Some(PostRecord(title, ParseDate(entry.published), excerpt, link, image))
  }

  /**
   * A page description wins over the feed's snippet, and a page image over
   * the placeholder.
   */
  lemma UsesPageData(entry: RawEntry, env: Env)
    requires Truthy(Scraped(entry, env).description)
    ensures var r := ProcessSinglePost(entry, env); var data := Scraped(entry, env);
      && r.Some?
      && r.value.excerpt == SmartTruncate(data.description.value, DefaultLength, DefaultSuffix)
      && (Truthy(data.image) ==> r.value.image == data.image.value)
      && (!Truthy(data.image) ==> r.value.image == Placeholder)
  {
  }

  /**
   * With no description from the page (none, or blank), the excerpt comes
   * from the feed's own snippet, cleaned and truncated.
   */
  lemma FallsBackToSnippet(entry: RawEntry, env: Env)
    requires !Truthy(Scraped(entry, env).description) && entry.content != []
    ensures var r := ProcessSinglePost(entry, env);
      && r.Some?
      && r.value.excerpt == SmartTruncate(CleanText(Some(entry.content[0]), env.unescape), DefaultLength, DefaultSuffix)
  {
  }

  /**
   * A page that yields no data (an empty link, a request that raised, or a
   * status other than 200) gives the placeholder image and an excerpt from
   * the snippet.
   */
  lemma PageNotLoaded(entry: RawEntry, env: Env)
    requires !Loaded(ResolvedLink(entry, env), env.web(ResolvedLink(entry, env))) && entry.content != []
    ensures var r := ProcessSinglePost(entry, env);
      && r.Some?
      && r.value.image == Placeholder
      && r.value.excerpt == SmartTruncate(CleanText(Some(entry.content[0]), env.unescape), DefaultLength, DefaultSuffix)
      && r.value.date == ParseDate(entry.published)
  {
  }

  /** A short page description is shown whole. */
  lemma ShortDescriptionKept(entry: RawEntry, env: Env)
    requires Truthy(Scraped(entry, env).description)
    requires |Scraped(entry, env).description.value| <= DefaultLength
    ensures ProcessSinglePost(entry, env).Some?
    ensures ProcessSinglePost(entry, env).value.excerpt == Scraped(entry, env).description.value
  {
    UsesPageData(entry, env);
  }

  /** The index view's all_posts[:6]: the six most recent records, or all when fewer. */
  function RecentPosts(all: seq<PostRecord>): (r: seq<PostRecord>)
    ensures r <= all
    ensures |r| == if |all| < 6 then |all| else 6
  {
    if |all| < 6 then all else all[..6]
  }
}
