/**
 * scrape_article_data: fetch a page and pick its image and description out
 * of its meta tags. The fetch and the HTML parser are outside the model: a
 * page is the outcome of the request, with the document reduced to its meta
 * tags in document order.
 */
module PageEnricher {
  import opened Wrappers
  import opened TextNormalizer

  /** One <meta> tag: the attributes the view looks at. */
  datatype MetaTag = MetaTag(property: Option<string>, name: Option<string>, content: Option<string>)

  /** requests.get(url, timeout=2): it raised (network error, timeout), or it answered. */
  datatype Page = Unreachable | Fetched(status: int, metas: seq<MetaTag>)

  /** The dictionary {"image": ..., "description": ...}; None stands for Python's None. */
  datatype ScrapedData = ScrapedData(image: Option<string>, description: Option<string>)

  const NoData := ScrapedData(None, None)

  /** The two ways the view looks a tag up: by property= or by name=. */
  datatype Attribute = Property | Name

  predicate Has(t: MetaTag, a: Attribute, v: string) {
    match a
    case Property => t.property == Some(v)
    case Name => t.name == Some(v)
  }

  /** metas[i] is the tag soup.find returns: the first one with attribute a equal to v. */
  predicate IsFirst(metas: seq<MetaTag>, a: Attribute, v: string, i: nat) {
    i < |metas| && Has(metas[i], a, v) && forall j :: 0 <= j < i ==> !Has(metas[j], a, v)
  }

  predicate HasTag(metas: seq<MetaTag>, a: Attribute, v: string) {
    exists i :: 0 <= i < |metas| && Has(metas[i], a, v)
  }

  /** soup.find("meta", ...) from index k on. */
  function Find(metas: seq<MetaTag>, a: Attribute, v: string, k: nat): (i: Option<nat>)
    requires k <= |metas|
    ensures i.Some? ==> k <= i.value < |metas| && Has(metas[i.value], a, v)
    ensures i.Some? ==> forall j :: k <= j < i.value ==> !Has(metas[j], a, v)
    ensures i.None? ==> forall j :: k <= j < |metas| ==> !Has(metas[j], a, v)
    decreases |metas| - k
  {
    if k == |metas| then None
    else if Has(metas[k], a, v) then Some(k)
    else Find(metas, a, v, k + 1)
  }

  /** The page was fetched and answered 200, so its tags are read. */
  predicate Loaded(url: string, page: Page) {
    url != [] && page.Fetched? && page.status == 200
  }

  /** Two first occurrences are one. */
  lemma FirstIsUnique(metas: seq<MetaTag>, a: Attribute, v: string, i: nat, j: nat)
    requires IsFirst(metas, a, v, i) && IsFirst(metas, a, v, j)
    ensures i == j
  {
  }

  /** Find from the start gives the first occurrence, and nothing when there is none. */
  lemma FindFirst(metas: seq<MetaTag>, a: Attribute, v: string)
    ensures var f := Find(metas, a, v, 0);
      && (f.Some? <==> HasTag(metas, a, v))
      && (forall i: nat :: IsFirst(metas, a, v, i) ==> f == Some(i))
  {
    var f := Find(metas, a, v, 0);
    if f.Some? {
      assert IsFirst(metas, a, v, f.value);
      forall i: nat | IsFirst(metas, a, v, i) ensures f == Some(i) {
        FirstIsUnique(metas, a, v, i, f.value);
      }
    }
  }

  /**
   * The data scrape_article_data returns for a page: nothing unless the page
   * was fetched with status 200; then the content of the first og:image tag
   * and the cleaned content of the first og:description tag, or of the first
   * name=description tag when there is no og:description.
   */
  function ArticleData(url: string, page: Page, unescape: string -> string): (r: ScrapedData)
    ensures !Loaded(url, page) ==> r == NoData
  {
    if !Loaded(url, page) then NoData
    else
      var metas := page.metas;
      var image := match Find(metas, Property, "og:image", 0)
        case Some(i) => metas[i].content
        case None => None;
      var description := match Find(metas, Property, "og:description", 0)
        case Some(i) => Some(CleanText(metas[i].content, unescape))
        case None =>
          match Find(metas, Name, "description", 0)
          case Some(i) => Some(CleanText(metas[i].content, unescape))
          case None => None;
      ScrapedData(image, description)
  }

  /** The image is the content of the first og:image tag, and absent without one. */
  lemma ArticleImage(url: string, status: int, metas: seq<MetaTag>, unescape: string -> string)
    requires url != [] && status == 200
    ensures var r := ArticleData(url, Fetched(status, metas), unescape);
      && (forall i: nat :: IsFirst(metas, Property, "og:image", i) ==> r.image == metas[i].content)
      && (!HasTag(metas, Property, "og:image") ==> r.image == None)
  {
    FindFirst(metas, Property, "og:image");
  }

  /**
   * The description is the cleaned content of the first og:description tag,
   * blank or not; only without such a tag is the first name=description tag
   * used, and without either there is none.
   */
  lemma ArticleDescription(url: string, status: int, metas: seq<MetaTag>, unescape: string -> string)
    requires url != [] && status == 200
    ensures var r := ArticleData(url, Fetched(status, metas), unescape);
      && (forall i: nat :: IsFirst(metas, Property, "og:description", i) ==>
            r.description == Some(CleanText(metas[i].content, unescape)))
      && (!HasTag(metas, Property, "og:description") ==>
            && (forall i: nat :: IsFirst(metas, Name, "description", i) ==>
                  r.description == Some(CleanText(metas[i].content, unescape)))
            && (!HasTag(metas, Name, "description") ==> r.description == None))
  {
    FindFirst(metas, Property, "og:description");
    FindFirst(metas, Name, "description");
  }

  /**
   * scrape_article_data(url): starts from the empty dictionary and fills in
   * its entries one after the other; a failed request leaves it as it is.
   */
  method ScrapeArticleData(url: string, page: Page, unescape: string -> string) returns (data: ScrapedData)
    ensures data == ArticleData(url, page, unescape)
  {
    data := NoData;
    if url == [] {
      return;
    }
    match page {
      case Unreachable =>
        // the except clause: the dictionary is returned as it stands
      case Fetched(status, metas) =>
        if status == 200 {
          var ogImage := Find(metas, Property, "og:image", 0);
          if ogImage.Some? {
            data := data.(image := metas[ogImage.value].content);
          }
          var ogDesc := Find(metas, Property, "og:description", 0);
          if ogDesc.Some? {
            data := data.(description := Some(CleanText(metas[ogDesc.value].content, unescape)));
          } else {
            var metaDesc := Find(metas, Name, "description", 0);
            if metaDesc.Some? {
              data := data.(description := Some(CleanText(metas[metaDesc.value].content, unescape)));
            }
          }
        }
    }
  }

  /** Where a tag is found does not change when more tags follow. */
  lemma FindInPrefix(metas: seq<MetaTag>, extra: seq<MetaTag>, a: Attribute, v: string, i: nat)
    requires IsFirst(metas, a, v, i)
    ensures IsFirst(metas + extra, a, v, i)
  {
    assert (metas + extra)[i] == metas[i];
    forall j | 0 <= j < i ensures !Has((metas + extra)[j], a, v) {
      assert (metas + extra)[j] == metas[j];
    }
  }

  /** A tag that exists has a first occurrence. */
  lemma FirstExists(metas: seq<MetaTag>, a: Attribute, v: string) returns (i: nat)
    requires HasTag(metas, a, v)
    ensures IsFirst(metas, a, v, i)
  {
    var f := Find(metas, a, v, 0);
    i := f.value;
  }

  /**
   * Once an og:description tag is on the page, tags that come after it,
   * name=description ones included, do not change the description.
   */
  lemma OgDescriptionDecides(url: string, status: int, metas: seq<MetaTag>, extra: seq<MetaTag>, unescape: string -> string)
    requires HasTag(metas, Property, "og:description")
    ensures ArticleData(url, Fetched(status, metas + extra), unescape).description
         == ArticleData(url, Fetched(status, metas), unescape).description
  {
    var i := FirstExists(metas, Property, "og:description");
    FindInPrefix(metas, extra, Property, "og:description", i);
    FindFirst(metas, Property, "og:description");
    FindFirst(metas + extra, Property, "og:description");
  }

  /**
   * An og:description tag with blank or missing content gives the blank
   * description, even when a name=description tag has text.
   */
  lemma BlankOgDescriptionWins(url: string, metas: seq<MetaTag>, unescape: string -> string)
    requires url != []
    requires HasTag(metas, Property, "og:description")
    requires forall i :: 0 <= i < |metas| && Has(metas[i], Property, "og:description") ==>
      metas[i].content.None? || metas[i].content == Some("")
    ensures ArticleData(url, Fetched(200, metas), unescape).description == Some("")
  {
    var i := FirstExists(metas, Property, "og:description");
    ArticleDescription(url, 200, metas, unescape);
  }
}
