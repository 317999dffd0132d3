# News-feed enrichment view, modelled in Dafny

The blog's news pages show recent items from a Google Alerts feed. Each feed entry is
turned into a display record:

- the title is cleaned of markup and extra whitespace;
- the wrapper link is unwrapped to the article's real URL;
- the article page is read for its `og:image` and its description meta tags;
- the excerpt is the page description or the feed's snippet, truncated at a word boundary
  to 160 characters plus `...`;
- the image is the page image or a placeholder;
- the timestamp is shown as `DD Mon YYYY`.

The processed list is kept in a cache for 900 seconds. The index page shows its first six
records.

The model has one module per concern:

| file | module | models |
|---|---|---|
| wrappers.dfy | `Wrappers` | `Option` and `Result` |
| text.dfy | `TextNormalizer` | `clean_text`: tag stripping by `<[^<]+?>`, `str.split()` whitespace, `" ".join` |
| truncate.dfy | `Truncation` | `smart_truncate` |
| url.dfy | `UrlResolver` | `get_real_url`: the parts of `urlsplit` the result depends on, `parse_qs`'s handling of the query |
| dates.dfy | `Dates` | `parse_date`: the fixed-width format `%Y-%m-%dT%H:%M:%SZ` and the display form `%d %b %Y` |
| enrich.dfy | `PageEnricher` | `scrape_article_data`: a page is a status plus its meta tags in document order |
| posts.dfy | `EntryProcessor` | `process_single_post`, and the index view's `[:6]` |
| cache.dfy | `NewsFeedCache` | `get_cached_news`: a class holding the cache's key/value/expiry map and its clock |

Some things the view calls are not defined here. They are parameters, bundled in
`EntryProcessor.Env`:

- `html.unescape`, as a function `string -> string`.
- The percent-decoding `parse_qs` applies (`+` to space, then `unquote`), as a function
  `string -> string`.
- The web: a function from URL to page outcome. The outcome is either `Unreachable` (the
  request raised) or `Fetched(status, meta tags)`. One `Env` holds the web fixed; every call
  given the same `Env` sees the same pages, even calls more than 900 seconds apart.

The feed is given as its status (absent when `feedparser` reports none) and its entries.

The model shows two of the exceptions this code lets through to the view (the others are
listed under "Left out"):

- `feed.status` is missing: an `AttributeError` from `get_cached_news`.
- An entry has no content while the page gave no description: the worker raises at
  `entry.content[0]`. That is an `AttributeError` when the entry has no `content`, and an
  `IndexError` when the list is empty. The model does not tell the two apart. The error
  comes back through `list(executor.map(...))` at the first such entry and nothing is
  cached.

## Two behaviours of the code worth knowing

- When the cut of `smart_truncate` holds no space, `rsplit(' ', 1)[0]` returns the whole
  cut. The result is then the full `length` characters plus the suffix.
- The text clean-up is not idempotent. Removing one tag can bring a `<` and a `>` together
  into a new tag: `<x<ab>>` strips to `<x>`, which strips to nothing.
  `TextNormalizer.StripTagsNotIdempotent` proves this. The whitespace collapse on its own is
  idempotent, and `TextNormalizer.CollapseIdempotent` proves that.

## Model

| member | source | states |
|---|---|---|
| TextNormalizer.WordLength | my_site/blog/views.py:35 | the first run of non-whitespace characters ends at a whitespace character or at the end |
| TextNormalizer.Words | my_site/blog/views.py:35 | `str.split()` yields only non-empty words with no whitespace in them |
| TextNormalizer.NonSpace | my_site/blog/views.py:35 | keeps only non-whitespace characters and never lengthens the text |
| TextNormalizer.WordsSpellNonSpace | my_site/blog/views.py:35 | `str.split()` loses only whitespace: the words written one after another are the non-whitespace characters of the text, in order |
| TextNormalizer.JoinNormalized | my_site/blog/views.py:35 | joining words with single spaces gives text with no leading, trailing or doubled space and no other whitespace |
| TextNormalizer.Collapse | my_site/blog/views.py:35 | `" ".join(s.split())` is always normalized: single spaces only, none at either end |
| TextNormalizer.NormalizedRejoins | my_site/blog/views.py:35 | normalized text splits into words that join back to exactly that text |
| TextNormalizer.CollapseFixpoint | my_site/blog/views.py:35 | collapsing leaves text unchanged if and only if it is already normalized |
| TextNormalizer.CollapseIdempotent | my_site/blog/views.py:35 | collapsing twice equals collapsing once |
| TextNormalizer.WordsOfJoin | my_site/blog/views.py:35 | splitting words joined by single spaces gives back those words |
| TextNormalizer.WordsOfWordThen | my_site/blog/views.py:35 | a word followed by a space (or by nothing) is the first word of the split |
| TextNormalizer.WordLengthOf | my_site/blog/views.py:35 | the first word-run of a word followed by a space (or by nothing) is that word |
| TextNormalizer.CollapseKeepsWords | my_site/blog/views.py:35 | collapsing whitespace keeps the words and their order |
| TextNormalizer.NormalizedAfterSpace | my_site/blog/views.py:35 | in normalized text a space is followed by a non-space character, and the text after it is normalized |
| TextNormalizer.CloseFrom | my_site/blog/views.py:31 | the lazy scan from a position on reports, if anything, a position at or after it inside the text |
| TextNormalizer.CloseFromScans | my_site/blog/views.py:31 | the lazy `[^<]+?>` scan finds the first `>` before any `<`, and fails only when every later `>` has a `<` before it |
| TextNormalizer.TagClose | my_site/blog/views.py:31 | a match at the start of the text ends at index 2 or later, inside the text |
| TextNormalizer.TagCloseMatches | my_site/blog/views.py:31 | the pattern matches at the start of the text exactly when the scan reports a closing `>`, and then the match ends there |
| TextNormalizer.StripTags | my_site/blog/views.py:31 | tag removal never lengthens text |
| TextNormalizer.StripTagsPlainStep | my_site/blog/views.py:31 | a first character other than `<` is kept and the scan goes on after it |
| TextNormalizer.StripTagsKeepsPlain | my_site/blog/views.py:31 | text without `<` is unchanged |
| TextNormalizer.StripTagsKeepsPlainPrefix | my_site/blog/views.py:31 | text before the first `<` is kept as it is |
| TextNormalizer.StripTagsRemovesTag | my_site/blog/views.py:31 | a tag `<inner>` whose inner text holds no `<` or `>` is removed entirely |
| TextNormalizer.StripTagsKeepsOpenBeforeOpen | my_site/blog/views.py:31 | a `<` whose match would cross another `<` is kept |
| TextNormalizer.StripTagsLeavesTag | my_site/blog/views.py:31 | one pass over `<x<ab>>` (any ordinary `x`, any tag text `ab`) removes `<ab>` and leaves `<x>` |
| TextNormalizer.StripTagsNotIdempotent | my_site/blog/views.py:31 | one pass over `<x<ab>>` leaves `<x>`, and a second pass removes that too: tag removal is not idempotent |
| TextNormalizer.CleanText | my_site/blog/views.py:22-36 | missing or empty text gives `""`; otherwise the result is normalized and holds the words of the unescaped, tag-stripped text, in order |
| Truncation.LastSpace | my_site/blog/views.py:91 | finds the index of the last space, and there is no space after it; no index means no space at all |
| Truncation.LastSpaceIsUnique | my_site/blog/views.py:91 | a space with no space after it is the one that `LastSpace` finds |
| Truncation.BeforeLastSpace | my_site/blog/views.py:91 | `rsplit(' ', 1)[0]` is a prefix of the text: the whole text when it has no space, otherwise the text up to a space after which no space follows |
| Truncation.IsTruncation | my_site/blog/views.py:80-92 | a truncation is the text itself, or at most `length` characters of it followed by the suffix |
| Truncation.SmartTruncate | my_site/blog/views.py:80-92 | text that fits is returned unchanged; longer text becomes the whole cut plus the suffix when the cut ends in a space or holds none, and otherwise the cut up to its last space plus the suffix; the length is at most `length + len(suffix)` |
| Truncation.TruncationUnique | my_site/blog/views.py:80-92 | the truncation contract allows exactly one result |
| Truncation.TruncationKeepsWords | my_site/blog/views.py:88-92 | when the cut holds a space, the kept text ends in a space or is followed by one in the original |
| UrlResolver.StripLeading | my_site/blog/views.py:16 | urlsplit's strip of leading C0 controls and spaces leaves a suffix that starts with neither |
| UrlResolver.RemoveUnsafe | my_site/blog/views.py:16 | urlsplit's removal of tab, CR and LF keeps every other character and leaves none of those three |
| UrlResolver.Sanitize | my_site/blog/views.py:16 | after urlsplit's clean-up, no tab, CR or LF remains and the text does not start with a control character or space |
| UrlResolver.SanitizeKeepsPrintable | my_site/blog/views.py:16 | a URL with no control characters or spaces passes the clean-up unchanged |
| UrlResolver.AfterScheme | my_site/blog/views.py:16 | taking off the scheme leaves a suffix of the URL, and the whole URL when it has no `:` |
| UrlResolver.AfterSchemeTakesScheme | my_site/blog/views.py:16 | urlsplit takes off either nothing or a scheme that starts with an ASCII letter, holds only scheme characters and ends at the first `:` |
| UrlResolver.NetlocLength | my_site/blog/views.py:16 | the network location runs up to the first `/`, `?` or `#`, or to the end |
| UrlResolver.Netloc | my_site/blog/views.py:16 | there is a network location exactly when the scheme-less rest starts with `//`; it is the text after `//` up to the first `/`, `?` or `#` |
| UrlResolver.NoBracketsParse | my_site/blog/views.py:16 | the modelled bracket check never fails for a URL without square brackets |
| UrlResolver.LoneBracketFails | my_site/blog/views.py:16-20 | a link `scheme://host` whose host has a `[` and no `]` fails the modelled bracket check, so it comes back unchanged |
| UrlResolver.Query | my_site/blog/views.py:16-17 | the query holds no `#` |
| UrlResolver.QueryIsTail | my_site/blog/views.py:16-17 | a URL without `?` has an empty query; in a URL without `#` a non-empty query is the rest of the URL after some `?` |
| UrlResolver.SplitOn | my_site/blog/views.py:17 | splitting the query on `&` gives at least one field, and no field holds a separator |
| UrlResolver.SplitJoin | my_site/blog/views.py:17 | the fields joined by `&` give back the query |
| UrlResolver.NameValue | my_site/blog/views.py:17 | a field is split at its first `=`; a field without `=` has no name/value pair |
| UrlResolver.FirstUrlField | my_site/blog/views.py:17 | finds the first field whose decoded name is `url` and whose value is non-empty; no index means there is no such field |
| UrlResolver.FirstUrlFieldIsUnique | my_site/blog/views.py:17 | only one field is the first `url` field, whose value `parse_qs` lists first |
| UrlResolver.GetRealUrl | my_site/blog/views.py:14-20 | a parse failure or a missing `url` field gives the input back; otherwise the first `url` field's decoded value if it is non-blank, else the input; so the result is either the input or a non-blank decoded `url` value |
| UrlResolver.UnwrapsUrlParameter | my_site/blog/views.py:14-18 | a wrapper link `prefix?url=value` unwraps to the decoded value |
| UrlResolver.WrapperFields | my_site/blog/views.py:16-17 | the query of a wrapper link `prefix?url=value` is the one field `url=value` |
| UrlResolver.SingleUrlField | my_site/blog/views.py:17-18 | when the query is a single field named `url`, its decoded value is the result if non-blank, and the input otherwise |
| UrlResolver.NoQueryUnchanged | my_site/blog/views.py:16-18 | a URL without `?` comes back unchanged |
| Dates.IsLeapYear | my_site/blog/views.py:75 | a leap year is a multiple of four (the Gregorian rule used by `datetime`) |
| Dates.DaysInMonth | my_site/blog/views.py:75 | a month has 28 to 31 days, and 29 exactly for February of a leap year and 28 exactly for February of another year |
| Dates.IsValid | my_site/blog/views.py:75 | a valid moment's day is at most 31, and 29 February only occurs in a leap year |
| Dates.HasIsoShape | my_site/blog/views.py:75 | text in the shape of the source format holds no space, so no field is space-padded |
| Dates.DigitChar | my_site/blog/views.py:76 | a digit value is rendered as an ASCII digit |
| Dates.Pad2 | my_site/blog/views.py:76 | two-digit zero padding gives two digits that read back as the number |
| Dates.Pad4 | my_site/blog/views.py:76 | four-digit zero padding gives four digits that read back as the number |
| Dates.TwoDigits | my_site/blog/views.py:75 | a two-digit field's value is under 100 and is read most-significant digit first |
| Dates.DigitsOfConcat | my_site/blog/views.py:75 | reading a field of digits followed by two more digits gives the field's value times 100 plus theirs |
| Dates.Pad2OfDigits | my_site/blog/views.py:75-76 | every two-digit field pads back to itself |
| Dates.Pad4OfDigits | my_site/blog/views.py:75-76 | every four-digit field pads back to itself |
| Dates.MonthAbbreviation | my_site/blog/views.py:76 | `%b` gives a three-letter English month abbreviation |
| Dates.Format | my_site/blog/views.py:75 | any six fields render in the twenty-character source format |
| Dates.FormatReadsBack | my_site/blog/views.py:75 | formatted fields have the shape of the source format and each field reads back as its value |
| Dates.Iso | my_site/blog/views.py:75 | the source format of a valid moment is twenty characters long |
| Dates.Display | my_site/blog/views.py:76 | the display form is eleven characters long |
| Dates.DisplayReadsBack | my_site/blog/views.py:76 | the display form is the zero-padded day, a space, the month abbreviation, a space and the four-digit year |
| Dates.IsoSpelling | my_site/blog/views.py:75 | text in the format spells the moment read from its fields |
| Dates.ParseIso | my_site/blog/views.py:75 | a successful parse is a valid moment that the text spells |
| Dates.ParseIsoRoundTrip | my_site/blog/views.py:75 | parsing the formatted moment gives back the moment |
| Dates.SpellingIsParsed | my_site/blog/views.py:75 | text that spells a valid moment parses to it |
| Dates.ParsesExactlyWhatIsSpelt | my_site/blog/views.py:75 | the parse finds every valid moment the text spells |
| Dates.SpellingDetermines | my_site/blog/views.py:75 | one text spells at most one valid moment |
| Dates.ParseDate | my_site/blog/views.py:73-78 | text spelling a valid moment is shown in display form; every other text is returned unchanged |
| Dates.FeedTimestampForms | my_site/blog/views.py:73-78 | 7 January 2024, 10:30 is a valid moment written `2024-01-07T10:30:00Z` and shown `07 Jan 2024` |
| Dates.DisplaysFeedTimestamp | my_site/blog/views.py:73-78 | `2024-01-07T10:30:00Z` is shown as `07 Jan 2024` |
| Dates.KeepsImpossibleDay | my_site/blog/views.py:73-78 | a timestamp whose day is past the end of its month does not parse and is returned unchanged |
| Dates.KeepsFebruary29Of2023 | my_site/blog/views.py:73-78 | `2023-02-29T10:30:00Z` is returned unchanged, because 2023 is not a leap year |
| PageEnricher.Find | my_site/blog/views.py:54 | `soup.find` returns the first tag with the attribute value, or reports that none has it |
| PageEnricher.FirstIsUnique | my_site/blog/views.py:54 | exactly one tag is the first match |
| PageEnricher.FindFirst | my_site/blog/views.py:54 | the search finds the first match, and finds nothing exactly when no tag matches |
| PageEnricher.FindInPrefix | my_site/blog/views.py:54 | tags after the first match do not change it |
| PageEnricher.FirstExists | my_site/blog/views.py:54 | a tag that is present has a first occurrence |
| PageEnricher.ArticleData | my_site/blog/views.py:42-50 | an empty URL, a failed request or a status other than 200 gives no image and no description |
| PageEnricher.ArticleImage | my_site/blog/views.py:54-56 | the image is the content of the first `og:image` tag, and is absent without one |
| PageEnricher.ArticleDescription | my_site/blog/views.py:60-66 | the description is the cleaned first `og:description`; only without one is the cleaned first `name=description` used; with neither there is none |
| PageEnricher.OgDescriptionDecides | my_site/blog/views.py:60-66 | once an `og:description` tag is present, the tags after it do not change the description |
| PageEnricher.BlankOgDescriptionWins | my_site/blog/views.py:60-62 | a blank `og:description` gives the blank description even when `name=description` has text |
| PageEnricher.ScrapeArticleData | my_site/blog/views.py:38-71 | updating the dictionary step by step produces exactly the data the extraction policy defines |
| EntryProcessor.Truthy | my_site/blog/views.py:107 | Python truthiness of an optional string: `None` and `""` are false, everything else is true |
| EntryProcessor.ProcessSinglePost | my_site/blog/views.py:96-125 | the entry fails exactly when there is no truthy page description and no content; otherwise the title is the cleaned entry title (so normalized), the date is `parse_date` of the published text, the link is the resolved link the scraper was given, the image is the page image when truthy and else the placeholder (so never empty), and the excerpt has at most 163 characters |
| EntryProcessor.UsesPageData | my_site/blog/views.py:107-108 | a truthy page description is truncated into the excerpt, and a truthy page image is used, else the placeholder |
| EntryProcessor.FallsBackToSnippet | my_site/blog/views.py:109-112 | without a truthy page description, the excerpt is the cleaned first snippet, truncated |
| EntryProcessor.PageNotLoaded | my_site/blog/views.py:102-121 | a page that gives no data (empty link, failed request or a status other than 200) yields the placeholder image, the snippet's excerpt and the reformatted date |
| EntryProcessor.ShortDescriptionKept | my_site/blog/views.py:107-108 | a page description of at most 160 characters is the whole excerpt |
| EntryProcessor.RecentPosts | my_site/blog/views.py:152 | the index shows a prefix of the list, six records long or the whole list when it is shorter |
| NewsFeedCache.ProcessedIsUnique | my_site/blog/views.py:140-142 | processing the entries in order determines the list |
| NewsFeedCache.ProcessEntries | my_site/blog/views.py:139-142 | the list holds each entry's record, in entry order; the call fails exactly when some entry fails, and then at the first one |
| NewsFeedCache.NewsCache.constructor | my_site/blog/views.py:127-128 | a new cache is empty and satisfies the expiry invariant |
| NewsFeedCache.NewsCache.Get | my_site/blog/views.py:128 | `cache.get` gives the stored value exactly when the key is present and has not expired |
| NewsFeedCache.NewsCache.IsHit | my_site/blog/views.py:128-130 | `if cached_data:` holds exactly when the key is stored, has not expired and its list is non-empty |
| NewsFeedCache.NewsCache.Set | my_site/blog/views.py:144 | `cache.set` stores the value under the key until now + 900, keeps the other keys, and keeps the expiry invariant |
| NewsFeedCache.NewsCache.Tick | my_site/blog/views.py:144 | time passing changes only the clock, keeps the expiry invariant, and once 900 seconds have passed no key is fresh |
| NewsFeedCache.NewsCache.GetCachedNews | my_site/blog/views.py:127-146 | a fresh non-empty list is returned untouched, with no fetch; a miss fetches once; a missing status fails and stores nothing; a status other than 200 returns `[]` and stores nothing; status 200 returns each entry's record in entry order and stores the list until now + 900, or fails at the first entry that fails and stores nothing |

`NewsFeedCache.RefreshHitExpire` is a usage scenario. It proves in its body that:

- a second read within 900 seconds returns the stored list, whatever the feed now holds;
- the list expires at 900 seconds;
- a stored empty list counts as a miss;
- a refetch of the same feed, with the same web, gives the same list.

## Left out

- HTTP requests, their headers and 2-second timeout, BeautifulSoup parsing and
  `feedparser.parse`. They are replaced by the page and feed values described above. The
  Google Alerts URL is part of that I/O.
- The concurrency of `ThreadPoolExecutor`. The only effect it has on the result is an
  in-order map that raises at the first failing entry, and that is what `ProcessEntries`
  models.
- The Django cache backend's internals (deleting expired keys, its size limit and culling),
  `render`, request objects, templates and the `print`.
- Two misses that happen at the same time and both refresh.
- The full entity table of `html.unescape` and the percent-decoding tables. They are
  uninterpreted parameters.
- Feed entries without `title`, `link` or `published`. `feedparser` raises
  `AttributeError` for such an attribute, and the model's entries always carry these three
  strings. If `entry.content` is present, its first item's `value` is taken to be present
  too. An empty title gives an empty title, as `clean_text` does.
- `Dates.ParseDate`: models `strptime` on fixed-width ASCII input only. These are
  not modelled:
  - one-digit months, days and time fields;
  - a day padded with a space, which `%d` accepts: Python shows `2024-01- 7T10:30:00Z` as
    `07 Jan 2024`, where the model returns it unchanged;
  - non-ASCII digits;
  - leap seconds, which `strptime` accepts as `%S` up to 61 but `datetime` then rejects;
  - the locale dependence of `%b`, which is fixed to English.
- `Dates.Display`: years before 1000 are shown zero-padded to four digits. The platform's
  `strftime("%Y")` may not pad them.
- `UrlResolver.GetRealUrl`: the parse failures modelled are only an unbalanced `[` or `]`
  in the network location. These are not modelled: the validation of the bracketed IPv6
  host, the NFKC check on the network location, and errors raised by the decoder. With an
  ASCII URL without square brackets the result is exact.
- `UrlResolver.NoBracketsParse`: speaks of the modelled bracket check only. Python's
  `urlsplit` also raises `ValueError` for a non-ASCII network location whose NFKC form gains
  one of `/ ? # @ :`. For example, in `https://a℀b/?url=x` the `℀` becomes `a/c`. Python
  then returns the input, where the model returns the decoded `x`.
- `Truncation.SmartTruncate`: requires `length > 0` when the text is longer than `length`.
  Python raises on an empty cut there. The view always calls it with 160.
- What happens when an exception is raised partway through a call: the dictionary or list
  as it stood. Such a call returns only its fault.
