/**
 * The image resolver: given a species' image file name, ask the wiki API
 * for the file's image information, take the first page's first image URL,
 * and keep it only if the availability check accepts it; every other
 * outcome, thrown errors included, becomes the placeholder image.
 *
 * The network is not modelled: the answer to the lookup request is an
 * input (`LookupOutcome`, with `Failed` standing for every thrown error),
 * and the availability check is an oracle `available: string -> bool`.
 */
module BearImageService {
  import opened Text

  const Placeholder := "media/placeholder.png"
  const FilePrefix := "File:"

  /** The query parameters of the lookup request, as a key/value record. */
  datatype ImageQuery = ImageQuery(
    action: string, titles: string, prop: string, iiprop: string, format: string, origin: string)

  /** One element of a page's `imageinfo` array; its `url` may be missing. */
  datatype ImageInfo = ImageInfo(url: Option<string>)

  /** One entry of `query.pages`; `imageinfo` may be absent. */
  datatype Page = Page(imageinfo: Option<seq<ImageInfo>>)

  /**
   * What awaiting the request and its JSON body produces: the values of
   * `query.pages` in `Object.values` order, or `Failed` when the fetch
   * rejects, the body is not JSON or it has no `query.pages`.
   */
  datatype LookupOutcome = Failed | Pages(pages: seq<Page>)

  /** The returned image and the URL handed to the availability check, if it was called. */
  datatype Resolution = Resolution(image: string, probed: Option<string>)

  /** The file title a request asks about, if it names a file. */
  function FileNameOf(q: ImageQuery): Option<string> {
    if |q.titles| >= |FilePrefix| && q.titles[..|FilePrefix|] == FilePrefix
    then Some(q.titles[|FilePrefix|..])
    else None
  }

  /** The lookup request for `fileName`: image information of the page `File:<fileName>`, URLs only. */
  function QueryFor(fileName: string): (q: ImageQuery)
    ensures FileNameOf(q) == Some(fileName)
    ensures q.action == "query" && q.prop == "imageinfo" && q.iiprop == "url"
    ensures q.format == "json" && q.origin == "*"
  {
    var q := ImageQuery("query", FilePrefix + fileName, "imageinfo", "url", "json", "*");
    assert q.titles[..|FilePrefix|] == FilePrefix && q.titles[|FilePrefix|..] == fileName;
    q
  }

  /** Different file names give different requests. */
  lemma QueryForInjective(a: string, b: string)
    ensures QueryFor(a) == QueryFor(b) ==> a == b
  {
    if QueryFor(a) == QueryFor(b) {
      assert FileNameOf(QueryFor(a)) == Some(a);
      assert FileNameOf(QueryFor(b)) == Some(b);
    }
  }

  /** `u` is the URL of the first `imageinfo` element of the first page. */
  ghost predicate FirstUrlIs(outcome: LookupOutcome, u: string) {
    && outcome.Pages?
    && |outcome.pages| > 0
    && outcome.pages[0].imageinfo.Some?
    && |outcome.pages[0].imageinfo.value| > 0
    && outcome.pages[0].imageinfo.value[0].url == Some(u)
  }

  /**
   * The decision `fetchImageUrl` makes once the lookup has settled. An
   * empty `pages` map leaves the first page undefined, and reading its
   * `imageinfo` throws, which ends in the placeholder like any other error.
   */
  function Resolve(outcome: LookupOutcome, available: string -> bool): (r: Resolution)
    ensures forall u :: r.probed == Some(u) <==> FirstUrlIs(outcome, u)
    ensures r.probed.None? ==> r.image == Placeholder
    ensures r.probed.Some? && available(r.probed.value) ==> r.image == r.probed.value
    ensures r.probed.Some? && !available(r.probed.value) ==> r.image == Placeholder
  {
    match outcome
    case Failed => Resolution(Placeholder, None)
    case Pages(pages) =>
      if |pages| == 0 then Resolution(Placeholder, None)
      else
        var info := pages[0].imageinfo;
        var imageUrl := if info.Some? && |info.value| > 0 then info.value[0].url else None;
        match imageUrl
        case None => Resolution(Placeholder, None)
        case Some(u) => Resolution(if available(u) then u else Placeholder, Some(u))
  }

  /** `fetchImageUrl(fileName)`: the request is built, answered by `lookup`, and decided. */
  function FetchImageUrl(fileName: string, lookup: ImageQuery -> LookupOutcome, available: string -> bool): (r: Resolution)
    ensures r.image == Placeholder || (r.probed == Some(r.image) && available(r.image))
  {
    Resolve(lookup(QueryFor(fileName)), available)
  }

  /** Pages after the first, and `imageinfo` elements after the first, never affect the result. */
  lemma OnlyFirstEntryMatters(first: ImageInfo, more1: seq<ImageInfo>, more2: seq<ImageInfo>,
                              pages1: seq<Page>, pages2: seq<Page>, available: string -> bool)
    ensures Resolve(Pages([Page(Some([first] + more1))] + pages1), available)
         == Resolve(Pages([Page(Some([first] + more2))] + pages2), available)
  {
  }

  /** A first URL that passes the availability check is what the page shows. */
  lemma FirstUrlAvailable(fileName: string, lookup: ImageQuery -> LookupOutcome, available: string -> bool,
                          u: string, more: seq<ImageInfo>, pages: seq<Page>)
    requires lookup(QueryFor(fileName)) == Pages([Page(Some([ImageInfo(Some(u))] + more))] + pages)
    requires available(u)
    ensures FetchImageUrl(fileName, lookup, available) == Resolution(u, Some(u))
  {
  }

  /** A page without image information gives the placeholder and the availability check is not called. */
  lemma NoImageInfoSkipsCheck(page: Page, pages: seq<Page>, available: string -> bool)
    requires page.imageinfo.None? || page.imageinfo == Some([])
    ensures Resolve(Pages([page] + pages), available) == Resolution(Placeholder, None)
  {
  }
}
