/** The olympustaff provider: a site with `/series/<slug>/<number>` URLs,
    no de-duplication and chapters sorted by descending number. */
module Olympustaff {
  import opened Js
  import opened Text
  import opened Patterns
  import opened Records
  import opened Ordering

  const Api: string := "https://olympustaff.com"

  // ---------------------------------------------------------------- search

  /** The attributes a cover URL is taken from, in order of preference. */
  const ImageAttrs: seq<string> := ["data-src", "src"]

  /** What one `.book-detailed-item` contributes: nothing without an anchor,
      without a truthy href or without a `/series/<slug>` in it. */
  function SearchResultOf(e: SearchEntry): (r: Option<SearchResult>)
    ensures r.Some? <==>
      e.anchor.Some? && Truthy(Attr(e.anchor, "href")) && Exec(SeriesSlug, Attr(e.anchor, "href").value).Some?
    ensures r.Some? ==>
      && r.value.id == Exec(SeriesSlug, Attr(e.anchor, "href").value).value
      && r.value.id != [] && '/' !in r.value.id
      && r.value.title == Trim(e.anchor.value.text)
      && r.value.image == Preferred(e.image, ImageAttrs, true)
      && r.value.synonyms.None?
  {
    if e.anchor.None? then None
    else
      var href := Attr(e.anchor, "href");
      if !Truthy(href) then None
      else
        match Exec(SeriesSlug, href.value)
        case None => None
        case Some(slug) => Some(SearchResult(slug, Trim(e.anchor.value.text), Preferred(e.image, ImageAttrs, true), None))
  }

  /** The id is the segment after the first `/series/`, whether or not a '/'
      follows it. */
  lemma SearchIdIsFirstSlug(e: SearchEntry, pre: string, slug: string, post: string)
    requires e.anchor.Some? && Attr(e.anchor, "href") == Some(pre + "/series/" + slug + post)
    requires slug != [] && '/' !in slug && (post == [] || post[0] == '/')
    requires forall q, y :: 0 <= q < |pre| ==> !ReadsAt(SeriesSlug, pre + "/series/" + slug + post, q, y)
    ensures SearchResultOf(e).Some? && SearchResultOf(e).value.id == slug
  {
    SeriesSlugAt(pre, slug, post);
    forall q | 0 <= q < |pre| ensures MatchAt(SeriesSlug, pre + "/series/" + slug + post, q).None? {
    }
    ExecLeftmost(SeriesSlug, pre + "/series/" + slug + post, |pre|);
  }

  function SearchResultsOf(entries: seq<SearchEntry>): (rs: seq<Option<SearchResult>>)
    ensures |rs| == |entries|
  {
    seq(|entries|, k requires 0 <= k < |entries| => SearchResultOf(entries[k]))
  }

  /** Every valid item yields a result, in document order, duplicates
      included: the result list is the items' results with the skipped
      items left out. */
  lemma SearchKeepsEveryResult(entries: seq<SearchEntry>)
    ensures forall r :: r in Present(SearchResultsOf(entries)) <==>
      exists k :: 0 <= k < |entries| && SearchResultOf(entries[k]) == Some(r)
  {
    var rs := SearchResultsOf(entries);
    forall r ensures Some(r) in rs <==> exists k :: 0 <= k < |entries| && SearchResultOf(entries[k]) == Some(r) {
      if Some(r) in rs {
        var k :| 0 <= k < |rs| && rs[k] == Some(r);
        assert SearchResultOf(entries[k]) == Some(r);
      }
      if exists k :: 0 <= k < |entries| && SearchResultOf(entries[k]) == Some(r) {
        var k :| 0 <= k < |entries| && SearchResultOf(entries[k]) == Some(r);
        assert rs[k] == Some(r);
      }
    }
  }

  /** Two items with the same slug both appear. */
  lemma SearchKeepsDuplicates(a: SearchEntry, b: SearchEntry)
    requires SearchResultOf(a).Some? && SearchResultOf(b).Some?
    ensures Present(SearchResultsOf([a, b])) == [SearchResultOf(a).value, SearchResultOf(b).value]
  {
    SearchResultsOfPair(a, b);
    PresentPair(SearchResultOf(a), SearchResultOf(b));
  }

  lemma SearchResultsOfPair(a: SearchEntry, b: SearchEntry)
    ensures SearchResultsOf([a, b]) == [SearchResultOf(a), SearchResultOf(b)]
  {
    var rs := SearchResultsOf([a, b]);
    assert rs[0] == SearchResultOf(a) && rs[1] == SearchResultOf(b);
  }

  /** `search`: the request it sends for the already URI-encoded query, and
      the `.each` over the items `entries` of the response. */
  method Search(encodedQuery: string, entries: seq<SearchEntry>) returns (request: Request, results: seq<SearchResult>)
    ensures request == Get(Api + "/?s=" + encodedQuery)
    ensures results == Present(SearchResultsOf(entries))
  {
    request := Get(Api + "/?s=" + encodedQuery);
    ghost var rs := SearchResultsOf(entries);
    results := [];
    for i := 0 to |entries|
      invariant results == Present(rs[..i])
    {
      PresentStep(rs, i, results);
      var el := entries[i];
      assert rs[i] == SearchResultOf(el);
      if el.anchor.None? {
        continue;
      }
      var title := Trim(el.anchor.value.text);
      var href := Attr(el.anchor, "href");
      if !Truthy(href) {
        continue;
      }
      var slugMatch := Exec(SeriesSlug, href.value);
      if slugMatch.None? {
        continue;
      }
      var image := Preferred(el.image, ImageAttrs, true);
      results := results + [SearchResult(slugMatch.value, title, image, None)];
    }
    assert rs[..|entries|] == rs;
  }

  // -------------------------------------------------------------- chapters

  /** The text `a[href*='/series/<mangaId>/']` requires of an href. */
  function SeriesPath(mangaId: string): string {
    "/series/" + mangaId + "/"
  }

  /** What one anchor of the series page contributes: a chapter when the
      selector picks it and its href has a `/series/<x>/<digits>` in it. */
  function ChapterOf(mangaId: string, a: Element): (r: Option<ChapterDetails>)
    ensures r.Some? <==>
      && Truthy(Attr(Some(a), "href"))
      && Contains(a.attrs["href"], SeriesPath(mangaId))
      && Exec(SeriesChapter, a.attrs["href"]).Some?
    ensures r.Some? ==>
      && r.value.url == a.attrs["href"]
      && Some(r.value.chapter) == Exec(SeriesChapter, r.value.url)
      && r.value.chapter != [] && AllDigits(r.value.chapter)
      && r.value.id == ChapterId(mangaId, r.value.chapter)
      && r.value.index == 0
      && (Trim(a.text) != [] ==> r.value.title == Trim(a.text))
      && (Trim(a.text) == [] ==> r.value.title == "Chapter " + r.value.chapter)
  {
    var href := Attr(Some(a), "href");
    if !Truthy(href) || !Contains(href.value, SeriesPath(mangaId)) then None
    else
      match Exec(SeriesChapter, href.value)
      case None => None
      case Some(num) =>
        var text := Trim(a.text);
        Some(ChapterDetails(ChapterId(mangaId, num), href.value, if text != [] then text else "Chapter " + num, num, 0))
  }

  function ParsedChapters(mangaId: string, anchors: seq<Element>): (cs: seq<Option<ChapterDetails>>)
    ensures |cs| == |anchors|
  {
    seq(|anchors|, k requires 0 <= k < |anchors| => ChapterOf(mangaId, anchors[k]))
  }

  /** The chapters `findChapters` pushes, in document order. */
  function ChaptersOf(mangaId: string, anchors: seq<Element>): seq<ChapterDetails> {
    Present(ParsedChapters(mangaId, anchors))
  }

  /** The chapter list returned for the anchors of the series page. */
  function FinalChapters(mangaId: string, anchors: seq<Element>): seq<ChapterDetails> {
    Reindexed(Sorted(ChaptersOf(mangaId, anchors), DescendingRank))
  }

  /** Chapter ids decode to the manga id and the chapter number: a digit
      string never holds the separator. */
  lemma ChapterIdsDecode(mangaId: string, anchors: seq<Element>)
    requires Separator !in mangaId
    ensures forall c :: c in ChaptersOf(mangaId, anchors) ==> SplitChapterId(c.id) == (mangaId, Some(c.chapter))
  {
    forall c | c in ChaptersOf(mangaId, anchors) ensures SplitChapterId(c.id) == (mangaId, Some(c.chapter)) {
      var cs := ParsedChapters(mangaId, anchors);
      var k :| 0 <= k < |cs| && cs[k] == Some(c);
      assert ChapterOf(mangaId, anchors[k]) == Some(c);
      assert !IsDigit(Separator);
      assert Separator !in c.chapter;
      ChapterIdRoundTrip(mangaId, c.chapter);
    }
  }

  /** The returned chapters are the pushed ones, duplicates kept, numbered
      0..N-1 in descending order of chapter number; equal numbers keep
      their document order. */
  lemma FinalChaptersSpec(mangaId: string, anchors: seq<Element>, v: int)
    ensures var pushed := ChaptersOf(mangaId, anchors);
            var out := FinalChapters(mangaId, anchors);
            && |out| == |pushed|
            && DenselyIndexed(out)
            && (forall i, j :: 0 <= i < j < |out| ==> Key(out[i]) >= Key(out[j]))
            && multiset(Cleared(out)) == multiset(pushed)
            && OfRank(Sorted(pushed, DescendingRank), DescendingRank, v) == OfRank(pushed, DescendingRank, v)
  {
    var pushed := ChaptersOf(mangaId, anchors);
    var cs := ParsedChapters(mangaId, anchors);
    forall k | 0 <= k < |pushed| ensures pushed[k].index == 0 {
      assert Some(pushed[k]) in cs;
      var j :| 0 <= j < |cs| && cs[j] == Some(pushed[k]);
      assert ChapterOf(mangaId, anchors[j]) == Some(pushed[k]);
    }
    KeyRanksIndexBlind();
    SortedReindexed(pushed, DescendingRank);
    SortedStable(pushed, DescendingRank, v);
  }

  /** `findChapters`: the request it sends, the `.each` over the anchors of
      the response, the descending `sort` and the numbering. */
  method FindChapters(mangaId: string, anchors: seq<Element>) returns (request: Request, chapters: seq<ChapterDetails>)
    ensures request == Get(Api + "/series/" + mangaId)
    ensures chapters == FinalChapters(mangaId, anchors)
  {
    request := Get(Api + "/series/" + mangaId);
    ghost var cs := ParsedChapters(mangaId, anchors);
    var list: seq<ChapterDetails> := [];
    for i := 0 to |anchors|
      invariant list == Present(cs[..i])
    {
      PresentStep(cs, i, list);
      var el := anchors[i];
      assert cs[i] == ChapterOf(mangaId, el);
      var href := Attr(Some(el), "href");
      if !Truthy(href) || !Contains(href.value, SeriesPath(mangaId)) {
        continue;
      }
      var chapterMatch := Exec(SeriesChapter, href.value);
      if chapterMatch.None? {
        continue;
      }
      var chapterNum := chapterMatch.value;
      var title := Trim(el.text);
      if title == [] {
        title := "Chapter " + chapterNum;
      }
      list := list + [ChapterDetails(ChapterId(mangaId, chapterNum), href.value, title, chapterNum, 0)];
    }
    assert cs[..|anchors|] == cs;
    var a := new ChapterDetails[|list|](k requires 0 <= k < |list| => list[k]);
    assert a[..] == list;
    Sort(a, DescendingRank);
    Reindex(a);
    chapters := a[..];
  }

  // ----------------------------------------------------------------- pages

  /** The URL of image `img`, or `None` when its preferred src is empty or
      names a logo or an icon. */
  function PageSource(img: Element): (src: Option<string>)
    ensures src.Some? ==> src == Preferred(Some(img), ImageAttrs, true)
    ensures var p := Preferred(Some(img), ImageAttrs, true);
            src.Some? <==> Truthy(p) && !Contains(p.value, "logo") && !Contains(p.value, "icon")
  {
    var src := Preferred(Some(img), ImageAttrs, true);
    if Truthy(src) && !Contains(src.value, "logo") && !Contains(src.value, "icon") then src else None
  }

  function PageSources(imgs: seq<Element>): (srcs: seq<Option<string>>)
    ensures |srcs| == |imgs|
  {
    seq(|imgs|, k requires 0 <= k < |imgs| => PageSource(imgs[k]))
  }

  /** The pages of the chapter-content images `imgs`. */
  function Pages(imgs: seq<Element>): seq<ChapterPage> {
    IndexedPages(PageSources(imgs), RefererHeaders(Api))
  }

  /** A page exists for an image iff its preferred src is non-empty and
      holds neither "logo" nor "icon"; its index is the image's position. */
  lemma PagesSpec(imgs: seq<Element>)
    ensures forall k :: 0 <= k < |Pages(imgs)| ==>
      && 0 <= Pages(imgs)[k].index < |imgs|
      && Some(Pages(imgs)[k].url) == Preferred(Some(imgs[Pages(imgs)[k].index]), ImageAttrs, true)
      && Pages(imgs)[k].url != []
      && !Contains(Pages(imgs)[k].url, "logo") && !Contains(Pages(imgs)[k].url, "icon")
      && Pages(imgs)[k].headers == RefererHeaders(Api)
    ensures forall k, l :: 0 <= k < l < |Pages(imgs)| ==> Pages(imgs)[k].index < Pages(imgs)[l].index
    ensures forall i :: 0 <= i < |imgs| ==>
      (PageSource(imgs[i]).Some? <==> exists k :: 0 <= k < |Pages(imgs)| && Pages(imgs)[k].index == i)
  {
    var srcs := PageSources(imgs);
    var pages := Pages(imgs);
    IndexedPagesSound(srcs, RefererHeaders(Api));
    forall k | 0 <= k < |pages|
      ensures 0 <= pages[k].index < |imgs|
      ensures Some(pages[k].url) == Preferred(Some(imgs[pages[k].index]), ImageAttrs, true)
      ensures pages[k].url != [] && !Contains(pages[k].url, "logo") && !Contains(pages[k].url, "icon")
    {
      assert srcs[pages[k].index] == PageSource(imgs[pages[k].index]);
    }
    forall i | 0 <= i < |imgs|
      ensures PageSource(imgs[i]).Some? <==> exists k :: 0 <= k < |pages| && pages[k].index == i
    {
      assert srcs[i] == PageSource(imgs[i]);
      if srcs[i].Some? {
        IndexedPagesComplete(srcs, RefererHeaders(Api), i);
      }
      if exists k :: 0 <= k < |pages| && pages[k].index == i {
        var k :| 0 <= k < |pages| && pages[k].index == i;
        assert srcs[i] == Some(pages[k].url);
      }
    }
  }

  /** `${api}/series/${mangaId}/${chapterNum}` with the halves of the id. */
  function PageUrl(chapterId: string): string {
    var (mangaId, chapterNum) := SplitChapterId(chapterId);
    Api + "/series/" + mangaId + "/" + Interpolated(chapterNum)
  }

  /** `findChapterPages`: the request it sends, and the `.each` over the page
      images `imgs` of the response. */
  method FindChapterPages(chapterId: string, imgs: seq<Element>) returns (request: Request, pages: seq<ChapterPage>)
    ensures request == Get(PageUrl(chapterId))
    ensures pages == Pages(imgs)
  {
    var (mangaId, chapterNum) := SplitChapterId(chapterId);
    request := Get(Api + "/series/" + mangaId + "/" + Interpolated(chapterNum));
    pages := [];
    for i := 0 to |imgs|
      invariant pages == IndexedPages(PageSources(imgs)[..i], RefererHeaders(Api))
    {
      ghost var srcs := PageSources(imgs);
      assert srcs[..i + 1][..i] == srcs[..i];
      var src := Preferred(Some(imgs[i]), ImageAttrs, true);
      if Truthy(src) && !Contains(src.value, "logo") && !Contains(src.value, "icon") {
        pages := pages + [ChapterPage(src.value, i, map["Referer" := Api + "/"])];
      }
    }
    assert PageSources(imgs)[..|imgs|] == PageSources(imgs);
  }
}
