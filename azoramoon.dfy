/** The azoramoon provider. Search and chapter lists come from a JSON API
    (its decoded responses are inputs); chapter pages are scraped from the
    site's HTML. */
module Azoramoon {
  import opened Js
  import opened Text
  import opened Patterns
  import opened Records
  import opened Ordering

  const Api: string := "https://azoramoon.com"
  const ApiUrl: string := "https://api.azoramoon.com/api"

  /** The `/query` request `search` sends for the URI-encoded query. */
  function SearchRequest(encodedQuery: string): Request {
    Get(ApiUrl + "/query?searchTerm=" + encodedQuery + "&perPage=20")
  }

  /** A chapter of the API: `unlockAt` is `None` when absent or falsy. */
  datatype ApiChapter = ApiChapter(slug: string, number: int, isLocked: bool, unlockAt: Option<int>)

  /** A post (series) of the API. */
  datatype ApiPost = ApiPost(
    slug: string, postTitle: string,
    featuredImage: Option<string>, alternativeTitles: Option<string>,
    chapters: Option<seq<ApiChapter>>)

  /** A decoded `/query` response; the response itself is `None` when falsy. */
  datatype ApiResponse = ApiResponse(posts: Option<seq<ApiPost>>)

  // ---------------------------------------------------------------- search

  /** `parts.filter(s => s.length > 2)`. */
  function LongPieces(parts: seq<string>): (r: seq<string>)
    ensures |r| <= |parts|
    ensures forall x :: x in r <==> x in parts && |x| > 2
  {
    if parts == [] then []
    else
      var init, last := parts[..|parts| - 1], parts[|parts| - 1];
      assert parts == init + [last];
      LongPieces(init) + (if |last| > 2 then [last] else [])
  }

  /** The filter works piece by piece: it keeps the kept pieces of each
      part of its input, in order. */
  lemma {:induction false} LongPiecesAppend(a: seq<string>, b: seq<string>)
    ensures LongPieces(a + b) == LongPieces(a) + LongPieces(b)
    decreases |b|
  {
    if b == [] {
      assert a + b == a;
    } else {
      var init, last := b[..|b| - 1], b[|b| - 1];
      var t := if |last| > 2 then [last] else [];
      assert b == init + [last];
      assert a + b == (a + init) + [last];
      calc {
        LongPieces(a + b);
        { LongPiecesSnoc(a + init, last); }
        LongPieces(a + init) + t;
        { LongPiecesAppend(a, init); }
        (LongPieces(a) + LongPieces(init)) + t;
        LongPieces(a) + (LongPieces(init) + t);
        { LongPiecesSnoc(init, last); }
        LongPieces(a) + LongPieces(b);
      }
    }
  }

  lemma LongPiecesSnoc(init: seq<string>, last: string)
    ensures LongPieces(init + [last]) == LongPieces(init) + if |last| > 2 then [last] else []
  {
    var parts := init + [last];
    assert parts[..|parts| - 1] == init;
  }

  /** A single piece is kept exactly when it is longer than 2 characters. */
  lemma LongPiecesOne(x: string)
    ensures LongPieces([x]) == if |x| > 2 then [x] else []
  {
    assert [x][..0] == [];
  }

  /** The synonyms of a post: its alternative titles split on whitespace
      runs, keeping the pieces longer than 2 characters. */
  function Synonyms(alternativeTitles: Option<string>): (r: seq<string>)
    ensures forall x :: x in r ==> |x| > 2 && NoSpace(x)
    ensures !Truthy(alternativeTitles) ==> r == []
    ensures Truthy(alternativeTitles) ==>
      forall x :: x in r <==> x in SplitSpaces(alternativeTitles.value) && |x| > 2
  {
    if Truthy(alternativeTitles) then LongPieces(SplitSpaces(alternativeTitles.value)) else []
  }

  /** The result `data.posts.map` makes of one post. */
  function ResultOf(post: ApiPost): SearchResult {
    SearchResult(
      post.slug, post.postTitle,
      Some(if Truthy(post.featuredImage) then post.featuredImage.value else ""),
      Some(Synonyms(post.alternativeTitles)))
  }

  /** `search` after `resp.json()`: no response or no posts gives no
      result, otherwise one result per post, in order. */
  function Search(data: Option<ApiResponse>): (rs: seq<SearchResult>)
    ensures data.None? || data.value.posts.None? ==> rs == []
    ensures data.Some? && data.value.posts.Some? ==> |rs| == |data.value.posts.value|
  {
    if data.None? || data.value.posts.None? then []
    else
      var posts := data.value.posts.value;
      seq(|posts|, k requires 0 <= k < |posts| => ResultOf(posts[k]))
  }

  /** Each result carries its post's slug and title, the featured image or
      "" and synonyms without spaces longer than 2 characters. */
  lemma SearchSpec(data: ApiResponse, k: nat)
    requires data.posts.Some? && k < |data.posts.value|
    ensures var post, r := data.posts.value[k], Search(Some(data))[k];
            && r.id == post.slug && r.title == post.postTitle
            && r.image == Some(if Truthy(post.featuredImage) then post.featuredImage.value else "")
            && r.synonyms == Some(Synonyms(post.alternativeTitles))
            && (forall x :: x in r.synonyms.value ==> |x| > 2 && NoSpace(x))
            && (!Truthy(post.alternativeTitles) ==> r.synonyms.value == [])
  {
  }

  // -------------------------------------------------------------- chapters

  /** `posts.find(p => p.slug === mangaId)`. */
  function FindPost(posts: seq<ApiPost>, mangaId: string): (r: Option<ApiPost>)
    ensures r.None? <==> forall k :: 0 <= k < |posts| ==> posts[k].slug != mangaId
    ensures r.Some? ==>
      && r.value.slug == mangaId
      && exists k :: 0 <= k < |posts| && posts[k] == r.value && forall j :: 0 <= j < k ==> posts[j].slug != mangaId
  {
    if posts == [] then None
    else if posts[0].slug == mangaId then Some(posts[0])
    else
      var r := FindPost(posts[1..], mangaId);
      assert forall k :: 1 <= k < |posts| ==> posts[k] == posts[1..][k - 1];
      if r.Some? then
        assert exists k :: 0 <= k < |posts| && posts[k] == r.value && forall j :: 0 <= j < k ==> posts[j].slug != mangaId by {
          var k :| 0 <= k < |posts[1..]| && posts[1..][k] == r.value && forall j :: 0 <= j < k ==> posts[1..][j].slug != mangaId;
          assert posts[k + 1] == r.value;
          forall j | 0 <= j < k + 1 ensures posts[j].slug != mangaId {
            if j > 0 { assert posts[j] == posts[1..][j - 1]; }
          }
        }
        r
      else r
  }

  /** The chapters array of the post whose slug is exactly `mangaId`, if the
      response, its posts, that post and its chapters all exist. */
  function ChapterList(data: Option<ApiResponse>, mangaId: string): Option<seq<ApiChapter>> {
    if data.None? || data.value.posts.None? then None
    else
      match FindPost(data.value.posts.value, mangaId)
      case None => None
      case Some(post) => post.chapters
  }

  /** `ch.isLocked || (ch.unlockAt && new Date(ch.unlockAt) > new Date())`. */
  predicate Locked(ch: ApiChapter, now: int) {
    ch.isLocked || (ch.unlockAt.Some? && ch.unlockAt.value > now)
  }

  /** The chapter pushed for an unlocked API chapter. */
  function ChapterOf(mangaId: string, ch: ApiChapter): ChapterDetails {
    var number := IntToString(ch.number);
    ChapterDetails(ChapterId(mangaId, ch.slug), Api + "/series/" + mangaId + "/" + ch.slug, "الفصل " + number, number, 0)
  }

  /** A chapter's sort key is its API number. */
  lemma ChapterKey(mangaId: string, ch: ApiChapter)
    ensures Key(ChapterOf(mangaId, ch)) == ch.number
  {
    ParseIntToString(ch.number);
  }

  /** A chapter's id leads to the page request of its own url. */
  lemma ChapterPageRequest(mangaId: string, ch: ApiChapter)
    requires Separator !in mangaId && Separator !in ch.slug
    ensures PageUrl(ChapterOf(mangaId, ch).id) == ChapterOf(mangaId, ch).url
  {
    ChapterIdRoundTrip(mangaId, ch.slug);
  }

  /** The chapters the `forEach` pushes: the unlocked ones, in API order. */
  function FreeChapters(mangaId: string, chs: seq<ApiChapter>, now: int): (r: seq<ChapterDetails>)
    ensures |r| <= |chs|
    ensures forall c :: c in r <==> exists j :: 0 <= j < |chs| && !Locked(chs[j], now) && c == ChapterOf(mangaId, chs[j])
    ensures forall k :: 0 <= k < |r| ==> r[k].index == 0
    decreases |chs|
  {
    if chs == [] then []
    else
      var init, last := chs[..|chs| - 1], chs[|chs| - 1];
      assert chs == init + [last];
      var r := FreeChapters(mangaId, init, now) + (if Locked(last, now) then [] else [ChapterOf(mangaId, last)]);
      assert forall j :: 0 <= j < |init| ==> chs[j] == init[j];
      r
  }

  /** The `forEach` works chapter by chapter: the free chapters of two
      lists are those of the first, then those of the second. */
  lemma {:induction false} FreeChaptersAppend(mangaId: string, a: seq<ApiChapter>, b: seq<ApiChapter>, now: int)
    ensures FreeChapters(mangaId, a + b, now) == FreeChapters(mangaId, a, now) + FreeChapters(mangaId, b, now)
    decreases |b|
  {
    if b == [] {
      assert a + b == a;
    } else {
      var init := b[..|b| - 1];
      assert (a + b)[..|a + b| - 1] == a + init;
      assert (a + b)[|a + b| - 1] == b[|b| - 1];
      FreeChaptersAppend(mangaId, a, init, now);
    }
  }

  /** A single chapter is kept exactly when it is not locked at `now`. */
  lemma FreeChaptersOne(mangaId: string, ch: ApiChapter, now: int)
    ensures FreeChapters(mangaId, [ch], now) == if Locked(ch, now) then [] else [ChapterOf(mangaId, ch)]
  {
    assert [ch][..0] == [];
  }

  /** What `findChapters` returns for the decoded response `data` at time
      `now`. */
  function ChaptersOf(data: Option<ApiResponse>, mangaId: string, now: int): seq<ChapterDetails> {
    match ChapterList(data, mangaId)
    case None => []
    case Some(chs) => Reindexed(Sorted(FreeChapters(mangaId, chs, now), AscendingRank))
  }

  /** The returned chapters are exactly the unlocked ones, numbered 0..N-1
      in ascending order of their API number; chapters with the same number
      keep their order in the response. */
  lemma ChaptersSpec(mangaId: string, chs: seq<ApiChapter>, now: int, v: int)
    ensures var free := FreeChapters(mangaId, chs, now);
            var out := Reindexed(Sorted(free, AscendingRank));
            && |out| == |free|
            && DenselyIndexed(out)
            && (forall i, j :: 0 <= i < j < |out| ==> Key(out[i]) <= Key(out[j]))
            && multiset(Cleared(out)) == multiset(free)
            && (forall k :: 0 <= k < |out| ==>
                  exists j :: 0 <= j < |chs| && !Locked(chs[j], now) && Cleared(out)[k] == ChapterOf(mangaId, chs[j]))
            && OfRank(Sorted(free, AscendingRank), AscendingRank, v) == OfRank(free, AscendingRank, v)
  {
    var free := FreeChapters(mangaId, chs, now);
    var out := Reindexed(Sorted(free, AscendingRank));
    KeyRanksIndexBlind();
    SortedReindexed(free, AscendingRank);
    SortedStable(free, AscendingRank, v);
    FreeMembers(mangaId, chs, now, Cleared(out));
  }

  /** A rearrangement of the free chapters holds only unlocked chapters of
      the list. */
  lemma FreeMembers(mangaId: string, chs: seq<ApiChapter>, now: int, xs: seq<ChapterDetails>)
    requires multiset(xs) == multiset(FreeChapters(mangaId, chs, now))
    ensures forall k :: 0 <= k < |xs| ==>
              exists j :: 0 <= j < |chs| && !Locked(chs[j], now) && xs[k] == ChapterOf(mangaId, chs[j])
  {
    forall k | 0 <= k < |xs|
      ensures exists j :: 0 <= j < |chs| && !Locked(chs[j], now) && xs[k] == ChapterOf(mangaId, chs[j])
    {
      assert xs[k] in multiset(xs);
      assert xs[k] in FreeChapters(mangaId, chs, now);
    }
  }

  /** `findChapters`: the `/query` request for the URI-encoded id
      `encodedMangaId`, then, on the decoded response, the post lookup, the
      `forEach` skipping locked chapters, the `sort` by number and the
      numbering. */
  method FindChapters(mangaId: string, encodedMangaId: string, data: Option<ApiResponse>, now: int)
    returns (request: Request, chapters: seq<ChapterDetails>)
    ensures request == Get(ApiUrl + "/query?searchTerm=" + encodedMangaId)
    ensures chapters == ChaptersOf(data, mangaId, now)
  {
    request := Get(ApiUrl + "/query?searchTerm=" + encodedMangaId);
    if data.None? || data.value.posts.None? {
      return request, [];
    }
    var post := FindPost(data.value.posts.value, mangaId);
    if post.None? {
      return request, [];
    }
    if post.value.chapters.None? {
      return request, [];
    }
    var chs := post.value.chapters.value;
    var list: seq<ChapterDetails> := [];
    for i := 0 to |chs|
      invariant list == FreeChapters(mangaId, chs[..i], now)
    {
      assert chs[..i + 1][..i] == chs[..i];
      var ch := chs[i];
      var isLocked := ch.isLocked || (ch.unlockAt.Some? && ch.unlockAt.value > now);
      if isLocked {
        continue;
      }
      var number := IntToString(ch.number);
      list := list + [ChapterDetails(ChapterId(mangaId, ch.slug), Api + "/series/" + mangaId + "/" + ch.slug, "الفصل " + number, number, 0)];
    }
    assert chs[..|chs|] == chs;
    var a := new ChapterDetails[|list|](k requires 0 <= k < |list| => list[k]);
    assert a[..] == list;
    Sort(a, AscendingRank);
    Reindex(a);
    chapters := a[..];
  }

  // ----------------------------------------------------------------- pages

  /** The attributes a page image URL is taken from, in order of preference. */
  const PageAttrs: seq<string> := ["src", "data-src", "data-lazy-src"]

  /** The URL made of a trimmed src: kept when it starts with "http",
      otherwise joined to the origin with one "/" and slash-collapsed. */
  function NormalisedUrl(src: string): string {
    if "http" <= src then src
    else CollapseSlashes(Joined(src))
  }

  /** The origin holds no doubled slash outside its scheme. */
  lemma CollapsedApi()
    ensures Collapsed(Api) && Api[|Api| - 1] != '/'
  {
    assert Api == "https:" + "//" + "azoramoon.com";
    CollapsedOrigin("https:", "azoramoon.com");
  }

  /** The string a relative src is joined into before the slash collapse. */
  function Joined(src: string): string {
    Api + (if "/" <= src then "" else "/") + src
  }

  /** A relative src ends up under the origin: the result starts with the
      origin and a '/'. */
  lemma NormalisedUnderOrigin(src: string)
    requires !("http" <= src)
    ensures Api + "/" <= NormalisedUrl(src)
  {
    var joined := Joined(src);
    CollapsedApi();
    var last := [Api[|Api| - 1]];
    var tail := joined[|Api|..];
    assert joined == Api + tail;
    CollapseSlashesPrefix(Api, tail);
    var c := CollapseSlashes(last + tail);
    assert |last + tail| >= 2 && (last + tail)[1] == '/';
    assert NormalisedUrl(src) == Api[..|Api| - 1] + c;
    assert c[0] == Api[|Api| - 1] && c[1] == '/';
    assert (Api + "/")[..|Api| - 1] == Api[..|Api| - 1];
  }

  /** No doubled slash is left in a normalised relative src outside the
      scheme separator. */
  lemma NormalisedCollapsed(src: string)
    requires !("http" <= src)
    ensures Collapsed(NormalisedUrl(src))
  {
    CollapseSlashesCollapses(Joined(src));
  }

  /** Normalising a relative src only adds or removes slashes: apart from
      slashes the result is the origin followed by the src. */
  lemma NormalisedKeepsText(src: string)
    requires !("http" <= src)
    ensures Without(NormalisedUrl(src), '/') == Without(Api + src, '/')
  {
    var joined := Joined(src);
    CollapseSlashesRemovesOnlySlashes(joined);
    if "/" <= src {
      assert joined == Api + src;
    } else {
      WithoutSlashBetween(Api, src);
    }
  }

  /** A page src "/img/a.png" becomes https://azoramoon.com/img/a.png. */
  lemma NormalisedExample()
    ensures NormalisedUrl("/img/a.png") == "https://azoramoon.com/img/a.png"
  {
    var s := "https://azoramoon.com/img/a.png";
    assert "/img/a.png"[0] == '/';
    assert !("http" <= "/img/a.png") && "/" <= "/img/a.png";
    assert Joined("/img/a.png") == s;
    ExampleCollapsed();
  }

  /** The URL of the example holds no doubled slash outside its scheme. */
  lemma ExampleCollapsed()
    ensures CollapseSlashes("https://azoramoon.com/img/a.png") == "https://azoramoon.com/img/a.png"
  {
    CollapsedApi();
    CollapsedAppendSegment(Api, "img");
    CollapsedAppendSegment(Api + "/" + "img", "a.png");
    assert Api + "/" + "img" + "/" + "a.png" == "https://azoramoon.com/img/a.png";
    CollapseSlashesIdentity("https://azoramoon.com/img/a.png");
  }

  /** The URL of image `img`, or `None` when it is skipped. The truthiness
      test looks at the untrimmed value. */
  function PageSource(img: Element): Option<string> {
    var raw := Preferred(Some(img), PageAttrs, false);
    if Truthy(raw) then Some(NormalisedUrl(Trim(raw.value))) else None
  }

  /** A src of spaces only passes the test, trims to "" and yields the origin
      followed by "/". */
  lemma SpacesOnlySrc(img: Element, spaces: string)
    requires spaces != [] && forall k :: 0 <= k < |spaces| ==> IsSpace(spaces[k])
    requires Preferred(Some(img), PageAttrs, false) == Some(spaces)
    ensures PageSource(img) == Some(Api + "/")
  {
    assert Trim(spaces) == [];
    assert Api + "/" + [] == Api + "/";
    CollapsedApi();
    CollapseSlashesPrefix(Api, "/");
    assert [Api[|Api| - 1]] + "/" == "m/";
    assert Api[..|Api| - 1] + "m/" == Api + "/";
  }

  function PageSources(imgs: seq<Element>): (srcs: seq<Option<string>>)
    ensures |srcs| == |imgs|
  {
    seq(|imgs|, k requires 0 <= k < |imgs| => PageSource(imgs[k]))
  }

  /** The pages of the `.comic-images-wrapper img` elements `imgs`. */
  function Pages(imgs: seq<Element>): seq<ChapterPage> {
    IndexedPages(PageSources(imgs), RefererHeaders(Api))
  }

  /** One page per image whose first truthy src, data-src or data-lazy-src
      exists, indexed by the image's position, each with the Referer
      header; an absolute src is kept as trimmed. */
  lemma PagesSpec(imgs: seq<Element>)
    ensures forall k :: 0 <= k < |Pages(imgs)| ==>
      && 0 <= Pages(imgs)[k].index < |imgs|
      && Truthy(Preferred(Some(imgs[Pages(imgs)[k].index]), PageAttrs, false))
      && Pages(imgs)[k].url == NormalisedUrl(Trim(Preferred(Some(imgs[Pages(imgs)[k].index]), PageAttrs, false).value))
      && Pages(imgs)[k].headers == RefererHeaders(Api)
    ensures forall k, l :: 0 <= k < l < |Pages(imgs)| ==> Pages(imgs)[k].index < Pages(imgs)[l].index
    ensures forall i :: 0 <= i < |imgs| ==>
      (Truthy(Preferred(Some(imgs[i]), PageAttrs, false)) <==>
       exists k :: 0 <= k < |Pages(imgs)| && Pages(imgs)[k].index == i)
  {
    var srcs := PageSources(imgs);
    var pages := Pages(imgs);
    IndexedPagesSound(srcs, RefererHeaders(Api));
    forall k | 0 <= k < |pages|
      ensures 0 <= pages[k].index < |imgs|
      ensures Truthy(Preferred(Some(imgs[pages[k].index]), PageAttrs, false))
      ensures pages[k].url == NormalisedUrl(Trim(Preferred(Some(imgs[pages[k].index]), PageAttrs, false).value))
    {
      assert srcs[pages[k].index] == PageSource(imgs[pages[k].index]);
    }
    forall i | 0 <= i < |imgs|
      ensures Truthy(Preferred(Some(imgs[i]), PageAttrs, false)) <==> exists k :: 0 <= k < |pages| && pages[k].index == i
    {
      assert srcs[i] == PageSource(imgs[i]);
      if srcs[i].Some? {
        IndexedPagesComplete(srcs, RefererHeaders(Api), i);
      }
      if exists k :: 0 <= k < |pages| && pages[k].index == i {
        var k :| 0 <= k < |pages| && pages[k].index == i;
        assert srcs[i] == Some(pages[k].url);
      }
    }
  }

  /** `${api}/series/${mangaId}/${chapterSlug}` with the halves of the id. */
  function PageUrl(chapterId: string): string {
    var (mangaId, chapterSlug) := SplitChapterId(chapterId);
    Api + "/series/" + mangaId + "/" + Interpolated(chapterSlug)
  }

  /** `findChapterPages`: the request it sends, and the `.each` loop over the
      page images `imgs` of the response. */
  method FindChapterPages(chapterId: string, imgs: seq<Element>) returns (request: Request, pages: seq<ChapterPage>)
    ensures request == Get(PageUrl(chapterId))
    ensures pages == Pages(imgs)
  {
    var (mangaId, chapterSlug) := SplitChapterId(chapterId);
    request := Get(Api + "/series/" + mangaId + "/" + Interpolated(chapterSlug));
    pages := [];
    for i := 0 to |imgs|
      invariant pages == IndexedPages(PageSources(imgs)[..i], RefererHeaders(Api))
    {
      ghost var srcs := PageSources(imgs);
      assert srcs[..i + 1][..i] == srcs[..i];
      var src := Preferred(Some(imgs[i]), PageAttrs, false);
      if Truthy(src) {
        var s := Trim(src.value);
        if !("http" <= s) {
          s := CollapseSlashes(Api + (if "/" <= s then "" else "/") + s);
        }
        pages := pages + [ChapterPage(s, i, map["Referer" := Api + "/"])];
      }
    }
    assert PageSources(imgs)[..|imgs|] == PageSources(imgs);
  }
}
