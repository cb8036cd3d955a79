/** The post-fetch logic shared by the two Madara (WordPress manga theme)
    providers, lekmanga and 3asq: their search, chapter and page code is
    the same apart from the site origin `api`. Fetched documents are
    inputs: the elements a CSS selection returns, in document order. */
module Madara {
  import opened Js
  import opened Text
  import opened Patterns
  import opened Records
  import opened Ordering

  // ---------------------------------------------------------------- search

  /** The attributes an image URL is taken from, in order of preference. */
  const ImageAttrs: seq<string> := ["data-src", "data-lazy-src", "src"]

  /** What one `.c-tabs-item__content` block contributes before de-duplication: nothing without an
      anchor, without a truthy href or without a `/manga/<slug>/` in it. */
  function SearchResultOf(e: SearchEntry): (r: Option<SearchResult>)
    ensures r.Some? <==>
      e.anchor.Some? && Truthy(Attr(e.anchor, "href")) && Exec(MangaSlug, Attr(e.anchor, "href").value).Some?
    ensures r.Some? ==>
      && r.value.id == Exec(MangaSlug, Attr(e.anchor, "href").value).value
      && r.value.id != [] && '/' !in r.value.id
      && r.value.title == Trim(e.anchor.value.text)
      && r.value.image == Preferred(e.image, ImageAttrs, true)
      && r.value.synonyms.None?
  {
    if e.anchor.None? then None
    else
      var href := Attr(e.anchor, "href");
      if !Truthy(href) then None
      else
        match Exec(MangaSlug, href.value)
        case None => None
        case Some(slug) => Some(SearchResult(slug, Trim(e.anchor.value.text), Preferred(e.image, ImageAttrs, true), None))
  }

  /** The id of a result is the segment after the first `/manga/` that is
      followed by a `/`. */
  lemma SearchIdIsFirstSlug(e: SearchEntry, pre: string, slug: string, post: string)
    requires e.anchor.Some? && Attr(e.anchor, "href") == Some(pre + "/manga/" + slug + "/" + post)
    requires slug != [] && '/' !in slug
    requires forall q, y :: 0 <= q < |pre| ==> !ReadsAt(MangaSlug, pre + "/manga/" + slug + "/" + post, q, y)
    ensures SearchResultOf(e).Some? && SearchResultOf(e).value.id == slug
  {
    var href := pre + "/manga/" + slug + "/" + post;
    MangaSlugAt(pre, slug, post);
    forall q | 0 <= q < |pre| ensures MatchAt(MangaSlug, href, q).None? {
    }
    ExecLeftmost(MangaSlug, href, |pre|);
  }

  function SearchResultsOf(entries: seq<SearchEntry>): (rs: seq<Option<SearchResult>>)
    ensures |rs| == |entries|
  {
    seq(|entries|, k requires 0 <= k < |entries| => SearchResultOf(entries[k]))
  }

  function Ids(rs: seq<SearchResult>): set<string> {
    set k | 0 <= k < |rs| :: rs[k].id
  }

  /** What `Array.from(resultsMap.values())` gives when results are added
      in order and an id already in the map is skipped. */
  function Deduplicated(rs: seq<SearchResult>): seq<SearchResult> {
    if rs == [] then []
    else
      var d := Deduplicated(rs[..|rs| - 1]);
      if rs[|rs| - 1].id in Ids(d) then d else d + [rs[|rs| - 1]]
  }

  /** Position of the first result with the given id. */
  function FirstIndex(rs: seq<SearchResult>, id: string): (k: nat)
    requires id in Ids(rs)
    ensures k < |rs| && rs[k].id == id
    ensures forall j :: 0 <= j < k ==> rs[j].id != id
  {
    if rs[0].id == id then 0
    else
      assert id in Ids(rs[1..]) by {
        var j :| 0 <= j < |rs| && rs[j].id == id;
        assert rs[1..][j - 1] == rs[j];
      }
      1 + FirstIndex(rs[1..], id)
  }

  lemma IdsSnoc(p: seq<SearchResult>, x: SearchResult)
    ensures Ids(p + [x]) == Ids(p) + {x.id}
  {
    var q := p + [x];
    assert q[|p|] == x;
    forall id | id in Ids(q) ensures id in Ids(p) + {x.id} {
      var k :| 0 <= k < |q| && q[k].id == id;
      if k < |p| { assert p[k] == q[k]; }
    }
    forall id | id in Ids(p) ensures id in Ids(q) {
      var k :| 0 <= k < |p| && p[k].id == id;
      assert q[k] == p[k];
    }
  }

  lemma FirstIndexSnoc(p: seq<SearchResult>, x: SearchResult, id: string)
    requires id in Ids(p)
    ensures id in Ids(p + [x]) && FirstIndex(p + [x], id) == FirstIndex(p, id)
  {
    IdsSnoc(p, x);
    var k := FirstIndex(p, id);
    assert (p + [x])[k] == p[k];
    var k' := FirstIndex(p + [x], id);
    assert k' <= k;
    assert (p + [x])[k'] == p[k'];
  }

  lemma FirstIndexSnocOrder(p: seq<SearchResult>, x: SearchResult, a: string, b: string)
    requires a in Ids(p) && b in Ids(p) && FirstIndex(p, a) < FirstIndex(p, b)
    ensures a in Ids(p + [x]) && b in Ids(p + [x]) && FirstIndex(p + [x], a) < FirstIndex(p + [x], b)
  {
    FirstIndexSnoc(p, x, a);
    FirstIndexSnoc(p, x, b);
  }

  lemma FirstIndexLast(p: seq<SearchResult>, x: SearchResult)
    requires x.id !in Ids(p)
    ensures x.id in Ids(p + [x]) && FirstIndex(p + [x], x.id) == |p|
  {
    IdsSnoc(p, x);
    forall j | 0 <= j < |p| ensures (p + [x])[j].id != x.id {
      assert (p + [x])[j] == p[j];
      assert p[j].id in Ids(p);
    }
  }

  /** One step of de-duplication: a result whose id is already present is
      dropped, any other is appended. */
  lemma DeduplicatedSnoc(p: seq<SearchResult>, x: SearchResult)
    ensures Deduplicated(p + [x]) == if x.id in Ids(Deduplicated(p)) then Deduplicated(p) else Deduplicated(p) + [x]
  {
    assert (p + [x])[..|p|] == p;
  }

  /** One more optional result: kept when present with an id not seen yet. */
  lemma KeptStep(xs: seq<Option<SearchResult>>, i: nat, acc: seq<SearchResult>)
    requires i < |xs| && acc == Deduplicated(Present(xs[..i]))
    ensures Deduplicated(Present(xs[..i + 1])) ==
      if xs[i].Some? && xs[i].value.id !in Ids(acc) then acc + [xs[i].value] else acc
  {
    PresentStep(xs, i, Present(xs[..i]));
    if xs[i].Some? {
      DeduplicatedSnoc(Present(xs[..i]), xs[i].value);
    } else {
      assert Present(xs[..i + 1]) == Present(xs[..i]);
    }
  }

  /** De-duplication keeps exactly the ids of its input, each once. */
  lemma {:induction false} DeduplicatedIds(rs: seq<SearchResult>)
    ensures Ids(Deduplicated(rs)) == Ids(rs)
    ensures forall i, j :: 0 <= i < j < |Deduplicated(rs)| ==> Deduplicated(rs)[i].id != Deduplicated(rs)[j].id
  {
    if rs == [] {
      assert Ids(rs) == {};
    } else {
      var p, x := rs[..|rs| - 1], rs[|rs| - 1];
      assert rs == p + [x];
      DeduplicatedIds(p);
      DeduplicatedSnoc(p, x);
      IdsSnoc(p, x);
      var d := Deduplicated(p);
      var e := Deduplicated(rs);
      if x.id in Ids(d) {
        assert e == d;
      } else {
        assert e == d + [x];
        IdsSnoc(d, x);
        forall i, j | 0 <= i < j < |e| ensures e[i].id != e[j].id {
          assert e[i] == d[i];
          if j < |d| {
            assert e[j] == d[j];
          } else {
            assert e[j] == x && d[i].id in Ids(d);
          }
        }
      }
    }
  }

  /** De-duplication keeps the first result of each id. */
  lemma {:induction false} DeduplicatedFirst(rs: seq<SearchResult>)
    ensures forall k :: 0 <= k < |Deduplicated(rs)| ==>
      Deduplicated(rs)[k].id in Ids(rs) && Deduplicated(rs)[k] == rs[FirstIndex(rs, Deduplicated(rs)[k].id)]
  {
    if rs != [] {
      var p, x := rs[..|rs| - 1], rs[|rs| - 1];
      assert rs == p + [x];
      var d := Deduplicated(p);
      DeduplicatedFirst(p);
      DeduplicatedIds(p);
      DeduplicatedSnoc(p, x);
      var e := Deduplicated(rs);
      forall k | 0 <= k < |e| ensures e[k].id in Ids(rs) && e[k] == rs[FirstIndex(rs, e[k].id)] {
        if k < |d| {
          assert e[k] == d[k];
          assert d[k].id in Ids(d);
          FirstIndexSnoc(p, x, d[k].id);
          assert rs[FirstIndex(p, d[k].id)] == p[FirstIndex(p, d[k].id)];
        } else {
          assert x.id !in Ids(d) && e[k] == x;
          FirstIndexLast(p, x);
        }
      }
    }
  }

  /** De-duplication orders the results by the position of their id's
      first appearance. */
  lemma {:induction false} DeduplicatedOrder(rs: seq<SearchResult>)
    ensures forall k :: 0 <= k < |Deduplicated(rs)| ==> Deduplicated(rs)[k].id in Ids(rs)
    ensures forall i, j :: 0 <= i < j < |Deduplicated(rs)| ==>
      FirstIndex(rs, Deduplicated(rs)[i].id) < FirstIndex(rs, Deduplicated(rs)[j].id)
  {
    if rs == [] {
      assert Deduplicated(rs) == [];
    } else {
      var p, x := rs[..|rs| - 1], rs[|rs| - 1];
      assert rs == p + [x];
      DeduplicatedOrder(p);
      DeduplicatedIds(p);
      DeduplicatedSnoc(p, x);
      OrderStep(p, x, Deduplicated(p), Deduplicated(rs));
    }
  }

  /** The order is kept when one more result `x` is considered: `e` is the
      de-duplication `d` of `p`, with `x` appended when its id is new. */
  lemma OrderStep(p: seq<SearchResult>, x: SearchResult, d: seq<SearchResult>, e: seq<SearchResult>)
    requires forall k :: 0 <= k < |d| ==> d[k].id in Ids(p)
    requires forall i, j :: 0 <= i < j < |d| ==> FirstIndex(p, d[i].id) < FirstIndex(p, d[j].id)
    requires e == d || (x.id !in Ids(p) && e == d + [x])
    ensures forall k :: 0 <= k < |e| ==> e[k].id in Ids(p + [x])
    ensures forall i, j :: 0 <= i < j < |e| ==> FirstIndex(p + [x], e[i].id) < FirstIndex(p + [x], e[j].id)
  {
    IdsSnoc(p, x);
    forall k | 0 <= k < |e| ensures e[k].id in Ids(p + [x]) {
      if k < |d| {
        assert e[k] == d[k];
      } else {
        assert e[k] == x;
      }
    }
    forall i, j | 0 <= i < j < |e| ensures FirstIndex(p + [x], e[i].id) < FirstIndex(p + [x], e[j].id) {
      assert e[i] == d[i];
      if j < |d| {
        assert e[j] == d[j];
        FirstIndexSnocOrder(p, x, d[i].id, d[j].id);
      } else {
        assert e[j] == x;
        FirstIndexSnoc(p, x, d[i].id);
        FirstIndexLast(p, x);
      }
    }
  }

  /** Two blocks for the same slug give one result, the first block's. */
  lemma DuplicateSlugKeepsFirst(a: SearchResult, b: SearchResult)
    requires a.id == b.id
    ensures Deduplicated([a, b]) == [a]
  {
    assert [] + [a] == [a];
    assert Deduplicated([a]) == [a] by {
      assert Ids(Deduplicated([])) == {};
      DeduplicatedSnoc([], a);
    }
    assert b.id in Ids([a]) by {
      assert [a][0].id == b.id;
    }
    assert [a] + [b] == [a, b];
    DeduplicatedSnoc([a], b);
  }

  /** `search`: the request it sends for the already URI-encoded query,
      and the `.each` over the search blocks `entries` of the response
      filling `resultsMap`; `seen` holds the map's keys and `results` its
      values in insertion order. */
  method Search(api: string, encodedQuery: string, entries: seq<SearchEntry>) returns (request: Request, results: seq<SearchResult>)
    ensures request == Get(api + "/?s=" + encodedQuery + "&post_type=wp-manga")
    ensures results == Deduplicated(Present(SearchResultsOf(entries)))
  {
    request := Get(api + "/?s=" + encodedQuery + "&post_type=wp-manga");
    var seen: set<string> := {};
    ghost var rs := SearchResultsOf(entries);
    results := [];
    for i := 0 to |entries|
      invariant results == Deduplicated(Present(rs[..i]))
      invariant seen == Ids(results)
    {
      KeptStep(rs, i, results);
      assert rs[i] == SearchResultOf(entries[i]);
      seen, results := AddResult(entries[i], seen, results);
    }
    assert rs[..|entries|] == rs;
  }
  /** The `.each` callback of `search` for one entry: the entry's result is
      added unless there is none or its id is in `seen` already. */
  method AddResult(el: SearchEntry, seen: set<string>, results: seq<SearchResult>)
    returns (seen': set<string>, results': seq<SearchResult>)
    requires seen == Ids(results)
    ensures seen' == Ids(results')
    ensures results' ==
      if SearchResultOf(el).Some? && SearchResultOf(el).value.id !in seen then results + [SearchResultOf(el).value]
      else results
  {
    seen', results' := seen, results;
    if el.anchor.None? {
      return;
    }
    var title := Trim(el.anchor.value.text);
    var href := Attr(el.anchor, "href");
    if !Truthy(href) {
      return;
    }
    var slugMatch := Exec(MangaSlug, href.value);
    if slugMatch.None? {
      return;
    }
    var slug := slugMatch.value;
    if slug in seen {
      return;
    }
    var image := Preferred(el.image, ImageAttrs, true);
    var r := SearchResult(slug, title, image, None);
    IdsSnoc(results, r);
    seen' := seen + {slug};
    results' := results + [r];
  }


  // -------------------------------------------------------------- chapters

  /** One `.wp-manga-chapter` item: the first anchor inside it. */
  datatype ChapterEntry = ChapterEntry(link: Option<Element>)

  /** What one chapter item contributes: a chapter when its href is truthy,
      contains `mangaId` and has a `/manga/<x>/<slug>/` in it. */
  function ChapterOf(mangaId: string, e: ChapterEntry): (r: Option<ChapterDetails>)
    ensures r.Some? <==>
      && Truthy(Attr(e.link, "href"))
      && Contains(Attr(e.link, "href").value, mangaId)
      && Exec(MangaChapterSlug, Attr(e.link, "href").value).Some?
    ensures r.Some? ==>
      && Some(r.value.url) == Attr(e.link, "href")
      && Some(r.value.chapter) == Exec(MangaChapterSlug, r.value.url)
      && r.value.chapter != [] && '/' !in r.value.chapter
      && r.value.id == ChapterId(mangaId, r.value.chapter)
      && r.value.index == 0
      && r.value.title != []
      && (Trim(e.link.value.text) != [] ==> r.value.title == Trim(e.link.value.text))
      && (Trim(e.link.value.text) == [] ==> r.value.title == r.value.chapter)
  {
    var href := Attr(e.link, "href");
    if !Truthy(href) || !Contains(href.value, mangaId) then None
    else
      match Exec(MangaChapterSlug, href.value)
      case None => None
      case Some(slug) =>
        var text := Trim(e.link.value.text);
        Some(ChapterDetails(ChapterId(mangaId, slug), href.value, if text != [] then text else slug, slug, 0))
  }

  function ParsedChapters(mangaId: string, entries: seq<ChapterEntry>): (cs: seq<Option<ChapterDetails>>)
    ensures |cs| == |entries|
  {
    seq(|entries|, k requires 0 <= k < |entries| => ChapterOf(mangaId, entries[k]))
  }

  /** `parseChapters`: the chapters of the items, in document order. */
  function ChaptersOf(mangaId: string, entries: seq<ChapterEntry>): seq<ChapterDetails> {
    Present(ParsedChapters(mangaId, entries))
  }

  /** Every parsed chapter belongs to the manga: its url contains the id, its
      id is `mangaId$slug` and it is not yet indexed. */
  lemma ChaptersOfBelong(mangaId: string, entries: seq<ChapterEntry>)
    ensures forall c :: c in ChaptersOf(mangaId, entries) ==>
      && Contains(c.url, mangaId)
      && Some(c.chapter) == Exec(MangaChapterSlug, c.url)
      && c.id == ChapterId(mangaId, c.chapter)
      && c.index == 0 && c.title != []
  {
    forall c | c in ChaptersOf(mangaId, entries)
      ensures Contains(c.url, mangaId) && c.id == ChapterId(mangaId, c.chapter)
    {
      var cs := ParsedChapters(mangaId, entries);
      assert Some(c) in cs;
      var k :| 0 <= k < |cs| && cs[k] == Some(c);
      assert ChapterOf(mangaId, entries[k]) == Some(c);
    }
  }

  /** The `.each` loop of `parseChapters` pushing one chapter per valid item. */
  method ParseChapters(mangaId: string, entries: seq<ChapterEntry>) returns (chapters: seq<ChapterDetails>)
    ensures chapters == ChaptersOf(mangaId, entries)
  {
    ghost var cs := ParsedChapters(mangaId, entries);
    chapters := [];
    for i := 0 to |entries|
      invariant chapters == Present(cs[..i])
    {
      PresentStep(cs, i, chapters);
      assert cs[i] == ChapterOf(mangaId, entries[i]);
      chapters := AddChapter(mangaId, entries[i], chapters);
    }
    assert cs[..|entries|] == cs;
  }
  /** The `.each` callback of `parseChapters` for one entry: its chapter is
      pushed when the entry has one. */
  method AddChapter(mangaId: string, e: ChapterEntry, chapters: seq<ChapterDetails>) returns (chapters': seq<ChapterDetails>)
    ensures chapters' == chapters + if ChapterOf(mangaId, e).Some? then [ChapterOf(mangaId, e).value] else []
  {
    chapters' := chapters;
    var a := e.link;
    var href := Attr(a, "href");
    if !Truthy(href) {
      return;
    }
    if !Contains(href.value, mangaId) {
      return;
    }
    var slugMatch := Exec(MangaChapterSlug, href.value);
    if slugMatch.None? {
      return;
    }
    var chapterSlug := slugMatch.value;
    var title := Trim(a.value.text);
    if title == [] {
      title := chapterSlug;
    }
    chapters' := chapters + [ChapterDetails(ChapterId(mangaId, chapterSlug), href.value, title, chapterSlug, 0)];
  }


  /** `html.match(/postid-(\d+)/) || html.match(/data-id="(\d+)"/)`, capture 1. */
  function FindPostId(html: string): (r: Option<string>)
    ensures r.Some? ==> r.value != [] && AllDigits(r.value)
    ensures Exec(PostId, html).Some? ==> r == Exec(PostId, html)
    ensures Exec(PostId, html).None? ==> r == Exec(DataId, html)
  {
    var m := Exec(PostId, html);
    if m.Some? then m else Exec(DataId, html)
  }

  /** The test applied to the `admin-ajax.php` response body. */
  predicate AjaxAccepted(body: string) {
    |body| > 5 && body != "0"
  }

  /** The `!== "0"` test never decides: a body of length above 5 is not "0". */
  lemma AjaxAcceptedIsLength(body: string)
    ensures AjaxAccepted(body) <==> |body| > 5
  {
  }

  /** Where the chapter list comes from. */
  datatype ChapterSource = ServerRendered | StandardAjax(postId: string) | DirectAjax(postId: string) | NoPostId

  /** The documents `findChapters` may fetch, as the selections it makes in
      them: the manga page (its raw text and its chapter items), the
      `admin-ajax.php` response (raw text and items) and the
      `/ajax/chapters/` response's items. A response is used only on the
      branch that fetches it. */
  datatype ChapterResponses = ChapterResponses(
    html: string, page: seq<ChapterEntry>,
    ajaxBody: string, ajaxItems: seq<ChapterEntry>,
    directItems: seq<ChapterEntry>)

  function SourceOf(mangaId: string, r: ChapterResponses): ChapterSource {
    if |ChaptersOf(mangaId, r.page)| > 0 then ServerRendered
    else
      match FindPostId(r.html)
      case None => NoPostId
      case Some(id) => if AjaxAccepted(r.ajaxBody) then StandardAjax(id) else DirectAjax(id)
  }

  /** The chapters parsed from the chosen source, before the final reversal. */
  function Collected(mangaId: string, r: ChapterResponses): seq<ChapterDetails> {
    match SourceOf(mangaId, r)
    case ServerRendered => ChaptersOf(mangaId, r.page)
    case StandardAjax(_) => ChaptersOf(mangaId, r.ajaxItems)
    case DirectAjax(_) => ChaptersOf(mangaId, r.directItems)
    case NoPostId => []
  }

  /** The requests `findChapters` sends, in order: the manga page, then,
      only on the branches that need them, the `admin-ajax.php` call with
      the post id and the direct `/ajax/chapters/` call. */
  function ChapterRequests(api: string, mangaId: string, r: ChapterResponses): seq<Request> {
    var page := Get(api + "/manga/" + mangaId + "/");
    match SourceOf(mangaId, r)
    case ServerRendered => [page]
    case NoPostId => [page]
    case StandardAjax(id) => [page, AjaxRequest(api, id)]
    case DirectAjax(id) => [page, AjaxRequest(api, id), Post(api + "/manga/" + mangaId + "/ajax/chapters/", None)]
  }

  function AjaxRequest(api: string, postId: string): Request {
    Post(api + "/wp-admin/admin-ajax.php", Some("action=manga_get_chapters&manga=" + postId))
  }

  /** AJAX is called only when the manga page yields no chapter and holds a
      post id, and the direct call follows only a body of at most 5
      characters. */
  lemma FallbackRequests(api: string, mangaId: string, r: ChapterResponses)
    ensures var rs := ChapterRequests(api, mangaId, r);
            && 1 <= |rs| <= 3
            && rs[0] == Get(api + "/manga/" + mangaId + "/")
            && (|rs| > 1 <==> |ChaptersOf(mangaId, r.page)| == 0 && FindPostId(r.html).Some?)
            && (|rs| > 1 ==> rs[1] == AjaxRequest(api, FindPostId(r.html).value))
            && (|rs| > 2 <==> |ChaptersOf(mangaId, r.page)| == 0 && FindPostId(r.html).Some? && |r.ajaxBody| <= 5)
  {
    AjaxAcceptedIsLength(r.ajaxBody);
  }

  /** The fallback order: server-rendered chapters when there are any; else,
      with a post id, the standard AJAX body when longer than 5 characters
      (even if it parses to nothing) and the direct AJAX body otherwise;
      else nothing. */
  lemma FallbackRules(mangaId: string, r: ChapterResponses)
    ensures |ChaptersOf(mangaId, r.page)| > 0 ==> Collected(mangaId, r) == ChaptersOf(mangaId, r.page)
    ensures |ChaptersOf(mangaId, r.page)| == 0 && FindPostId(r.html).None? ==> Collected(mangaId, r) == []
    ensures |ChaptersOf(mangaId, r.page)| == 0 && FindPostId(r.html).Some? && |r.ajaxBody| > 5 ==>
      Collected(mangaId, r) == ChaptersOf(mangaId, r.ajaxItems)
    ensures |ChaptersOf(mangaId, r.page)| == 0 && FindPostId(r.html).Some? && |r.ajaxBody| <= 5 ==>
      Collected(mangaId, r) == ChaptersOf(mangaId, r.directItems)
  {
    AjaxAcceptedIsLength(r.ajaxBody);
  }

  /** `findChapters`: the requests it sends, the fallback between the
      responses, `reverse()` and the `forEach` that numbers the chapters. */
  method FindChapters(api: string, mangaId: string, r: ChapterResponses) returns (requests: seq<Request>, chapters: seq<ChapterDetails>)
    ensures requests == ChapterRequests(api, mangaId, r)
    ensures chapters == Reindexed(Reversed(Collected(mangaId, r)))
  {
    requests, chapters := CollectChapters(api, mangaId, r);
    var a := new ChapterDetails[|chapters|](k requires 0 <= k < |chapters| => chapters[k]);
    assert a[..] == chapters;
    Reverse(a);
    Reindex(a);
    chapters := a[..];
  }

  /** The fallback chain of `findChapters`: the manga page, then the
      `admin-ajax.php` call when the page has no chapter and a post id, then
      the direct call when the AJAX body is too short. */
  method CollectChapters(api: string, mangaId: string, r: ChapterResponses) returns (requests: seq<Request>, chapters: seq<ChapterDetails>)
    ensures requests == ChapterRequests(api, mangaId, r)
    ensures chapters == Collected(mangaId, r)
  {
    requests := [Get(api + "/manga/" + mangaId + "/")];
    chapters := ParseChapters(mangaId, r.page);
    if |chapters| == 0 {
      var postIdMatch := FindPostId(r.html);
      if postIdMatch.Some? {
        var postId := postIdMatch.value;
        requests := requests + [Post(api + "/wp-admin/admin-ajax.php", Some("action=manga_get_chapters&manga=" + postId))];
        if |r.ajaxBody| > 5 && r.ajaxBody != "0" {
          chapters := ParseChapters(mangaId, r.ajaxItems);
        } else {
          requests := requests + [Post(api + "/manga/" + mangaId + "/ajax/chapters/", None)];
          chapters := ParseChapters(mangaId, r.directItems);
        }
      }
    }
  }

  /** The final list is the collected list backwards, numbered 0..N-1. */
  lemma FindChaptersOrder(mangaId: string, r: ChapterResponses)
    ensures var cs := Collected(mangaId, r);
            var out := Reindexed(Reversed(cs));
            |out| == |cs| && DenselyIndexed(out)
            && forall i :: 0 <= i < |out| ==> out[i] == cs[|cs| - 1 - i].(index := i)
  {
    ReversedAt(Collected(mangaId, r));
  }

  // ----------------------------------------------------------------- pages

  /** The URL of image `img`, or `None` when its preferred src is empty or
      undefined and the image is skipped. */
  function PageSource(img: Element): (src: Option<string>)
    ensures src.Some? <==> Truthy(Preferred(Some(img), ImageAttrs, true))
    ensures src.Some? ==> src == Preferred(Some(img), ImageAttrs, true)
  {
    var src := Preferred(Some(img), ImageAttrs, true);
    if Truthy(src) then src else None
  }

  function PageSources(imgs: seq<Element>): (srcs: seq<Option<string>>)
    ensures |srcs| == |imgs|
  {
    seq(|imgs|, k requires 0 <= k < |imgs| => PageSource(imgs[k]))
  }

  /** The pages of the `.wp-manga-chapter-img` elements `imgs`. */
  function Pages(api: string, imgs: seq<Element>): seq<ChapterPage> {
    IndexedPages(PageSources(imgs), RefererHeaders(api))
  }

  /** One page per image with a non-empty preferred src, indexed by the
      image's position, in increasing order, each with the Referer header. */
  lemma PagesSpec(api: string, imgs: seq<Element>)
    ensures forall k :: 0 <= k < |Pages(api, imgs)| ==>
      && 0 <= Pages(api, imgs)[k].index < |imgs|
      && Pages(api, imgs)[k].url != []
      && Some(Pages(api, imgs)[k].url) == Preferred(Some(imgs[Pages(api, imgs)[k].index]), ImageAttrs, true)
      && Pages(api, imgs)[k].headers == RefererHeaders(api)
    ensures forall k, l :: 0 <= k < l < |Pages(api, imgs)| ==> Pages(api, imgs)[k].index < Pages(api, imgs)[l].index
    ensures forall i :: 0 <= i < |imgs| ==>
      (Truthy(Preferred(Some(imgs[i]), ImageAttrs, true)) <==>
       exists k :: 0 <= k < |Pages(api, imgs)| && Pages(api, imgs)[k].index == i)
  {
    var srcs := PageSources(imgs);
    var pages := Pages(api, imgs);
    IndexedPagesSound(srcs, RefererHeaders(api));
    forall k | 0 <= k < |pages|
      ensures 0 <= pages[k].index < |imgs| && pages[k].url != []
      ensures Some(pages[k].url) == Preferred(Some(imgs[pages[k].index]), ImageAttrs, true)
    {
      assert srcs[pages[k].index] == PageSource(imgs[pages[k].index]);
    }
    forall i | 0 <= i < |imgs|
      ensures Truthy(Preferred(Some(imgs[i]), ImageAttrs, true)) <==> exists k :: 0 <= k < |pages| && pages[k].index == i
    {
      assert srcs[i] == PageSource(imgs[i]);
      if srcs[i].Some? {
        IndexedPagesComplete(srcs, RefererHeaders(api), i);
      }
      if exists k :: 0 <= k < |pages| && pages[k].index == i {
        var k :| 0 <= k < |pages| && pages[k].index == i;
        assert srcs[i] == Some(pages[k].url);
      }
    }
  }

  /** The chapter page URL: `${api}/manga/${mangaId}/${chapterSlug}/` with the
      two halves of the chapter id. */
  function PageUrl(api: string, chapterId: string): string {
    var (mangaId, chapterSlug) := SplitChapterId(chapterId);
    api + "/manga/" + mangaId + "/" + Interpolated(chapterSlug) + "/"
  }

  /** A chapter id made by `parseChapters` leads back to the chapter's page. */
  lemma PageUrlOfChapterId(api: string, mangaId: string, slug: string)
    requires Separator !in mangaId && Separator !in slug
    ensures PageUrl(api, ChapterId(mangaId, slug)) == api + "/manga/" + mangaId + "/" + slug + "/"
  {
    ChapterIdRoundTrip(mangaId, slug);
  }

  /** An id without "$" yields the path segment "undefined". */
  lemma PageUrlWithoutSeparator(api: string, chapterId: string)
    requires Separator !in chapterId
    ensures PageUrl(api, chapterId) == api + "/manga/" + chapterId + "/undefined/"
  {
    SplitChapterIdWithoutSeparator(chapterId);
  }

  /** `findChapterPages`: the request it sends, and the `.each` loop over the
      page images `imgs` of the response. */
  method FindChapterPages(api: string, chapterId: string, imgs: seq<Element>) returns (request: Request, pages: seq<ChapterPage>)
    ensures request == Get(PageUrl(api, chapterId))
    ensures pages == Pages(api, imgs)
  {
    var (mangaId, chapterSlug) := SplitChapterId(chapterId);
    request := Get(api + "/manga/" + mangaId + "/" + Interpolated(chapterSlug) + "/");
    pages := [];
    for i := 0 to |imgs|
      invariant pages == IndexedPages(PageSources(imgs)[..i], RefererHeaders(api))
    {
      ghost var srcs := PageSources(imgs);
      assert srcs[..i + 1][..i] == srcs[..i];
      var src := Preferred(Some(imgs[i]), ImageAttrs, true);
      if Truthy(src) {
        pages := pages + [ChapterPage(src.value, i, map["Referer" := api + "/"])];
      }
    }
    assert PageSources(imgs)[..|imgs|] == PageSources(imgs);
  }
}
