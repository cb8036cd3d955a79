/** The records the providers read (selected DOM elements) and produce
    (search results, chapters, pages), the attribute-preference chains
    used for image URLs, and the composite chapter id. */
module Records {
  import opened Js
  import opened Text

  /** A selected DOM element: its text content and its attributes. */
  datatype Element = Element(text: string, attrs: map<string, string>)

  /** `sel.attr(name)` on a selection that may be empty (`None`): an empty
      selection and a missing attribute both give `undefined`. */
  function Attr(sel: Option<Element>, name: string): (v: Option<string>)
    ensures v.Some? <==> sel.Some? && name in sel.value.attrs
    ensures v.Some? ==> v.value == sel.value.attrs[name]
  {
    if sel.Some? && name in sel.value.attrs then Some(sel.value.attrs[name]) else None
  }

  /** `v?.trim()`. */
  function TrimmedOpt(v: Option<string>): Option<string> {
    if v.Some? then Some(Trim(v.value)) else None
  }

  /** The operands of an attribute chain, trimmed with `?.trim()` or not. */
  function Candidates(sel: Option<Element>, names: seq<string>, trim: bool): (c: seq<Option<string>>)
    ensures |c| == |names|
  {
    seq(|names|, k requires 0 <= k < |names| =>
      if trim then TrimmedOpt(Attr(sel, names[k])) else Attr(sel, names[k]))
  }

  /** `sel.attr(n0)?.trim() || sel.attr(n1)?.trim() || ...` when `trim`,
      `sel.attr(n0) || sel.attr(n1) || ...` otherwise. */
  function Preferred(sel: Option<Element>, names: seq<string>, trim: bool): (r: Option<string>)
    requires |names| > 0
    ensures Truthy(r) <==> exists k :: 0 <= k < |names| && Truthy(Candidates(sel, names, trim)[k])
    ensures !Truthy(r) ==> r == Candidates(sel, names, trim)[|names| - 1]
    ensures trim && r.Some? ==> Trim(r.value) == r.value
  {
    OrChain(Candidates(sel, names, trim))
  }

  /** The chain yields the first attribute whose (trimmed) value is
      non-empty; later attributes are never consulted. */
  lemma PreferredIsFirstNonEmpty(sel: Option<Element>, names: seq<string>, trim: bool, k: nat)
    requires k < |names|
    requires Truthy(Candidates(sel, names, trim)[k])
    requires forall j :: 0 <= j < k ==> !Truthy(Candidates(sel, names, trim)[j])
    ensures Preferred(sel, names, trim) == Candidates(sel, names, trim)[k]
  {
    var c := Candidates(sel, names, trim);
    OrChainPicksFirstTruthy(c);
    assert FirstTruthy(c) == k;
  }

  /** One item of a search page: the first title anchor inside it (`None`
      for an empty selection) and its `img` selection. */
  datatype SearchEntry = SearchEntry(anchor: Option<Element>, image: Option<Element>)

  /** One result of a search. */
  datatype SearchResult = SearchResult(id: string, title: string, image: Option<string>, synonyms: Option<seq<string>>)

  /** One chapter of a manga; `index` is its position in the final list. */
  datatype ChapterDetails = ChapterDetails(id: string, url: string, title: string, chapter: string, index: int)

  /** One image of a chapter with the headers needed to fetch it. */
  datatype ChapterPage = ChapterPage(url: string, index: int, headers: map<string, string>)

  /** A request a provider sends through its `fetch` wrapper (the wrapper's
      fixed headers are not modelled). */
  datatype Request = Get(url: string) | Post(url: string, body: Option<string>)

  /** The headers every page carries: a Referer of the site origin plus "/". */
  function RefererHeaders(api: string): map<string, string> {
    map["Referer" := api + "/"]
  }

  /** The pages a loop over the selected images pushes, `srcs[i]` being the
      URL of image `i` or `None` when the image is skipped; a page's index
      is its image's position. */
  function IndexedPages(srcs: seq<Option<string>>, headers: map<string, string>): seq<ChapterPage> {
    if srcs == [] then []
    else
      var n := |srcs| - 1;
      IndexedPages(srcs[..n], headers) + (if srcs[n].Some? then [ChapterPage(srcs[n].value, n, headers)] else [])
  }

  /** Every page comes from a kept image: its index is that image's
      position, its URL the image's source; indices strictly increase. */
  lemma {:induction false} IndexedPagesSound(srcs: seq<Option<string>>, headers: map<string, string>)
    ensures |IndexedPages(srcs, headers)| <= |srcs|
    ensures forall k :: 0 <= k < |IndexedPages(srcs, headers)| ==>
      && 0 <= IndexedPages(srcs, headers)[k].index < |srcs|
      && srcs[IndexedPages(srcs, headers)[k].index] == Some(IndexedPages(srcs, headers)[k].url)
      && IndexedPages(srcs, headers)[k].headers == headers
    ensures forall k, l :: 0 <= k < l < |IndexedPages(srcs, headers)| ==>
      IndexedPages(srcs, headers)[k].index < IndexedPages(srcs, headers)[l].index
  {
    if srcs != [] {
      var n := |srcs| - 1;
      var init := IndexedPages(srcs[..n], headers);
      IndexedPagesSound(srcs[..n], headers);
      var tail := if srcs[n].Some? then [ChapterPage(srcs[n].value, n, headers)] else [];
      var pages := IndexedPages(srcs, headers);
      assert pages == init + tail;
      forall k | 0 <= k < |pages|
        ensures 0 <= pages[k].index < |srcs| && srcs[pages[k].index] == Some(pages[k].url) && pages[k].headers == headers
      {
        if k < |init| {
          assert pages[k] == init[k];
          assert srcs[..n][init[k].index] == srcs[init[k].index];
        } else {
          assert pages[k] == tail[0];
        }
      }
      forall k, l | 0 <= k < l < |pages| ensures pages[k].index < pages[l].index {
        assert pages[k] == init[k];
        if l < |init| {
          assert pages[l] == init[l];
        } else {
          assert pages[l] == tail[0];
        }
      }
    }
  }

  /** Every kept image has a page. */
  lemma {:induction false} IndexedPagesComplete(srcs: seq<Option<string>>, headers: map<string, string>, i: nat)
    requires i < |srcs| && srcs[i].Some?
    ensures exists k :: 0 <= k < |IndexedPages(srcs, headers)| && IndexedPages(srcs, headers)[k].index == i
  {
    var n := |srcs| - 1;
    var init := IndexedPages(srcs[..n], headers);
    var pages := IndexedPages(srcs, headers);
    if i == n {
      assert pages[|init|].index == i;
    } else {
      IndexedPagesComplete(srcs[..n], headers, i);
      var k :| 0 <= k < |init| && init[k].index == i;
      assert pages[k] == init[k];
    }
  }

  const Separator: char := '$'

  /** `${mangaId}$${slug}`. */
  function ChapterId(mangaId: string, slug: string): string {
    mangaId + [Separator] + slug
  }

  /** `const [mangaId, slug] = chapterId.split("$")`: the first two pieces;
      the second is `undefined` when the id holds no separator. */
  function SplitChapterId(chapterId: string): (string, Option<string>) {
    var parts := Split(chapterId, Separator);
    (parts[0], if |parts| >= 2 then Some(parts[1]) else None)
  }

  /** The id codec round-trips whenever neither part holds the separator. */
  lemma ChapterIdRoundTrip(mangaId: string, slug: string)
    requires Separator !in mangaId && Separator !in slug
    ensures SplitChapterId(ChapterId(mangaId, slug)) == (mangaId, Some(slug))
  {
    SplitAtFirst(mangaId, Separator, slug);
  }

  /** A separator inside the slug cuts the decoded slug short at it. */
  lemma ChapterIdTruncatesSlug(mangaId: string, slug: string)
    requires Separator !in mangaId && Separator in slug
    ensures SplitChapterId(ChapterId(mangaId, slug)) == (mangaId, Some(slug[..IndexOf(slug, Separator)]))
  {
    SplitAtFirst(mangaId, Separator, slug);
  }

  /** An id without a separator decodes to itself and an undefined slug. */
  lemma SplitChapterIdWithoutSeparator(chapterId: string)
    requires Separator !in chapterId
    ensures SplitChapterId(chapterId) == (chapterId, None)
  {
  }

  /** Distinct parts without separators give distinct ids. */
  lemma ChapterIdInjective(m1: string, s1: string, m2: string, s2: string)
    requires Separator !in m1 && Separator !in s1 && Separator !in m2 && Separator !in s2
    requires ChapterId(m1, s1) == ChapterId(m2, s2)
    ensures m1 == m2 && s1 == s2
  {
    ChapterIdRoundTrip(m1, s1);
    ChapterIdRoundTrip(m2, s2);
  }
}
