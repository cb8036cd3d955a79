/** Hand-written equivalents of the regular expressions the providers use
    (each has one capture group and is matched leftmost, as `String.match`
    does without the `g` flag), and of the global slash-collapsing
    `replace` of the azoramoon provider. */
module Patterns {
  import opened Js
  import opened Text

  datatype Pattern =
    | MangaSlug         // /\/manga\/([^/]+)\//
    | MangaChapterSlug  // /\/manga\/[^/]+\/([^/]+)\//
    | PostId            // /postid-(\d+)/
    | DataId            // /data-id="(\d+)"/
    | SeriesSlug        // /\/series\/([^/]+)/
    | SeriesChapter     // /\/series\/[^/]+\/(\d+)/

  /** Whether the capture group of the pattern is `(\d+)` rather than `([^/]+)`. */
  predicate CapturesDigits(pat: Pattern) {
    pat.PostId? || pat.DataId? || pat.SeriesChapter?
  }

  predicate LiteralAt(s: string, lit: string, p: nat) {
    p + |lit| <= |s| && s[p..p + |lit|] == lit
  }

  /** End of the maximal run of `[^/]` characters that starts at `q`. */
  function SlugEnd(s: string, q: nat): (e: nat)
    requires q <= |s|
    ensures q <= e <= |s|
    ensures forall k :: q <= k < e ==> s[k] != '/'
    ensures e < |s| ==> s[e] == '/'
    decreases |s| - q
  {
    if q < |s| && s[q] != '/' then SlugEnd(s, q + 1) else q
  }

  /** End of the maximal run of `\d` characters that starts at `q`. */
  function DigitEnd(s: string, q: nat): (e: nat)
    requires q <= |s|
    ensures q <= e <= |s|
    ensures forall k :: q <= k < e ==> IsDigit(s[k])
    ensures e < |s| ==> !IsDigit(s[e])
    decreases |s| - q
  {
    if q < |s| && IsDigit(s[q]) then DigitEnd(s, q + 1) else q
  }

  /** A capture of `([^/]+)`. */
  predicate IsSlug(x: string) {
    x != [] && '/' !in x
  }

  /** A capture of `(\d+)`. */
  predicate IsNumber(x: string) {
    x != [] && AllDigits(x)
  }

  /** Index `i` of `s` holds no digit: a greedy `\d+` ending before it is maximal. */
  predicate NoDigitAt(s: string, i: nat) {
    i < |s| ==> !IsDigit(s[i])
  }

  /** What a match of `pat` at index `p` of `s` with capture `x` reads in the
      text, stated without the matcher: the literals of the pattern around
      `x`, and the group's run of characters in full. */
  ghost predicate ReadsAt(pat: Pattern, s: string, p: nat, x: string) {
    match pat
    case MangaSlug => ReadsMangaSlug(s, p, x)
    case MangaChapterSlug => ReadsMangaChapterSlug(s, p, x)
    case PostId => ReadsPostId(s, p, x)
    case DataId => ReadsDataId(s, p, x)
    case SeriesSlug => ReadsSeriesSlug(s, p, x)
    case SeriesChapter => ReadsSeriesChapter(s, p, x)
  }

  /** `/manga/([^/]+)/` */
  predicate ReadsMangaSlug(s: string, p: nat, x: string) {
    IsSlug(x) && LiteralAt(s, "/manga/" + x + "/", p)
  }

  /** `/manga/[^/]+/([^/]+)/` */
  ghost predicate ReadsMangaChapterSlug(s: string, p: nat, x: string) {
    exists m :: MangaChapterWith(s, p, m, x)
  }

  /** `/manga/([^/]+)/([^/]+)/`, both groups named. */
  predicate MangaChapterWith(s: string, p: nat, m: string, x: string) {
    IsSlug(m) && IsSlug(x) && LiteralAt(s, "/manga/" + m + "/" + x + "/", p)
  }

  /** `postid-(\d+)` */
  predicate ReadsPostId(s: string, p: nat, x: string) {
    IsNumber(x) && LiteralAt(s, "postid-" + x, p) && NoDigitAt(s, p + 7 + |x|)
  }

  /** `data-id="(\d+)"` */
  predicate ReadsDataId(s: string, p: nat, x: string) {
    IsNumber(x) && LiteralAt(s, "data-id=\"" + x + "\"", p)
  }

  /** `/series/([^/]+)` */
  predicate ReadsSeriesSlug(s: string, p: nat, x: string) {
    IsSlug(x) && LiteralAt(s, "/series/" + x, p) && (p + 8 + |x| < |s| ==> s[p + 8 + |x|] == '/')
  }

  /** `/series/[^/]+/(\d+)` */
  ghost predicate ReadsSeriesChapter(s: string, p: nat, x: string) {
    exists m :: SeriesChapterWith(s, p, m, x)
  }

  /** `/series/([^/]+)/(\d+)`, both groups named. */
  predicate SeriesChapterWith(s: string, p: nat, m: string, x: string) {
    IsSlug(m) && IsNumber(x) && LiteralAt(s, "/series/" + m + "/" + x, p) && NoDigitAt(s, p + 9 + |m| + |x|)
  }

  /** A literal occurs at `p` in two pieces. */
  lemma LiteralAtAppend(s: string, a: string, b: string, p: nat)
    ensures LiteralAt(s, a + b, p) <==> LiteralAt(s, a, p) && LiteralAt(s, b, p + |a|)
  {
    if p + |a| + |b| <= |s| {
      assert s[p..p + |a| + |b|] == s[p..p + |a|] + s[p + |a|..p + |a| + |b|];
      if LiteralAt(s, a + b, p) {
        assert (a + b)[..|a|] == a && (a + b)[|a|..] == b;
      }
    }
  }

  /** A one-character literal. */
  lemma LiteralAtChar(s: string, c: char, i: nat)
    ensures LiteralAt(s, [c], i) <==> i < |s| && s[i] == c
  {
    if i < |s| {
      assert s[i..i + 1] == [s[i]];
    }
  }

  /** The text from `q` up to `e` read as a literal. */
  lemma LiteralAtSlice(s: string, q: nat, e: nat)
    requires q <= e <= |s|
    ensures LiteralAt(s, s[q..e], q)
  {
  }

  /** The capture of `pat` when a match starts at index `p` of `s`. Every
      quantified run is greedy and can only be followed by a character
      outside its class, so no backtracking alternative exists. */
  function MatchAt(pat: Pattern, s: string, p: nat): (r: Option<string>)
    requires p <= |s|
    ensures r.Some? ==> ReadsAt(pat, s, p, r.value)
    ensures r.Some? ==> r.value != []
    ensures r.Some? && CapturesDigits(pat) ==> AllDigits(r.value)
    ensures r.Some? && !CapturesDigits(pat) ==> '/' !in r.value
  {
    match pat
    case MangaSlug => MatchMangaSlug(s, p)
    case MangaChapterSlug => MatchMangaChapterSlug(s, p)
    case PostId => MatchPostId(s, p)
    case DataId => MatchDataId(s, p)
    case SeriesSlug => MatchSeriesSlug(s, p)
    case SeriesChapter => MatchSeriesChapter(s, p)
  }

  function MatchMangaSlug(s: string, p: nat): (r: Option<string>)
    requires p <= |s|
    ensures r.Some? ==> ReadsMangaSlug(s, p, r.value)
  {
    if !LiteralAt(s, "/manga/", p) then None
    else
      var q := p + 7;
      var e := SlugEnd(s, q);
      if q < e < |s| then
        SlugBetween(s, "/manga/", p, e);
        Some(s[q..e])
      else None
  }

  function MatchMangaChapterSlug(s: string, p: nat): (r: Option<string>)
    requires p <= |s|
    ensures r.Some? ==> ReadsMangaChapterSlug(s, p, r.value)
  {
    if !LiteralAt(s, "/manga/", p) then None
    else
      var q := p + 7;
      var e := SlugEnd(s, q);
      if !(q < e < |s|) then None
      else
        var q2 := e + 1;
        var e2 := SlugEnd(s, q2);
        if q2 < e2 < |s| then
          MangaChapterBetween(s, p, e, e2);
          Some(s[q2..e2])
        else None
  }

  function MatchPostId(s: string, p: nat): (r: Option<string>)
    requires p <= |s|
    ensures r.Some? ==> ReadsPostId(s, p, r.value)
  {
    if !LiteralAt(s, "postid-", p) then None
    else
      var q := p + 7;
      var e := DigitEnd(s, q);
      if q < e then
        LiteralAfter(s, "postid-", p, e);
        Some(s[q..e])
      else None
  }

  function MatchDataId(s: string, p: nat): (r: Option<string>)
    requires p <= |s|
    ensures r.Some? ==> ReadsDataId(s, p, r.value)
  {
    if !LiteralAt(s, "data-id=\"", p) then None
    else
      var q := p + 9;
      var e := DigitEnd(s, q);
      if q < e < |s| && s[e] == '"' then
        Between(s, "data-id=\"", '"', p, e);
        Some(s[q..e])
      else None
  }

  function MatchSeriesSlug(s: string, p: nat): (r: Option<string>)
    requires p <= |s|
    ensures r.Some? ==> ReadsSeriesSlug(s, p, r.value)
  {
    if !LiteralAt(s, "/series/", p) then None
    else
      var q := p + 8;
      var e := SlugEnd(s, q);
      if q < e then
        LiteralAfter(s, "/series/", p, e);
        Some(s[q..e])
      else None
  }

  function MatchSeriesChapter(s: string, p: nat): (r: Option<string>)
    requires p <= |s|
    ensures r.Some? ==> ReadsSeriesChapter(s, p, r.value)
  {
    if !LiteralAt(s, "/series/", p) then None
    else
      var q := p + 8;
      var e := SlugEnd(s, q);
      if !(q < e < |s|) then None
      else
        var q2 := e + 1;
        var e2 := DigitEnd(s, q2);
        if q2 < e2 then
          SeriesChapterBetween(s, p, e, e2);
          Some(s[q2..e2])
        else None
  }

  /** The literal `lit` at `p`, then the text up to `e`. */
  lemma LiteralAfter(s: string, lit: string, p: nat, e: nat)
    requires LiteralAt(s, lit, p) && p + |lit| <= e <= |s|
    ensures LiteralAt(s, lit + s[p + |lit|..e], p)
  {
    LiteralAtAppend(s, lit, s[p + |lit|..e], p);
  }

  /** The literal `lit` at `p`, then the text up to `e`, then the character `c` at `e`. */
  lemma Between(s: string, lit: string, c: char, p: nat, e: nat)
    requires LiteralAt(s, lit, p) && p + |lit| <= e < |s| && s[e] == c
    ensures LiteralAt(s, lit + s[p + |lit|..e] + [c], p)
  {
    LiteralAfter(s, lit, p, e);
    LiteralAtChar(s, c, e);
    LiteralAtAppend(s, lit + s[p + |lit|..e], [c], p);
  }

  lemma SlugBetween(s: string, lit: string, p: nat, e: nat)
    requires LiteralAt(s, lit, p) && p + |lit| <= e < |s| && s[e] == '/'
    ensures LiteralAt(s, lit + s[p + |lit|..e] + "/", p)
  {
    Between(s, lit, '/', p, e);
  }

  lemma MangaChapterBetween(s: string, p: nat, e: nat, e2: nat)
    requires LiteralAt(s, "/manga/", p) && p + 7 < e < e2 - 1 && e2 < |s|
    requires e == SlugEnd(s, p + 7) && e2 == SlugEnd(s, e + 1)
    ensures ReadsMangaChapterSlug(s, p, s[e + 1..e2])
  {
    var m, x := s[p + 7..e], s[e + 1..e2];
    SlugBetween(s, "/manga/", p, e);
    LiteralAtSlice(s, e + 1, e2);
    LiteralAtAppend(s, "/manga/" + m + "/", x, p);
    LiteralAtChar(s, '/', e2);
    LiteralAtAppend(s, "/manga/" + m + "/" + x, "/", p);
    assert MangaChapterWith(s, p, m, x);
  }

  lemma SeriesChapterBetween(s: string, p: nat, e: nat, e2: nat)
    requires LiteralAt(s, "/series/", p) && p + 8 < e < e2 - 1 && e2 <= |s|
    requires e == SlugEnd(s, p + 8) && e2 == DigitEnd(s, e + 1)
    ensures ReadsSeriesChapter(s, p, s[e + 1..e2])
  {
    var m, x := s[p + 8..e], s[e + 1..e2];
    SlugBetween(s, "/series/", p, e);
    LiteralAtSlice(s, e + 1, e2);
    LiteralAtAppend(s, "/series/" + m + "/", x, p);
    assert p + 9 + |m| + |x| == e2;
    assert IsNumber(x) by {
      forall k | 0 <= k < |x| ensures IsDigit(x[k]) {
        assert x[k] == s[e + 1 + k];
      }
    }
    assert SeriesChapterWith(s, p, m, x);
  }

  /** The capture of the leftmost match of `pat` starting at or after `p`. */
  function SearchFrom(pat: Pattern, s: string, p: nat): (r: Option<string>)
    requires p <= |s|
    ensures r.Some? ==> r.value != []
    ensures r.Some? && CapturesDigits(pat) ==> AllDigits(r.value)
    ensures r.Some? && !CapturesDigits(pat) ==> '/' !in r.value
    decreases |s| - p
  {
    var m := MatchAt(pat, s, p);
    if m.Some? || p == |s| then m else SearchFrom(pat, s, p + 1)
  }

  /** `s.match(pat)?.[1]`. */
  function Exec(pat: Pattern, s: string): Option<string> {
    SearchFrom(pat, s, 0)
  }

  lemma {:induction false} SearchFromLeftmost(pat: Pattern, s: string, from: nat, p: nat)
    requires from <= p <= |s|
    requires MatchAt(pat, s, p).Some?
    requires forall q :: from <= q < p ==> MatchAt(pat, s, q).None?
    ensures SearchFrom(pat, s, from) == MatchAt(pat, s, p)
    decreases p - from
  {
    if from < p {
      SearchFromLeftmost(pat, s, from + 1, p);
    }
  }

  lemma {:induction false} SearchFromNone(pat: Pattern, s: string, from: nat)
    requires from <= |s|
    ensures SearchFrom(pat, s, from).None? <==>
            forall q :: from <= q <= |s| ==> MatchAt(pat, s, q).None?
    decreases |s| - from
  {
    var m := MatchAt(pat, s, from);
    if from < |s| {
      SearchFromNone(pat, s, from + 1);
      assert SearchFrom(pat, s, from) == if m.Some? then m else SearchFrom(pat, s, from + 1);
      if m.None? && SearchFrom(pat, s, from + 1).None? {
        forall q | from <= q <= |s| ensures MatchAt(pat, s, q).None? {
          if q > from {
            assert from + 1 <= q;
          }
        }
      }
    } else {
      assert SearchFrom(pat, s, from) == m;
    }
  }

  /** `Exec` yields the capture of the leftmost match. */
  lemma ExecLeftmost(pat: Pattern, s: string, p: nat)
    requires p <= |s|
    requires MatchAt(pat, s, p).Some?
    requires forall q :: 0 <= q < p ==> MatchAt(pat, s, q).None?
    ensures Exec(pat, s) == MatchAt(pat, s, p)
  {
    SearchFromLeftmost(pat, s, 0, p);
  }

  /** `Exec` fails exactly when no index starts a match, that is when
      nowhere in the text reads the pattern. */
  lemma ExecNone(pat: Pattern, s: string)
    ensures Exec(pat, s).None? <==> forall q :: 0 <= q <= |s| ==> MatchAt(pat, s, q).None?
    ensures Exec(pat, s).None? <==> forall q, y :: 0 <= q <= |s| ==> !ReadsAt(pat, s, q, y)
  {
    SearchFromNone(pat, s, 0);
    if Exec(pat, s).Some? {
      var p := ExecFound(pat, s);
    } else {
      forall q, y | 0 <= q <= |s| && ReadsAt(pat, s, q, y) ensures false {
        MatchAtComplete(pat, s, q, y);
      }
    }
  }

  /** The index where the leftmost match starts, when there is one. */
  lemma {:induction false} SearchFromFound(pat: Pattern, s: string, from: nat) returns (p: nat)
    requires from <= |s| && SearchFrom(pat, s, from).Some?
    ensures from <= p <= |s| && MatchAt(pat, s, p) == SearchFrom(pat, s, from)
    ensures forall q :: from <= q < p ==> MatchAt(pat, s, q).None?
    decreases |s| - from
  {
    var m := MatchAt(pat, s, from);
    if m.Some? || from == |s| {
      p := from;
    } else {
      assert SearchFrom(pat, s, from) == SearchFrom(pat, s, from + 1);
      p := SearchFromFound(pat, s, from + 1);
      forall q | from <= q < p ensures MatchAt(pat, s, q).None? {
        if q == from {
          assert m.None?;
        }
      }
    }
  }

  /** What `Exec` captures, in terms of the text: the group of the leftmost
      place that reads the pattern. */
  lemma ExecFound(pat: Pattern, s: string) returns (p: nat)
    requires Exec(pat, s).Some?
    ensures p <= |s| && ReadsAt(pat, s, p, Exec(pat, s).value)
    ensures forall q, y :: 0 <= q < p ==> !ReadsAt(pat, s, q, y)
  {
    p := SearchFromFound(pat, s, 0);
    forall q, y | 0 <= q < p && ReadsAt(pat, s, q, y) ensures false {
      MatchAtComplete(pat, s, q, y);
    }
  }

  lemma {:induction false} SlugEndAt(s: string, q: nat, x: string)
    requires q + |x| <= |s| && s[q..q + |x|] == x && '/' !in x
    requires q + |x| < |s| ==> s[q + |x|] == '/'
    ensures SlugEnd(s, q) == q + |x|
    decreases |x|
  {
    if x != [] {
      assert s[q] == x[0];
      assert s[q + 1..q + 1 + |x[1..]|] == x[1..];
      SlugEndAt(s, q + 1, x[1..]);
    }
  }

  lemma {:induction false} DigitEndAt(s: string, q: nat, x: string)
    requires q + |x| <= |s| && s[q..q + |x|] == x && AllDigits(x)
    requires q + |x| < |s| ==> !IsDigit(s[q + |x|])
    ensures DigitEnd(s, q) == q + |x|
    decreases |x|
  {
    if x != [] {
      assert s[q] == x[0];
      assert s[q + 1..q + 1 + |x[1..]|] == x[1..];
      DigitEndAt(s, q + 1, x[1..]);
    }
  }

  /** What `ReadsAt` describes is what the matcher finds: with the soundness
      clause of `MatchAt`, a match at `p` captures `x` exactly when the text
      reads the pattern there with `x` in its group. */
  lemma MatchAtComplete(pat: Pattern, s: string, p: nat, x: string)
    requires p <= |s| && ReadsAt(pat, s, p, x)
    ensures MatchAt(pat, s, p) == Some(x)
  {
    match pat
    case MangaSlug => MangaSlugComplete(s, p, x);
    case MangaChapterSlug => MangaChapterSlugComplete(s, p, x);
    case PostId => PostIdComplete(s, p, x);
    case DataId => DataIdComplete(s, p, x);
    case SeriesSlug => SeriesSlugComplete(s, p, x);
    case SeriesChapter => SeriesChapterComplete(s, p, x);
  }

  lemma MangaSlugComplete(s: string, p: nat, x: string)
    requires p <= |s| && ReadsMangaSlug(s, p, x)
    ensures MatchMangaSlug(s, p) == Some(x)
  {
    LiteralAtAppend(s, "/manga/" + x, "/", p);
    LiteralAtAppend(s, "/manga/", x, p);
    LiteralAtChar(s, '/', p + 7 + |x|);
    SlugEndAt(s, p + 7, x);
  }

  lemma MangaChapterSlugComplete(s: string, p: nat, x: string)
    requires p <= |s| && ReadsMangaChapterSlug(s, p, x)
    ensures MatchMangaChapterSlug(s, p) == Some(x)
  {
    var m :| MangaChapterWith(s, p, m, x);
    MangaChapterWithComplete(s, p, m, x);
  }

  lemma MangaChapterWithComplete(s: string, p: nat, m: string, x: string)
    requires MangaChapterWith(s, p, m, x)
    ensures MatchMangaChapterSlug(s, p) == Some(x)
  {
    var e := p + 7 + |m|;
    MangaChapterPieces(s, p, m, x);
    SlugEndAt(s, p + 7, m);
    SlugEndAt(s, e + 1, x);
    MangaChapterSlugUnfold(s, p, e, e + 1 + |x|, x);
  }

  /** The pieces `/manga/<m>/<x>/` consists of, read at their indices. */
  lemma MangaChapterPieces(s: string, p: nat, m: string, x: string)
    requires LiteralAt(s, "/manga/" + m + "/" + x + "/", p)
    ensures LiteralAt(s, "/manga/", p)
    ensures var e := p + 7 + |m|;
            e + 1 + |x| < |s| && s[e] == '/' && s[e + 1 + |x|] == '/'
            && s[p + 7..e] == m && s[e + 1..e + 1 + |x|] == x
  {
    LiteralAtAppend(s, "/manga/" + m + "/" + x, "/", p);
    LiteralAtAppend(s, "/manga/" + m + "/", x, p);
    LiteralAtAppend(s, "/manga/" + m, "/", p);
    LiteralAtAppend(s, "/manga/", m, p);
    LiteralAtChar(s, '/', p + 7 + |m|);
    LiteralAtChar(s, '/', p + 8 + |m| + |x|);
  }

  /** `MatchMangaChapterSlug` once both ends are known. */
  lemma MangaChapterSlugUnfold(s: string, p: nat, e: nat, e2: nat, x: string)
    requires LiteralAt(s, "/manga/", p) && p + 7 < e && e + 1 < e2 < |s|
    requires SlugEnd(s, p + 7) == e && SlugEnd(s, e + 1) == e2 && s[e + 1..e2] == x
    ensures MatchMangaChapterSlug(s, p) == Some(x)
  {
  }

  lemma PostIdComplete(s: string, p: nat, x: string)
    requires p <= |s| && ReadsPostId(s, p, x)
    ensures MatchPostId(s, p) == Some(x)
  {
    LiteralAtAppend(s, "postid-", x, p);
    DigitEndAt(s, p + 7, x);
  }

  lemma DataIdComplete(s: string, p: nat, x: string)
    requires p <= |s| && ReadsDataId(s, p, x)
    ensures MatchDataId(s, p) == Some(x)
  {
    LiteralAtAppend(s, "data-id=\"" + x, "\"", p);
    LiteralAtAppend(s, "data-id=\"", x, p);
    LiteralAtChar(s, '"', p + 9 + |x|);
    DigitEndAt(s, p + 9, x);
  }

  lemma SeriesSlugComplete(s: string, p: nat, x: string)
    requires p <= |s| && ReadsSeriesSlug(s, p, x)
    ensures MatchSeriesSlug(s, p) == Some(x)
  {
    LiteralAtAppend(s, "/series/", x, p);
    SlugEndAt(s, p + 8, x);
  }

  lemma SeriesChapterComplete(s: string, p: nat, x: string)
    requires p <= |s| && ReadsSeriesChapter(s, p, x)
    ensures MatchSeriesChapter(s, p) == Some(x)
  {
    var m :| SeriesChapterWith(s, p, m, x);
    SeriesChapterWithComplete(s, p, m, x);
  }

  lemma SeriesChapterWithComplete(s: string, p: nat, m: string, x: string)
    requires SeriesChapterWith(s, p, m, x)
    ensures MatchSeriesChapter(s, p) == Some(x)
  {
    var e := p + 8 + |m|;
    SeriesChapterPieces(s, p, m, x);
    SlugEndAt(s, p + 8, m);
    DigitEndAt(s, e + 1, x);
    SeriesChapterUnfold(s, p, e, e + 1 + |x|, x);
  }

  /** `MatchSeriesChapter` once both ends are known. */
  lemma SeriesChapterUnfold(s: string, p: nat, e: nat, e2: nat, x: string)
    requires LiteralAt(s, "/series/", p) && p + 8 < e < |s| && e + 1 < e2 <= |s|
    requires SlugEnd(s, p + 8) == e && DigitEnd(s, e + 1) == e2 && s[e + 1..e2] == x
    ensures MatchSeriesChapter(s, p) == Some(x)
  {
  }

  /** The pieces `/series/<m>/<x>` consists of, read at their indices. */
  lemma SeriesChapterPieces(s: string, p: nat, m: string, x: string)
    requires LiteralAt(s, "/series/" + m + "/" + x, p)
    ensures LiteralAt(s, "/series/", p)
    ensures var e := p + 8 + |m|;
            e + 1 + |x| <= |s| && s[e] == '/' && s[p + 8..e] == m && s[e + 1..e + 1 + |x|] == x
  {
    LiteralAtAppend(s, "/series/" + m + "/", x, p);
    LiteralAtAppend(s, "/series/" + m, "/", p);
    LiteralAtAppend(s, "/series/", m, p);
    LiteralAtChar(s, '/', p + 8 + |m|);
  }

  /** An href of the shape `<pre>/manga/<x>/<post>` matches there with capture `x`. */
  lemma MangaSlugAt(pre: string, x: string, post: string)
    requires x != [] && '/' !in x
    ensures MatchAt(MangaSlug, pre + "/manga/" + x + "/" + post, |pre|) == Some(x)
  {
    var s := pre + "/manga/" + x + "/" + post;
    assert s[|pre|..|pre| + 7] == "/manga/";
    assert s[|pre| + 7..|pre| + 7 + |x|] == x;
    SlugEndAt(s, |pre| + 7, x);
  }

  /** An href of the shape `<pre>/manga/<m>/<x>/<post>` matches there with capture `x`. */
  lemma MangaChapterSlugAt(pre: string, m: string, x: string, post: string)
    requires m != [] && '/' !in m && x != [] && '/' !in x
    ensures MatchAt(MangaChapterSlug, pre + "/manga/" + m + "/" + x + "/" + post, |pre|) == Some(x)
  {
    var lit := "/manga/" + m + "/" + x + "/";
    var s := pre + "/manga/" + m + "/" + x + "/" + post;
    assert s == pre + lit + post;
    assert s[|pre|..|pre| + |lit|] == lit;
    MangaChapterWithComplete(s, |pre|, m, x);
  }

  /** An href of the shape `<pre>/series/<x><post>`, `post` empty or starting
      with '/', matches there with capture `x`: no trailing slash is needed. */
  lemma SeriesSlugAt(pre: string, x: string, post: string)
    requires x != [] && '/' !in x
    requires post == [] || post[0] == '/'
    ensures MatchAt(SeriesSlug, pre + "/series/" + x + post, |pre|) == Some(x)
  {
    var s := pre + "/series/" + x + post;
    var q := |pre| + 8;
    assert s[|pre|..q] == "/series/";
    assert s[q..q + |x|] == x;
    if q + |x| < |s| {
      assert s[q + |x|] == post[0];
    }
    SlugEndAt(s, q, x);
  }

  /** An href of the shape `<pre>/series/<m>/<n><post>` with `post` not starting
      with a digit matches there with capture `n`. */
  lemma SeriesChapterAt(pre: string, m: string, n: string, post: string)
    requires m != [] && '/' !in m && n != [] && AllDigits(n)
    requires post == [] || !IsDigit(post[0])
    ensures MatchAt(SeriesChapter, pre + "/series/" + m + "/" + n + post, |pre|) == Some(n)
  {
    var lit := "/series/" + m + "/" + n;
    var s := pre + "/series/" + m + "/" + n + post;
    assert s == pre + lit + post;
    assert s[|pre|..|pre| + |lit|] == lit;
    if |pre| + |lit| < |s| {
      assert s[|pre| + |lit|] == post[0];
    }
    SeriesChapterWithComplete(s, |pre|, m, n);
  }

  /** End of the run of '/' that starts at `q`. */
  function SlashEnd(s: string, q: nat): (e: nat)
    requires q <= |s|
    ensures q <= e <= |s|
    ensures forall k :: q <= k < e ==> s[k] == '/'
    ensures e < |s| ==> s[e] != '/'
    decreases |s| - q
  {
    if q < |s| && s[q] == '/' then SlashEnd(s, q + 1) else q
  }

  /** `s.replace(/([^:]\/)\/+/g, "$1")`: scanning left to right, a character
      other than ':' followed by two or more slashes keeps one slash. */
  function CollapseSlashes(s: string): (r: string)
    ensures |r| <= |s|
    ensures |s| < 2 ==> r == s
    ensures |s| >= 2 ==> |r| >= 2 && r[0] == s[0] && r[1] == s[1]
    decreases |s|
  {
    if |s| < 3 then s
    else if s[0] != ':' && s[1] == '/' && s[2] == '/' then
      s[..2] + CollapseSlashes(s[SlashEnd(s, 2)..])
    else
      [s[0]] + CollapseSlashes(s[1..])
  }

  /** No index starts a match of `([^:]\/)\/+`. */
  predicate Collapsed(s: string) {
    forall i :: 0 <= i < |s| - 2 ==> !(s[i] != ':' && s[i + 1] == '/' && s[i + 2] == '/')
  }

  /** An origin `<scheme>//<host>` has its only doubled slash after the ':'. */
  lemma CollapsedOrigin(scheme: string, host: string)
    requires |scheme| > 0 && scheme[|scheme| - 1] == ':' && '/' !in scheme
    requires '/' !in host
    ensures Collapsed(scheme + "//" + host)
  {
    var s := scheme + "//" + host;
    var n := |scheme|;
    forall i | 0 <= i < |s| - 2 ensures !(s[i] != ':' && s[i + 1] == '/' && s[i + 2] == '/') {
      if i + 1 < n {
        assert s[i + 1] == scheme[i + 1];
      } else if i + 1 == n {
        assert s[i] == scheme[n - 1];
      } else if i + 1 > n + 1 {
        assert s[i + 1] == host[i + 1 - n - 2];
      }
    }
  }

  /** Appending `/<segment>` to a string that does not end in '/' keeps it
      collapsed. */
  lemma CollapsedAppendSegment(s: string, segment: string)
    requires Collapsed(s) && |s| > 0 && s[|s| - 1] != '/'
    requires segment != [] && '/' !in segment
    ensures Collapsed(s + "/" + segment)
  {
    var r := s + "/" + segment;
    var n := |s|;
    forall i | 0 <= i < |r| - 2 ensures !(r[i] != ':' && r[i + 1] == '/' && r[i + 2] == '/') {
      if i + 2 < n {
        assert r[i] == s[i] && r[i + 1] == s[i + 1] && r[i + 2] == s[i + 2];
      } else if i + 2 == n {
        assert r[i + 1] == s[n - 1];
      } else if i + 1 == n {
        assert r[i + 2] == segment[0];
      } else {
        assert r[i + 1] == segment[i + 1 - n - 1];
      }
    }
  }

  /** A prefix `w` in which no match starts is copied unchanged, all but its
      last character, whose match test looks into `t`. */
  lemma {:induction false} CollapseSlashesPrefix(w: string, t: string)
    requires |w| >= 1 && Collapsed(w)
    requires |w| >= 2 ==> w[|w| - 1] != '/'
    ensures CollapseSlashes(w + t) == w[..|w| - 1] + CollapseSlashes([w[|w| - 1]] + t)
    decreases |w|
  {
    var s := w + t;
    if |w| >= 2 {
      if |s| < 3 {
        assert w == [w[0], w[1]] && t == [];
      } else {
        assert s[0] == w[0] && s[1] == w[1] && s[2] == (w[1..] + t)[1];
        assert !(s[0] != ':' && s[1] == '/' && s[2] == '/');
        assert s[1..] == w[1..] + t;
        assert Collapsed(w[1..]) by {
          forall i | 0 <= i < |w[1..]| - 2
            ensures !(w[1..][i] != ':' && w[1..][i + 1] == '/' && w[1..][i + 2] == '/')
          {
            assert w[1..][i] == w[i + 1] && w[1..][i + 1] == w[i + 2] && w[1..][i + 2] == w[i + 3];
          }
        }
        CollapseSlashesPrefix(w[1..], t);
        assert w[1..][..|w| - 2] == w[1..|w| - 1];
        assert w[..|w| - 1] == [w[0]] + w[1..|w| - 1];
      }
    } else {
      assert [w[0]] + t == s;
    }
  }

  /** After the replacement no run of two or more slashes remains, except
      right after a ':' (the scheme separator) or at the very start. */
  lemma {:induction false} CollapseSlashesCollapses(s: string)
    ensures Collapsed(CollapseSlashes(s))
    decreases |s|
  {
    if |s| >= 3 {
      var r := CollapseSlashes(s);
      if s[0] != ':' && s[1] == '/' && s[2] == '/' {
        var u := s[SlashEnd(s, 2)..];
        var t := CollapseSlashes(u);
        CollapseSlashesCollapses(u);
        assert r == s[..2] + t;
        assert t == [] || t[0] != '/';
        forall i | 0 <= i < |r| - 2
          ensures !(r[i] != ':' && r[i + 1] == '/' && r[i + 2] == '/')
        {
          if i >= 2 {
            assert r[i] == t[i - 2] && r[i + 1] == t[i - 1] && r[i + 2] == t[i];
          } else {
            assert r[2] == t[0];
          }
        }
      } else {
        var t := CollapseSlashes(s[1..]);
        CollapseSlashesCollapses(s[1..]);
        assert r == [s[0]] + t;
        forall i | 0 <= i < |r| - 2
          ensures !(r[i] != ':' && r[i + 1] == '/' && r[i + 2] == '/')
        {
          if i >= 1 {
            assert r[i] == t[i - 1] && r[i + 1] == t[i] && r[i + 2] == t[i + 1];
          }
        }
      }
    }
  }

  /** A string with nothing to collapse is left unchanged. */
  lemma {:induction false} CollapseSlashesIdentity(s: string)
    requires Collapsed(s)
    ensures CollapseSlashes(s) == s
    decreases |s|
  {
    if |s| >= 3 {
      assert !(s[0] != ':' && s[1] == '/' && s[2] == '/');
      assert Collapsed(s[1..]) by {
        forall i | 0 <= i < |s[1..]| - 2
          ensures !(s[1..][i] != ':' && s[1..][i + 1] == '/' && s[1..][i + 2] == '/')
        {
          assert s[1..][i] == s[i + 1] && s[1..][i + 1] == s[i + 2] && s[1..][i + 2] == s[i + 3];
        }
      }
      CollapseSlashesIdentity(s[1..]);
      assert s == [s[0]] + s[1..];
    }
  }

  /** Collapsing twice is collapsing once. */
  lemma CollapseSlashesIdempotent(s: string)
    ensures CollapseSlashes(CollapseSlashes(s)) == CollapseSlashes(s)
  {
    CollapseSlashesCollapses(s);
    CollapseSlashesIdentity(CollapseSlashes(s));
  }

  /** `s` with every occurrence of `c` removed. */
  function Without(s: string, c: char): string {
    if s == [] then "" else (if s[0] == c then "" else [s[0]]) + Without(s[1..], c)
  }

  lemma {:induction false} WithoutAppend(a: string, b: string, c: char)
    ensures Without(a + b, c) == Without(a, c) + Without(b, c)
  {
    if a == [] {
      assert a + b == b;
    } else {
      assert (a + b)[0] == a[0];
      assert (a + b)[1..] == a[1..] + b;
      WithoutAppend(a[1..], b, c);
    }
  }

  lemma {:induction false} WithoutAll(s: string, c: char)
    requires forall k :: 0 <= k < |s| ==> s[k] == c
    ensures Without(s, c) == ""
  {
    if s != [] {
      WithoutAll(s[1..], c);
    }
  }

  /** Dropping a '/' between two strings is invisible once slashes are removed. */
  lemma WithoutSlashBetween(a: string, b: string)
    ensures Without(a + "/" + b, '/') == Without(a + b, '/')
  {
    assert a + "/" + b == a + ("/" + b);
    WithoutAppend(a, "/" + b, '/');
    WithoutAppend("/", b, '/');
    WithoutAppend(a, b, '/');
    WithoutAll("/", '/');
  }

  /** Dropping a run of slashes after `head`, and replacing the rest by a
      string with the same non-slash characters, leaves those unchanged. */
  lemma WithoutRun(head: string, run: string, u: string, cu: string)
    requires forall k :: 0 <= k < |run| ==> run[k] == '/'
    requires Without(cu, '/') == Without(u, '/')
    ensures Without(head + cu, '/') == Without(head + (run + u), '/')
  {
    var w := Without(head, '/');
    WithoutAppend(run, u, '/');
    WithoutAll(run, '/');
    assert Without(run + u, '/') == Without(u, '/');
    WithoutAppend(head, run + u, '/');
    WithoutAppend(head, cu, '/');
    assert Without(head + cu, '/') == w + Without(u, '/');
  }

  /** The replacement removes slashes only: every other character survives, in order. */
  lemma {:induction false} CollapseSlashesRemovesOnlySlashes(s: string)
    ensures Without(CollapseSlashes(s), '/') == Without(s, '/')
    decreases |s|
  {
    if |s| >= 3 {
      if s[0] != ':' && s[1] == '/' && s[2] == '/' {
        var e := SlashEnd(s, 2);
        var run := s[2..e];
        CollapseSlashesRemovesOnlySlashes(s[e..]);
        assert s == s[..2] + (run + s[e..]);
        assert forall k :: 0 <= k < |run| ==> run[k] == s[2 + k];
        WithoutRun(s[..2], run, s[e..], CollapseSlashes(s[e..]));
      } else {
        CollapseSlashesRemovesOnlySlashes(s[1..]);
        assert s == [s[0]] + s[1..];
        WithoutRun([s[0]], "", s[1..], CollapseSlashes(s[1..]));
      }
    }
  }

  /** `s` with every run of '/' cut down to one '/'. */
  function Squash(s: string): (r: string)
    ensures |r| <= |s|
    decreases |s|
  {
    if |s| < 2 then s
    else if s[0] == '/' && s[1] == '/' then Squash(s[1..])
    else [s[0]] + Squash(s[1..])
  }

  /** `CollapseSlashes` only shortens runs of '/', and never removes one
      whole: cutting every run down to one '/' gives the same text before
      and after it. */
  lemma {:induction false} CollapseSlashesSquash(s: string)
    ensures Squash(CollapseSlashes(s)) == Squash(s)
    decreases |s|
  {
    if |s| >= 3 {
      if s[0] != ':' && s[1] == '/' && s[2] == '/' {
        var e := SlashEnd(s, 2);
        var u := s[e..];
        CollapseSlashesSquash(u);
        CollapseRunShape(s, e);
        CutTwice(s, e);
        SquashRun(s[0], s[1..e], u, CollapseSlashes(u));
      } else {
        CollapseSlashesSquash(s[1..]);
        assert s == [s[0]] + s[1..];
        SquashCons(s[0], s[1..], CollapseSlashes(s[1..]));
      }
    }
  }

  /** `CollapseSlashes` on a run of two or more '/' after index 0 keeps the
      first character and one '/'. */
  lemma CollapseRunShape(s: string, e: nat)
    requires |s| >= 3 && s[0] != ':' && s[1] == '/' && s[2] == '/'
    requires e == SlashEnd(s, 2)
    ensures CollapseSlashes(s) == [s[0]] + ("/" + CollapseSlashes(s[e..]))
  {
    var c := CollapseSlashes(s[e..]);
    assert s[..2] == [s[0]] + "/";
    assert ([s[0]] + "/") + c == [s[0]] + ("/" + c);
  }

  /** `s` cut after its first character and again at `e`. */
  lemma CutTwice(s: string, e: nat)
    requires 1 <= e <= |s|
    ensures s == [s[0]] + (s[1..e] + s[e..])
  {
    assert s[1..] == s[1..e] + s[e..];
  }

  /** A run of '/' after a character squashes like the single '/' that
      `CollapseSlashes` keeps in its place. */
  lemma SquashRun(c: char, run: string, u: string, v: string)
    requires |run| >= 1 && forall k :: 0 <= k < |run| ==> run[k] == '/'
    requires Squash(v) == Squash(u) && (u == [] <==> v == []) && (u != [] ==> u[0] == v[0])
    ensures Squash([c] + (run + u)) == Squash([c] + ("/" + v))
  {
    SquashSlashes(run, u);
    SquashCons('/', u, v);
    SquashCons(c, run + u, "/" + v);
  }

  /** `Squash` after a first character depends only on what `Squash` makes
      of the rest and on the rest's first character. */
  lemma SquashCons(c: char, t: string, t': string)
    requires Squash(t) == Squash(t')
    requires t == [] <==> t' == []
    requires t != [] ==> t[0] == t'[0]
    ensures Squash([c] + t) == Squash([c] + t')
  {
    assert ([c] + t)[1..] == t;
    assert ([c] + t')[1..] == t';
  }

  /** A run of '/' squashes like a single '/'. */
  lemma {:induction false} SquashSlashes(t: string, u: string)
    requires |t| >= 1 && forall k :: 0 <= k < |t| ==> t[k] == '/'
    ensures Squash(t + u) == Squash("/" + u)
    decreases |t|
  {
    if |t| > 1 {
      assert (t + u)[1..] == t[1..] + u;
      SquashSlashes(t[1..], u);
    } else {
      assert t == "/";
    }
  }
}
