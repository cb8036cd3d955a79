/** The final pass over a chapter list: in-place `reverse()`, in-place
    stable `sort` by chapter number, and the `forEach` that sets every
    chapter's `index` to its position. */
module Ordering {
  import opened Text
  import opened Records

  /** `cs` with every chapter's index set to its position. */
  function Reindexed(cs: seq<ChapterDetails>): seq<ChapterDetails> {
    seq(|cs|, i requires 0 <= i < |cs| => cs[i].(index := i))
  }

  predicate DenselyIndexed(cs: seq<ChapterDetails>) {
    forall i :: 0 <= i < |cs| ==> cs[i].index == i
  }

  /** `chapters.forEach((chapter, index) => { chapter.index = index })`. */
  method Reindex(a: array<ChapterDetails>)
    modifies a
    ensures a[..] == Reindexed(old(a[..]))
  {
    for i := 0 to a.Length
      invariant forall k :: 0 <= k < i ==> a[k] == old(a[k]).(index := k)
      invariant forall k :: i <= k < a.Length ==> a[k] == old(a[k])
    {
      a[i] := a[i].(index := i);
    }
  }

  /** `cs` with every index back at the 0 that chapters are created with. */
  function Cleared(cs: seq<ChapterDetails>): seq<ChapterDetails> {
    seq(|cs|, i requires 0 <= i < |cs| => cs[i].(index := 0))
  }

  function Reversed<T>(s: seq<T>): seq<T> {
    if s == [] then [] else [s[|s| - 1]] + Reversed(s[..|s| - 1])
  }

  lemma {:induction false} ReversedAt<T>(s: seq<T>)
    ensures |Reversed(s)| == |s|
    ensures forall k :: 0 <= k < |s| ==> Reversed(s)[k] == s[|s| - 1 - k]
  {
    if s != [] {
      ReversedAt(s[..|s| - 1]);
    }
  }

  lemma {:induction false} ReversedMultiset<T>(s: seq<T>)
    ensures multiset(Reversed(s)) == multiset(s)
  {
    if s != [] {
      ReversedMultiset(s[..|s| - 1]);
      assert s == s[..|s| - 1] + [s[|s| - 1]];
    }
  }

  /** Reversing twice gives the list back. */
  lemma ReversedTwice<T>(s: seq<T>)
    ensures Reversed(Reversed(s)) == s
  {
    ReversedAt(s);
    ReversedAt(Reversed(s));
  }

  /** `chapters.reverse()`. */
  method Reverse(a: array<ChapterDetails>)
    modifies a
    ensures a[..] == Reversed(old(a[..]))
  {
    ghost var s := a[..];
    var lo, hi := 0, a.Length;
    while lo + 1 < hi
      invariant 0 <= lo <= hi <= a.Length && lo + hi == a.Length
      invariant forall k :: 0 <= k < lo ==> a[k] == s[a.Length - 1 - k]
      invariant forall k :: hi <= k < a.Length ==> a[k] == s[a.Length - 1 - k]
      invariant forall k :: lo <= k < hi ==> a[k] == s[k]
    {
      a[lo], a[hi - 1] := a[hi - 1], a[lo];
      lo, hi := lo + 1, hi - 1;
    }
    ghost var t := a[..];
    assert forall k :: 0 <= k < lo ==> t[k] == s[|s| - 1 - k];
    assert forall k :: hi <= k < |s| ==> t[k] == s[|s| - 1 - k];
    assert forall k :: lo <= k < hi ==> t[k] == s[k];
    SwappedIsReversed(t, s, lo, hi);
  }

  /** The array when the two ends of `Reverse` have met: reversed. */
  lemma SwappedIsReversed<T>(t: seq<T>, s: seq<T>, lo: nat, hi: nat)
    requires |t| == |s| && lo <= hi && lo + hi == |s| && hi <= lo + 1
    requires forall k :: 0 <= k < lo ==> t[k] == s[|s| - 1 - k]
    requires forall k :: hi <= k < |s| ==> t[k] == s[|s| - 1 - k]
    requires forall k :: lo <= k < hi ==> t[k] == s[k]
    ensures t == Reversed(s)
  {
    ReversedAt(s);
    forall k | 0 <= k < |t| ensures t[k] == Reversed(s)[k] {
      if lo <= k < hi {
        assert k == |s| - 1 - k;
      }
    }
  }

  /** The number a chapter is sorted by: `parseFloat`/`parseInt` of its
      text. Chapter texts are integers in both providers that sort. */
  function Key(c: ChapterDetails): int {
    var s := c.chapter;
    if AllDigits(s) || (|s| > 0 && s[0] == '-' && AllDigits(s[1..])) then ParseNumber(s) else 0
  }

  /** What a sort orders ascending by: the key for the comparator
      `(a, b) => key(a) - key(b)`, its negation for `(a, b) => key(b) - key(a)`. */
  function AscendingRank(c: ChapterDetails): int { Key(c) }
  function DescendingRank(c: ChapterDetails): int { -Key(c) }

  predicate InOrder(s: seq<ChapterDetails>, rank: ChapterDetails -> int) {
    forall i, j :: 0 <= i < j < |s| ==> rank(s[i]) <= rank(s[j])
  }

  /** `x` placed after every element of `s` whose rank is at most its own. */
  function Insert(s: seq<ChapterDetails>, x: ChapterDetails, rank: ChapterDetails -> int): seq<ChapterDetails> {
    if s == [] || rank(s[|s| - 1]) <= rank(x) then s + [x]
    else Insert(s[..|s| - 1], x, rank) + [s[|s| - 1]]
  }

  /** A stable sort ascending by `rank`: equal ranks keep their order, as in
      `Array.prototype.sort`. */
  function Sorted(s: seq<ChapterDetails>, rank: ChapterDetails -> int): seq<ChapterDetails> {
    if s == [] then [] else Insert(Sorted(s[..|s| - 1], rank), s[|s| - 1], rank)
  }

  lemma {:induction false} InsertAt(s: seq<ChapterDetails>, x: ChapterDetails, rank: ChapterDetails -> int, j: nat)
    requires j <= |s|
    requires j > 0 ==> rank(s[j - 1]) <= rank(x)
    requires forall k :: j <= k < |s| ==> rank(s[k]) > rank(x)
    ensures Insert(s, x, rank) == s[..j] + [x] + s[j..]
  {
    if j < |s| {
      var init := s[..|s| - 1];
      InsertAt(init, x, rank, j);
      assert init[..j] == s[..j];
      assert s[j..] == init[j..] + [s[|s| - 1]];
    }
  }

  lemma {:induction false} InsertMultiset(s: seq<ChapterDetails>, x: ChapterDetails, rank: ChapterDetails -> int)
    ensures multiset(Insert(s, x, rank)) == multiset(s) + multiset{x}
  {
    if !(s == [] || rank(s[|s| - 1]) <= rank(x)) {
      InsertMultiset(s[..|s| - 1], x, rank);
      assert s == s[..|s| - 1] + [s[|s| - 1]];
    }
  }

  predicate AtMost(s: seq<ChapterDetails>, rank: ChapterDetails -> int, bound: int) {
    forall k :: 0 <= k < |s| ==> rank(s[k]) <= bound
  }

  lemma {:induction false} InsertAtMost(s: seq<ChapterDetails>, x: ChapterDetails, rank: ChapterDetails -> int, bound: int)
    requires AtMost(s, rank, bound) && rank(x) <= bound
    ensures AtMost(Insert(s, x, rank), rank, bound)
  {
    if !(s == [] || rank(s[|s| - 1]) <= rank(x)) {
      InsertAtMost(s[..|s| - 1], x, rank, bound);
    }
  }

  lemma {:induction false} InsertInOrder(s: seq<ChapterDetails>, x: ChapterDetails, rank: ChapterDetails -> int)
    requires InOrder(s, rank)
    ensures InOrder(Insert(s, x, rank), rank)
  {
    if !(s == [] || rank(s[|s| - 1]) <= rank(x)) {
      var init, last := s[..|s| - 1], s[|s| - 1];
      InsertInOrder(init, x, rank);
      InsertAtMost(init, x, rank, rank(last));
    }
  }

  /** The sort yields its input reordered by rank. */
  lemma {:induction false} SortedOrderedPermutation(s: seq<ChapterDetails>, rank: ChapterDetails -> int)
    ensures InOrder(Sorted(s, rank), rank)
    ensures multiset(Sorted(s, rank)) == multiset(s)
  {
    if s != [] {
      var init, x := s[..|s| - 1], s[|s| - 1];
      SortedOrderedPermutation(init, rank);
      assert s == init + [x];
      InsertOrderedPermutation(Sorted(init, rank), init, x, rank);
    }
  }

  /** Inserting into an ordered permutation of `p` gives one of `p + [x]`. */
  lemma InsertOrderedPermutation(t: seq<ChapterDetails>, p: seq<ChapterDetails>, x: ChapterDetails, rank: ChapterDetails -> int)
    requires InOrder(t, rank) && multiset(t) == multiset(p)
    ensures InOrder(Insert(t, x, rank), rank)
    ensures multiset(Insert(t, x, rank)) == multiset(p + [x])
  {
    InsertInOrder(t, x, rank);
    InsertMultiset(t, x, rank);
  }

  /** The elements of `s` of rank `v`, in their order in `s`. */
  function OfRank(s: seq<ChapterDetails>, rank: ChapterDetails -> int, v: int): seq<ChapterDetails> {
    if s == [] then []
    else OfRank(s[..|s| - 1], rank, v) + (if rank(s[|s| - 1]) == v then [s[|s| - 1]] else [])
  }

  lemma {:induction false} OfRankAppend(a: seq<ChapterDetails>, b: seq<ChapterDetails>, rank: ChapterDetails -> int, v: int)
    ensures OfRank(a + b, rank, v) == OfRank(a, rank, v) + OfRank(b, rank, v)
    decreases |b|
  {
    if b == [] {
      assert a + b == a;
    } else {
      OfRankAppend(a, b[..|b| - 1], rank, v);
      assert (a + b)[..|a + b| - 1] == a + b[..|b| - 1];
    }
  }

  lemma OfRankSingle(x: ChapterDetails, rank: ChapterDetails -> int, v: int)
    ensures OfRank([x], rank, v) == if rank(x) == v then [x] else []
  {
    assert [x][..0] == [];
  }

  /** Swapping two one-element pieces of different rank does not change what
      rank `v` selects. */
  lemma OfRankSwap(x: ChapterDetails, y: ChapterDetails, rank: ChapterDetails -> int, v: int)
    requires rank(x) != rank(y)
    ensures OfRank([x], rank, v) + OfRank([y], rank, v) == OfRank([y], rank, v) + OfRank([x], rank, v)
  {
    OfRankSingle(x, rank, v);
    OfRankSingle(y, rank, v);
  }

  lemma {:induction false} InsertStable(s: seq<ChapterDetails>, x: ChapterDetails, rank: ChapterDetails -> int, v: int)
    ensures OfRank(Insert(s, x, rank), rank, v) == OfRank(s, rank, v) + OfRank([x], rank, v)
  {
    if s == [] || rank(s[|s| - 1]) <= rank(x) {
      OfRankAppend(s, [x], rank, v);
    } else {
      var init, last := s[..|s| - 1], s[|s| - 1];
      var r := Insert(init, x, rank);
      assert Insert(s, x, rank) == r + [last];
      InsertStable(init, x, rank, v);
      OfRankAppend(r, [last], rank, v);
      assert s == init + [last];
      OfRankAppend(init, [last], rank, v);
      OfRankSwap(x, last, rank, v);
    }
  }

  /** The sort is stable: chapters of equal rank keep their relative order. */
  lemma {:induction false} SortedStable(s: seq<ChapterDetails>, rank: ChapterDetails -> int, v: int)
    ensures OfRank(Sorted(s, rank), rank, v) == OfRank(s, rank, v)
  {
    if s != [] {
      var init, last := s[..|s| - 1], s[|s| - 1];
      SortedStable(init, rank, v);
      InsertStable(Sorted(init, rank), last, rank, v);
      assert s == init + [last];
      OfRankAppend(init, [last], rank, v);
    }
  }

  /** Moves `a[i]` left past every element of higher rank, assuming `a[..i]`
      is the sorted prefix. */
  method InsertLast(a: array<ChapterDetails>, i: nat, rank: ChapterDetails -> int)
    requires i < a.Length
    modifies a
    ensures a[..i + 1] == Insert(old(a[..i]), old(a[i]), rank)
    ensures a[i + 1..] == old(a[i + 1..])
  {
    ghost var s := a[..];
    var x := a[i];
    var j := ShiftRight(a, i, rank);
    a[j] := x;
    ghost var t := a[..];
    assert forall k :: 0 <= k < j ==> t[k] == s[k];
    assert forall k :: j < k <= i ==> t[k] == s[k - 1];
    assert forall k :: i < k < a.Length ==> t[k] == s[k];
    ShiftedIsInsert(t, s, i, j, rank);
    assert t[i + 1..] == s[i + 1..];
  }

  /** Shifts the elements of `a[..i]` of rank above that of `a[i]` one place
      right, from the end, and returns the gap left for `a[i]`. */
  method ShiftRight(a: array<ChapterDetails>, i: nat, rank: ChapterDetails -> int) returns (j: nat)
    requires i < a.Length
    modifies a
    ensures j <= i
    ensures forall k :: 0 <= k < j ==> a[k] == old(a[k])
    ensures forall k :: j < k <= i ==> a[k] == old(a[k - 1])
    ensures forall k :: i < k < a.Length ==> a[k] == old(a[k])
    ensures j > 0 ==> rank(old(a[j - 1])) <= rank(old(a[i]))
    ensures forall k :: j <= k < i ==> rank(old(a[k])) > rank(old(a[i]))
  {
    ghost var s := a[..];
    var x := a[i];
    j := i;
    while j > 0 && rank(a[j - 1]) > rank(x)
      invariant 0 <= j <= i
      invariant forall k :: 0 <= k < j ==> a[k] == s[k]
      invariant forall k :: j < k <= i ==> a[k] == s[k - 1]
      invariant forall k :: i < k < a.Length ==> a[k] == s[k]
      invariant forall k :: j <= k < i ==> rank(s[k]) > rank(x)
    {
      a[j] := a[j - 1];
      j := j - 1;
    }
  }

  /** The array after the shifting loop of `InsertLast`, as a sequence `t`
      against the sequence `s` before it. */
  lemma ShiftedIsInsert(t: seq<ChapterDetails>, s: seq<ChapterDetails>, i: nat, j: nat, rank: ChapterDetails -> int)
    requires |t| == |s| && j <= i < |s| && t[j] == s[i]
    requires forall k :: 0 <= k < j ==> t[k] == s[k]
    requires forall k :: j < k <= i ==> t[k] == s[k - 1]
    requires j > 0 ==> rank(s[j - 1]) <= rank(s[i])
    requires forall k :: j <= k < i ==> rank(s[k]) > rank(s[i])
    ensures t[..i + 1] == Insert(s[..i], s[i], rank)
  {
    var prefix := s[..i];
    InsertAt(prefix, s[i], rank, j);
    assert t[..i + 1] == prefix[..j] + [s[i]] + prefix[j..];
  }

  /** `chapters.sort(comparator)` with a stable insertion sort. */
  method Sort(a: array<ChapterDetails>, rank: ChapterDetails -> int)
    modifies a
    ensures a[..] == Sorted(old(a[..]), rank)
  {
    ghost var input := a[..];
    for i := 0 to a.Length
      invariant a[..i] == Sorted(input[..i], rank)
      invariant a[i..] == input[i..]
    {
      assert input[..i + 1] == input[..i] + [input[i]];
      assert a[i] == input[i] && a[i + 1..] == input[i + 1..];
      InsertLast(a, i, rank);
    }
    assert input[..a.Length] == input;
  }

  /** A rank that looks at the chapter and not at its index. */
  ghost predicate IndexBlind(rank: ChapterDetails -> int) {
    forall c: ChapterDetails, i: int :: rank(c.(index := i)) == rank(c)
  }

  lemma KeyRanksIndexBlind()
    ensures IndexBlind(AscendingRank) && IndexBlind(DescendingRank)
  {
  }

  /** Sorting freshly pushed chapters and then numbering them yields a list
      in rank order, numbered 0..N-1, holding exactly the pushed chapters. */
  lemma SortedReindexed(s: seq<ChapterDetails>, rank: ChapterDetails -> int)
    requires IndexBlind(rank)
    requires forall k :: 0 <= k < |s| ==> s[k].index == 0
    ensures var out := Reindexed(Sorted(s, rank));
            && |out| == |s|
            && DenselyIndexed(out)
            && InOrder(out, rank)
            && multiset(Cleared(out)) == multiset(s)
  {
    var t := Sorted(s, rank);
    SortedOrderedPermutation(s, rank);
    assert |t| == |s| by {
      assert |multiset(t)| == |multiset(s)|;
    }
    forall i | 0 <= i < |t| ensures t[i].index == 0 {
      assert t[i] in multiset(s);
    }
    ReindexedOrdered(t, rank);
  }

  /** Numbering an ordered list of unnumbered chapters keeps it ordered and
      changes nothing but the numbers. */
  lemma ReindexedOrdered(t: seq<ChapterDetails>, rank: ChapterDetails -> int)
    requires IndexBlind(rank) && InOrder(t, rank)
    requires forall k :: 0 <= k < |t| ==> t[k].index == 0
    ensures DenselyIndexed(Reindexed(t))
    ensures InOrder(Reindexed(t), rank)
    ensures Cleared(Reindexed(t)) == t
  {
    var out := Reindexed(t);
    assert Cleared(out) == t;
    forall i, j | 0 <= i < j < |out| ensures rank(out[i]) <= rank(out[j]) {
      assert rank(out[i]) == rank(t[i]) && rank(out[j]) == rank(t[j]);
    }
  }
}
