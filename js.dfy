/** JavaScript value semantics that the providers rely on: `undefined`
    versus a string, string truthiness, and chains of the `||` operator. */
module Js {

  /** A value that may be `undefined` (a missing attribute or JSON field). */
  datatype Option<+T> = None | Some(value: T)

  /** A JavaScript string value is truthy iff it is defined and non-empty. */
  predicate Truthy(v: Option<string>) {
    v.Some? && v.value != ""
  }

  /** A value interpolated into a template literal: `${v}`. */
  function Interpolated(v: Option<string>): string {
    if v.Some? then v.value else "undefined"
  }

  /** The value of `v[0] || v[1] || ... || v[n-1]`: the first truthy operand,
      or the last operand when none is truthy. */
  function OrChain(v: seq<Option<string>>): (r: Option<string>)
    requires |v| > 0
    ensures r in v
    ensures Truthy(r) <==> exists k :: 0 <= k < |v| && Truthy(v[k])
    ensures !Truthy(r) ==> r == v[|v| - 1]
  {
    if |v| == 1 || Truthy(v[0]) then v[0] else OrChain(v[1..])
  }

  /** Index of the operand that `OrChain` yields when some operand is truthy. */
  function FirstTruthy(v: seq<Option<string>>): (k: nat)
    requires exists j :: 0 <= j < |v| && Truthy(v[j])
    ensures k < |v| && Truthy(v[k])
    ensures forall j :: 0 <= j < k ==> !Truthy(v[j])
  {
    if Truthy(v[0]) then 0 else 1 + FirstTruthy(v[1..])
  }

  /** When some operand is truthy, the chain yields exactly the first truthy one. */
  lemma {:induction false} OrChainPicksFirstTruthy(v: seq<Option<string>>)
    requires exists j :: 0 <= j < |v| && Truthy(v[j])
    ensures OrChain(v) == v[FirstTruthy(v)]
  {
    if !Truthy(v[0]) {
      assert exists j :: 0 <= j < |v[1..]| && Truthy(v[1..][j]) by {
        var j :| 0 <= j < |v| && Truthy(v[j]);
        assert j > 0 && Truthy(v[1..][j - 1]);
      }
      OrChainPicksFirstTruthy(v[1..]);
    }
  }

  /** The defined values of `xs`, in order: what a loop that pushes only
      when a step yields a value collects. */
  function Present<T(==, !new)>(xs: seq<Option<T>>): (r: seq<T>)
    ensures |r| <= |xs|
    ensures forall y :: y in r <==> Some(y) in xs
  {
    if xs == [] then []
    else
      var init := xs[..|xs| - 1];
      assert xs == init + [xs[|xs| - 1]];
      Present(init) + (if xs[|xs| - 1].Some? then [xs[|xs| - 1].value] else [])
  }

  lemma PresentSnoc<T(!new)>(xs: seq<Option<T>>, x: Option<T>)
    ensures Present(xs + [x]) == Present(xs) + (if x.Some? then [x.value] else [])
  {
    assert (xs + [x])[..|xs|] == xs;
  }

  /** One step of a loop that collects the present values of `xs`. */
  lemma PresentStep<T(!new)>(xs: seq<Option<T>>, i: nat, acc: seq<T>)
    requires i < |xs| && acc == Present(xs[..i])
    ensures Present(xs[..i + 1]) == acc + if xs[i].Some? then [xs[i].value] else []
  {
    assert xs[..i + 1] == xs[..i] + [xs[i]];
    PresentSnoc(xs[..i], xs[i]);
  }

  /** The values of two present options, in order. */
  lemma PresentPair<T(!new)>(x: Option<T>, y: Option<T>)
    requires x.Some? && y.Some?
    ensures Present([x, y]) == [x.value, y.value]
  {
    PresentSnoc([], x);
    assert [] + [x] == [x];
    PresentSnoc([x], y);
    assert [x] + [y] == [x, y];
  }
}
