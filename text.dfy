/** The JavaScript string built-ins the providers call: `trim`, `includes`,
    `startsWith`, `split`, `Number.prototype.toString` and the integer
    part of `parseInt`/`parseFloat`. Strings are sequences of Unicode
    scalar values. */
module Text {

  /** The characters JavaScript's `trim` removes and the regex class `\s`
      matches (WhiteSpace and LineTerminator of ECMA-262). */
  predicate IsSpace(c: char) {
    c == '\t' || c == '\n' || c == '\U{B}' || c == '\U{C}' || c == '\r' || c == ' '
    || c == '\U{A0}' || c == '\U{1680}' || ('\U{2000}' <= c <= '\U{200A}')
    || c == '\U{2028}' || c == '\U{2029}' || c == '\U{202F}' || c == '\U{205F}'
    || c == '\U{3000}' || c == '\U{FEFF}'
  }

  predicate NoSpace(s: string) {
    forall k :: 0 <= k < |s| ==> !IsSpace(s[k])
  }

  /** Length of the run of spaces that starts `s`. */
  function SpacePrefix(s: string): (n: nat)
    ensures n <= |s|
    ensures forall k :: 0 <= k < n ==> IsSpace(s[k])
    ensures n < |s| ==> !IsSpace(s[n])
  {
    if |s| > 0 && IsSpace(s[0]) then 1 + SpacePrefix(s[1..]) else 0
  }

  /** Length of the run of spaces that ends `s`. */
  function SpaceSuffix(s: string): (n: nat)
    ensures n <= |s|
    ensures forall k :: |s| - n <= k < |s| ==> IsSpace(s[k])
    ensures n < |s| ==> !IsSpace(s[|s| - n - 1])
  {
    if |s| > 0 && IsSpace(s[|s| - 1]) then 1 + SpaceSuffix(s[..|s| - 1]) else 0
  }

  /** Everything of `s` outside `s[a..b]` is a space. */
  predicate SpacesOutside(s: string, a: nat, b: nat) {
    && a <= b <= |s|
    && (forall k :: 0 <= k < a ==> IsSpace(s[k]))
    && (forall k :: b <= k < |s| ==> IsSpace(s[k]))
  }

  /** `s.trim()`: the piece of `s` left once the spaces at both ends are
      cut, which starts and ends with a non-space. */
  function Trim(s: string): (r: string)
    ensures |r| <= |s|
    ensures exists a: nat, b: nat :: SpacesOutside(s, a, b) && r == s[a..b]
    ensures r != [] ==> !IsSpace(r[0]) && !IsSpace(r[|r| - 1])
    ensures r == [] <==> forall k :: 0 <= k < |s| ==> IsSpace(s[k])
    ensures s == [] || (!IsSpace(s[0]) && !IsSpace(s[|s| - 1])) ==> r == s
  {
    var a := SpacePrefix(s);
    var t := s[a..];
    TrimCuts(s, a, t);
    t[..|t| - SpaceSuffix(t)]
  }

  /** The ends `Trim` cuts are runs of spaces. */
  lemma TrimCuts(s: string, a: nat, t: string)
    requires a == SpacePrefix(s) && t == s[a..]
    ensures SpacesOutside(s, a, a + |t| - SpaceSuffix(t))
    ensures t[..|t| - SpaceSuffix(t)] == s[a..a + |t| - SpaceSuffix(t)]
  {
    var b := a + |t| - SpaceSuffix(t);
    assert forall k :: b <= k < |s| ==> s[k] == t[k - a];
  }

  /** `s.trim()` is a contiguous piece of `s`. */
  lemma TrimIsPiece(s: string)
    ensures Contains(s, Trim(s))
  {
    var a := SpacePrefix(s);
    var t := s[a..];
    var b := |t| - SpaceSuffix(t);
    assert OccursAt(s, Trim(s), a) by {
      assert s[a..a + b] == t[..b];
    }
    OccursIffContains(s, Trim(s), a);
  }

  /** `t` occurs in `s` starting at index `i`. */
  ghost predicate OccursAt(s: string, t: string, i: int) {
    0 <= i && i + |t| <= |s| && s[i..i + |t|] == t
  }

  /** `s.includes(t)`. */
  predicate Contains(s: string, t: string)
    decreases |s|
  {
    t <= s || (|s| > 0 && Contains(s[1..], t))
  }

  /** `Contains` holds exactly when `t` occurs at some index of `s`. */
  lemma {:induction false} OccursIffContains(s: string, t: string, i: int)
    ensures OccursAt(s, t, i) ==> Contains(s, t)
    ensures Contains(s, t) ==> exists j :: OccursAt(s, t, j)
    decreases |s|
  {
    if OccursAt(s, t, i) && i > 0 {
      assert OccursAt(s[1..], t, i - 1) by {
        assert s[1..][i - 1..i - 1 + |t|] == s[i..i + |t|];
      }
      OccursIffContains(s[1..], t, i - 1);
    }
    if Contains(s, t) {
      if t <= s {
        assert OccursAt(s, t, 0);
      } else {
        OccursIffContains(s[1..], t, 0);
        var j :| OccursAt(s[1..], t, j);
        assert s[1..][j..j + |t|] == s[j + 1..j + 1 + |t|];
        assert OccursAt(s, t, j + 1);
      }
    }
  }

  /** A string contains each of its concatenated pieces. */
  lemma ContainsMiddle(a: string, t: string, b: string)
    ensures Contains(a + t + b, t)
  {
    assert (a + t + b)[|a|..|a| + |t|] == t;
    OccursIffContains(a + t + b, t, |a|);
  }

  /** Index of the first `c` in `s`. */
  function IndexOf(s: string, c: char): (i: nat)
    requires c in s
    ensures i < |s| && s[i] == c && c !in s[..i]
  {
    if s[0] == c then 0 else 1 + IndexOf(s[1..], c)
  }

  /** `s.split(sep)` for a one-character separator. */
  function Split(s: string, sep: char): (parts: seq<string>)
    ensures |parts| >= 1
    ensures forall k :: 0 <= k < |parts| ==> sep !in parts[k]
    decreases |s|
  {
    if sep in s then
      var i := IndexOf(s, sep);
      [s[..i]] + Split(s[i + 1..], sep)
    else
      [s]
  }

  /** `parts.join(sep)`. */
  function Join(parts: seq<string>, sep: char): string
    requires |parts| >= 1
  {
    if |parts| == 1 then parts[0] else parts[0] + [sep] + Join(parts[1..], sep)
  }

  /** Splitting loses nothing: joining the pieces back gives the string. */
  lemma {:induction false} JoinSplit(s: string, sep: char)
    ensures Join(Split(s, sep), sep) == s
    decreases |s|
  {
    if sep in s {
      var i := IndexOf(s, sep);
      var first, rest := s[..i], s[i + 1..];
      var parts := Split(s, sep);
      assert parts == [first] + Split(rest, sep);
      assert parts[0] == first && parts[1..] == Split(rest, sep);
      assert Join(parts, sep) == first + [sep] + Join(Split(rest, sep), sep);
      JoinSplit(rest, sep);
      assert s == first + [sep] + rest;
    } else {
      assert Split(s, sep) == [s];
    }
  }

  /** The first piece ends at the first separator. */
  lemma SplitAtFirst(a: string, sep: char, b: string)
    requires sep !in a
    ensures Split(a + [sep] + b, sep) == [a] + Split(b, sep)
  {
    var s := a + [sep] + b;
    assert s[|a|] == sep;
    var i := IndexOf(s, sep);
    assert s[..i] == a;
    assert s[i + 1..] == b;
  }

  /** Length of the run of non-space characters that starts `s`. */
  function WordPrefix(s: string): (n: nat)
    ensures n <= |s|
    ensures forall k :: 0 <= k < n ==> !IsSpace(s[k])
    ensures n < |s| ==> IsSpace(s[n])
  {
    if |s| > 0 && !IsSpace(s[0]) then 1 + WordPrefix(s[1..]) else 0
  }

  /** `s.split(/[\s\t]+/)`: the pieces between maximal runs of spaces; a
      leading or trailing run yields an empty first or last piece. */
  function SplitSpaces(s: string): (parts: seq<string>)
    ensures |parts| >= 1
    ensures forall k :: 0 <= k < |parts| ==> NoSpace(parts[k])
    ensures NoSpace(s) ==> parts == [s]
    decreases |s|
  {
    var w := WordPrefix(s);
    if w == |s| then [s]
    else
      var rest := s[w..];
      [s[..w]] + SplitSpaces(rest[SpacePrefix(rest)..])
  }

  function Concat(parts: seq<string>): string {
    if parts == [] then "" else parts[0] + Concat(parts[1..])
  }

  /** `s` with every space removed. */
  function RemoveSpaces(s: string): string {
    if s == [] then "" else (if IsSpace(s[0]) then "" else [s[0]]) + RemoveSpaces(s[1..])
  }

  lemma {:induction false} RemoveSpacesAppend(a: string, b: string)
    ensures RemoveSpaces(a + b) == RemoveSpaces(a) + RemoveSpaces(b)
  {
    if a == [] {
      assert a + b == b;
    } else {
      var h := if IsSpace(a[0]) then "" else [a[0]];
      assert (a + b)[0] == a[0];
      assert (a + b)[1..] == a[1..] + b;
      assert RemoveSpaces(a + b) == h + RemoveSpaces(a[1..] + b);
      RemoveSpacesAppend(a[1..], b);
      assert RemoveSpaces(a) == h + RemoveSpaces(a[1..]);
    }
  }

  lemma {:induction false} RemoveSpacesOfSpaces(s: string)
    requires forall k :: 0 <= k < |s| ==> IsSpace(s[k])
    ensures RemoveSpaces(s) == ""
  {
    if s != [] {
      RemoveSpacesOfSpaces(s[1..]);
    }
  }

  lemma {:induction false} RemoveSpacesOfWord(s: string)
    requires NoSpace(s)
    ensures RemoveSpaces(s) == s
  {
    if s != [] {
      RemoveSpacesOfWord(s[1..]);
    }
  }

  /** Splitting on space runs drops exactly the spaces: the pieces, put
      back together, are the non-space characters of `s` in order. */
  lemma {:induction false} SplitSpacesKeepsText(s: string)
    ensures Concat(SplitSpaces(s)) == RemoveSpaces(s)
    decreases |s|
  {
    var w := WordPrefix(s);
    if w == |s| {
      RemoveSpacesOfWord(s);
      assert SplitSpaces(s) == [s];
      assert Concat([s]) == s + Concat([]);
    } else {
      var word, gap, tail := SplitSpacesStep(s);
      ConcatCons(word, SplitSpaces(tail));
      SplitSpacesKeepsText(tail);
      RemoveSpacesSplit(word, gap, tail);
    }
  }

  /** One step of `SplitSpaces` on a string holding a space: the leading
      word, the run of spaces after it, and the rest. */
  lemma SplitSpacesStep(s: string) returns (word: string, gap: string, tail: string)
    requires WordPrefix(s) < |s|
    ensures NoSpace(word) && gap != [] && (forall k :: 0 <= k < |gap| ==> IsSpace(gap[k]))
    ensures s == word + gap + tail && |tail| < |s|
    ensures SplitSpaces(s) == [word] + SplitSpaces(tail)
  {
    var w := WordPrefix(s);
    var rest := s[w..];
    var g := SpacePrefix(rest);
    assert rest[0] == s[w];
    word, gap, tail := s[..w], rest[..g], rest[g..];
    assert word + gap + tail == s;
  }

  /** A word, a run of spaces and a rest that does not start with a space
      split into the word and the pieces of the rest: the run is one
      separator, however long it is. */
  lemma SplitSpacesGap(a: string, w: string, b: string)
    requires NoSpace(a) && w != [] && forall k :: 0 <= k < |w| ==> IsSpace(w[k])
    requires b == [] || !IsSpace(b[0])
    ensures SplitSpaces(a + w + b) == [a] + SplitSpaces(b)
  {
    var s := a + w + b;
    assert s == a + (w + b);
    WordPrefixOf(a, w + b);
    assert s[|a|..] == w + b;
    SpacePrefixOf(w, b);
    assert (w + b)[|w|..] == b;
  }

  lemma {:induction false} WordPrefixOf(a: string, t: string)
    requires NoSpace(a) && (t == [] || IsSpace(t[0]))
    ensures WordPrefix(a + t) == |a| && (a + t)[..|a|] == a
  {
    if a != [] {
      assert (a + t)[1..] == a[1..] + t;
      WordPrefixOf(a[1..], t);
    }
  }

  lemma {:induction false} SpacePrefixOf(w: string, b: string)
    requires (forall k :: 0 <= k < |w| ==> IsSpace(w[k])) && (b == [] || !IsSpace(b[0]))
    ensures SpacePrefix(w + b) == |w|
  {
    if w != [] {
      assert (w + b)[1..] == w[1..] + b;
      SpacePrefixOf(w[1..], b);
    }
  }

  /** Words joined by single spaces split back into the same words. */
  lemma {:induction false} SplitSpacesJoin(parts: seq<string>)
    requires |parts| >= 1 && forall k :: 0 <= k < |parts| ==> parts[k] != [] && NoSpace(parts[k])
    ensures SplitSpaces(Join(parts, ' ')) == parts
  {
    if |parts| > 1 {
      var rest := parts[1..];
      var b := Join(rest, ' ');
      assert forall k :: 0 <= k < |rest| ==> rest[k] == parts[k + 1];
      SplitSpacesJoin(rest);
      JoinStartsWith(rest, ' ');
      assert b[0] == rest[0][0] && !IsSpace(b[0]);
      SplitSpacesGap(parts[0], " ", b);
      assert Join(parts, ' ') == parts[0] + " " + b;
      assert parts == [parts[0]] + parts[1..];
    }
  }

  /** A join begins with its first part. */
  lemma {:induction false} JoinStartsWith(parts: seq<string>, sep: char)
    requires |parts| >= 1
    ensures |Join(parts, sep)| >= |parts[0]| && Join(parts, sep)[..|parts[0]|] == parts[0]
  {
    if |parts| > 1 {
      assert Join(parts, sep) == parts[0] + ([sep] + Join(parts[1..], sep));
    }
  }

  lemma ConcatCons(a: string, parts: seq<string>)
    ensures Concat([a] + parts) == a + Concat(parts)
  {
    assert ([a] + parts)[1..] == parts;
  }

  /** The spaces removed around a word and a gap of spaces. */
  lemma RemoveSpacesSplit(word: string, gap: string, tail: string)
    requires NoSpace(word) && forall k :: 0 <= k < |gap| ==> IsSpace(gap[k])
    ensures RemoveSpaces(word + gap + tail) == word + RemoveSpaces(tail)
  {
    var wg := word + gap;
    assert RemoveSpaces(wg) == word by {
      RemoveSpacesAppend(word, gap);
      RemoveSpacesOfWord(word);
      RemoveSpacesOfSpaces(gap);
      assert word + "" == word;
    }
    RemoveSpacesAppend(wg, tail);
  }

  predicate IsDigit(c: char) {
    '0' <= c <= '9'
  }

  predicate AllDigits(s: string) {
    forall k :: 0 <= k < |s| ==> IsDigit(s[k])
  }

  /** The number a string of decimal digits denotes. */
  function DigitsValue(s: string): nat
    requires AllDigits(s)
  {
    if s == [] then 0 else 10 * DigitsValue(s[..|s| - 1]) + (s[|s| - 1] - '0') as nat
  }

  function DigitChar(d: nat): (c: char)
    requires d < 10
    ensures IsDigit(c) && (c - '0') as nat == d
  {
    '0' + d as char
  }

  /** Decimal text of a natural number, without leading zeros. */
  function NatToString(n: nat): (s: string)
    ensures |s| > 0 && AllDigits(s)
    ensures DigitsValue(s) == n
    ensures |s| > 1 ==> s[0] != '0'
  {
    if n < 10 then [DigitChar(n)]
    else
      var s := NatToString(n / 10) + [DigitChar(n % 10)];
      assert s[..|s| - 1] == NatToString(n / 10);
      s
  }

  /** `n.toString()` for an integer `n`. */
  function IntToString(n: int): string {
    if n < 0 then "-" + NatToString(-n) else NatToString(n)
  }

  /** The value `parseInt`/`parseFloat` give to an optionally signed string
      of decimal digits. */
  function ParseNumber(s: string): int
    requires AllDigits(s) || (|s| > 0 && s[0] == '-' && AllDigits(s[1..]))
  {
    if AllDigits(s) then DigitsValue(s) else -(DigitsValue(s[1..]) as int)
  }

  /** Parsing the text of a number gives the number back. */
  lemma ParseIntToString(n: int)
    ensures var s := IntToString(n);
            (AllDigits(s) || (|s| > 0 && s[0] == '-' && AllDigits(s[1..])))
            && ParseNumber(s) == n
  {
    var s := IntToString(n);
    if n < 0 {
      assert s[1..] == NatToString(-n);
      assert !IsDigit(s[0]);
    }
  }
}
