/**
 * The JavaScript built-ins the lesson viewer relies on, restated over Dafny
 * strings (`seq<char>`): `trim`, `toLowerCase`, `includes`, `join`,
 * `split("||")` and `Array.prototype.filter`, plus an Option type that stands
 * for `undefined`/`null` results.
 */
module Builtins {

  datatype Option<T> = None | Some(value: T)

  // ---------------------------------------------------------------------------
  // Array.prototype.filter and order-preservation
  // ---------------------------------------------------------------------------

  /** `s.filter(p)`: the elements of `s` satisfying `p`, in their original order. */
  function Filter<T>(s: seq<T>, p: T -> bool): (r: seq<T>)
    ensures |r| <= |s|
  {
    if s == [] then [] else (if p(s[0]) then [s[0]] else []) + Filter(s[1..], p)
  }

  /** `a` is obtained from `b` by deleting elements, without reordering. */
  predicate IsSubsequence<T(==)>(a: seq<T>, b: seq<T>)
    decreases |b|
  {
    if a == [] then true
    else if b == [] then false
    else if a[0] == b[0] then IsSubsequence(a[1..], b[1..])
    else IsSubsequence(a, b[1..])
  }

  lemma {:induction false} SubsequenceReflexive<T>(s: seq<T>)
    ensures IsSubsequence(s, s)
  {
    if s != [] { SubsequenceReflexive(s[1..]); }
  }

  /** The filter keeps its elements in their original order, and each of
      them satisfies the predicate. */
  lemma {:induction false} FilterSubsequence<T>(s: seq<T>, p: T -> bool)
    ensures IsSubsequence(Filter(s, p), s)
    ensures forall k :: 0 <= k < |Filter(s, p)| ==> p(Filter(s, p)[k])
  {
    if s != [] {
      var f, rest := Filter(s, p), Filter(s[1..], p);
      FilterSubsequence(s[1..], p);
      if p(s[0]) {
        assert f == [s[0]] + rest;
        assert f[1..] == rest;
      } else {
        assert f == rest;
        assert rest != [] ==> rest[0] != s[0];
      }
    }
  }

  /** The filter keeps each element that satisfies the predicate exactly as
      often as it occurs, and no other element. */
  lemma {:induction false} FilterMultiplicity<T>(s: seq<T>, p: T -> bool)
    ensures forall x :: multiset(Filter(s, p))[x] == if p(x) then multiset(s)[x] else 0
  {
    if s != [] {
      var f, rest := Filter(s, p), Filter(s[1..], p);
      FilterMultiplicity(s[1..], p);
      assert s == [s[0]] + s[1..];
      if p(s[0]) {
        assert f == [s[0]] + rest;
        assert multiset(f) == multiset([s[0]]) + multiset(rest);
      } else {
        assert f == rest;
      }
    }
  }

  /** The filter keeps exactly the elements that satisfy the predicate, each as
      often as it occurs, and keeps them in order. */
  lemma FilterSpec<T>(s: seq<T>, p: T -> bool)
    ensures IsSubsequence(Filter(s, p), s)
    ensures forall x :: multiset(Filter(s, p))[x] == if p(x) then multiset(s)[x] else 0
  {
    FilterSubsequence(s, p);
    FilterMultiplicity(s, p);
  }

  lemma FilterMembers<T>(s: seq<T>, p: T -> bool)
    ensures forall x :: x in Filter(s, p) <==> x in s && p(x)
  {
    FilterMultiplicity(s, p);
    forall x ensures x in Filter(s, p) <==> x in s && p(x) {
      assert x in Filter(s, p) <==> multiset(Filter(s, p))[x] > 0;
      assert x in s <==> multiset(s)[x] > 0;
    }
  }

  /** One step of the recursion, for a sequence given as its first element and the rest. */
  lemma FilterCons<T>(c: T, s: seq<T>, p: T -> bool)
    ensures Filter([c] + s, p) == (if p(c) then [c] else []) + Filter(s, p)
  {
    assert ([c] + s)[0] == c && ([c] + s)[1..] == s;
  }

  /** Filtering a sequence extended at the end: the shape a `for … of` loop sees. */
  lemma {:induction false} FilterSnoc<T>(s: seq<T>, x: T, p: T -> bool)
    ensures Filter(s + [x], p) == Filter(s, p) + (if p(x) then [x] else [])
  {
    if s == [] {
      assert s + [x] == [x] + [];
      FilterCons(x, [], p);
    } else {
      var c, rest := s[0], s[1..];
      assert s == [c] + rest;
      assert s + [x] == [c] + (rest + [x]);
      FilterSnoc(rest, x, p);
      FilterCons(c, rest + [x], p);
      FilterCons(c, rest, p);
      var head, mid, tail := if p(c) then [c] else [], Filter(rest, p), if p(x) then [x] else [];
      assert head + (mid + tail) == (head + mid) + tail;
    }
  }

  /** A filter whose predicate accepts every element keeps the whole sequence. */
  lemma {:induction false} FilterKeepsAll<T>(s: seq<T>, p: T -> bool)
    requires forall k :: 0 <= k < |s| ==> p(s[k])
    ensures Filter(s, p) == s
  {
    if s != [] { FilterKeepsAll(s[1..], p); }
  }

  /** Two filters in a row keep what both predicates accept. */
  lemma {:induction false} FilterFilter<T>(s: seq<T>, p: T -> bool, q: T -> bool, pq: T -> bool)
    requires forall x :: pq(x) == (p(x) && q(x))
    ensures Filter(Filter(s, p), q) == Filter(s, pq)
  {
    if s != [] {
      FilterFilter(s[1..], p, q, pq);
      var f := Filter(s, p);
      if p(s[0]) {
        assert f == [s[0]] + Filter(s[1..], p);
        assert f[0] == s[0] && f[1..] == Filter(s[1..], p);
      } else {
        assert f == Filter(s[1..], p);
      }
    }
  }

  // ---------------------------------------------------------------------------
  // String.prototype.trim
  // ---------------------------------------------------------------------------

  /** The characters `trim` removes: ECMAScript WhiteSpace (TAB, VT, FF, ZWNBSP
      and every space separator) and LineTerminator (LF, CR, LS, PS). */
  predicate IsWhitespace(c: char)
  {
    c == '\t' || c == '\U{B}' || c == '\U{C}' || c == ' ' || c == '\U{A0}' || c == '\U{FEFF}'
    || c == '\U{1680}' || ('\U{2000}' <= c <= '\U{200A}') || c == '\U{202F}' || c == '\U{205F}'
    || c == '\U{3000}' || c == '\n' || c == '\r' || c == '\U{2028}' || c == '\U{2029}'
  }

  predicate AllWhitespace(s: string)
  {
    forall k :: 0 <= k < |s| ==> IsWhitespace(s[k])
  }

  /** Neither end of `s` is whitespace. */
  predicate IsTrimmed(s: string)
  {
    s == [] || (!IsWhitespace(s[0]) && !IsWhitespace(s[|s| - 1]))
  }

  function TrimStart(s: string): (r: string)
    ensures |r| <= |s| && r == s[|s| - |r|..]
    ensures forall k :: 0 <= k < |s| - |r| ==> IsWhitespace(s[k])
    ensures r != [] ==> !IsWhitespace(r[0])
  {
    if s != [] && IsWhitespace(s[0]) then TrimStart(s[1..]) else s
  }

  function TrimEnd(s: string): (r: string)
    ensures |r| <= |s| && r == s[..|r|]
    ensures forall k :: |r| <= k < |s| ==> IsWhitespace(s[k])
    ensures r != [] ==> !IsWhitespace(r[|r| - 1])
  {
    if s != [] && IsWhitespace(s[|s| - 1]) then TrimEnd(s[..|s| - 1]) else s
  }

  /** `r` sits at position `i` of `s` with only whitespace before and after it. */
  predicate WhitespaceAround(s: string, i: int, r: string)
  {
    && 0 <= i <= |s| - |r|
    && r == s[i..i + |r|]
    && (forall k :: 0 <= k < i ==> IsWhitespace(s[k]))
    && (forall k :: i + |r| <= k < |s| ==> IsWhitespace(s[k]))
  }

  /** A prefix `r` of a suffix `t` of `s`, with whitespace before `t` and
      after `r`, has only whitespace around it. */
  lemma WhitespaceAroundSlice(s: string, t: string, r: string)
    requires |t| <= |s| && t == s[|s| - |t|..]
    requires forall k :: 0 <= k < |s| - |t| ==> IsWhitespace(s[k])
    requires |r| <= |t| && r == t[..|r|]
    requires forall k :: |r| <= k < |t| ==> IsWhitespace(t[k])
    ensures WhitespaceAround(s, |s| - |t|, r)
  {
    var i := |s| - |t|;
    forall k | i + |r| <= k < |s| ensures IsWhitespace(s[k]) {
      assert s[k] == t[k - i];
    }
  }

  /** `s.trim()`: the middle of `s` once the whitespace at both ends is gone. */
  function Trim(s: string): (r: string)
    ensures IsTrimmed(r)
    ensures exists i :: WhitespaceAround(s, i, r)
  {
    var t := TrimStart(s);
    var r := TrimEnd(t);
    WhitespaceAroundSlice(s, t, r);
    assert r != [] ==> r[0] == t[0];
    r
  }

  lemma TrimOfTrimmed(s: string)
    requires IsTrimmed(s)
    ensures Trim(s) == s
  {
  }

  lemma {:induction false} TrimStartOfWhitespace(s: string)
    requires AllWhitespace(s)
    ensures TrimStart(s) == []
  {
    if s != [] { TrimStartOfWhitespace(s[1..]); }
  }

  lemma TrimOfWhitespace(s: string)
    requires AllWhitespace(s)
    ensures Trim(s) == []
  {
    TrimStartOfWhitespace(s);
  }

  // ---------------------------------------------------------------------------
  // String.prototype.toLowerCase
  // ---------------------------------------------------------------------------

  /** Lower-case mapping of the upper-case letters of Basic Latin and Latin-1
      (A-Z and the Latin-1 capitals U+00C0-U+00DE except the multiplication
      sign U+00D7); every other character maps to itself. */
  function LowerChar(c: char): char
  {
    if 'A' <= c <= 'Z' || ('\U{C0}' <= c <= '\U{DE}' && c != '\U{D7}')
    then (c as int + 32) as char
    else c
  }

  function ToLower(s: string): (r: string)
    ensures |r| == |s|
  {
    seq(|s|, k requires 0 <= k < |s| => LowerChar(s[k]))
  }

  lemma ToLowerIdempotent(s: string)
    ensures ToLower(ToLower(s)) == ToLower(s)
  {
  }

  lemma ToLowerConcat(a: string, b: string)
    ensures ToLower(a + b) == ToLower(a) + ToLower(b)
  {
  }

  // ---------------------------------------------------------------------------
  // String.prototype.includes and Array.prototype.join
  // ---------------------------------------------------------------------------

  /** `t` occurs in `s` starting at position `i`. */
  predicate OccursAt(s: string, t: string, i: int)
  {
    0 <= i <= |s| - |t| && s[i..i + |t|] == t
  }

  /** `s.includes(t)`: `t` occurs in `s` at some position. */
  function Contains(s: string, t: string): (r: bool)
    ensures r <==> exists i :: OccursAt(s, t, i)
    decreases |s|
  {
    if t <= s then
      assert OccursAt(s, t, 0);
      true
    else if s == [] then false
    else
      var r := Contains(s[1..], t);
      assert forall i :: OccursAt(s[1..], t, i) ==> OccursAt(s, t, i + 1);
      assert forall i :: OccursAt(s, t, i) ==> i != 0 && OccursAt(s[1..], t, i - 1);
      r
  }

  /** `parts.join(sep)`; the empty array joins to the empty string. */
  function Join(parts: seq<string>, sep: string): string
  {
    if |parts| == 0 then ""
    else if |parts| == 1 then parts[0]
    else parts[0] + sep + Join(parts[1..], sep)
  }

  // ---------------------------------------------------------------------------
  // String.prototype.split("||")
  // ---------------------------------------------------------------------------

  const DoubleBar: string := "||"

  /** The separator `||` starts at position `k` of `s`. */
  predicate BarsAt(s: string, k: int)
  {
    0 <= k && k + 1 < |s| && s[k] == '|' && s[k + 1] == '|'
  }

  predicate HasDoubleBar(s: string)
  {
    exists k :: 0 <= k < |s| && BarsAt(s, k)
  }

  /** The leftmost occurrence of `||` in `s`, or `|s|` when there is none. */
  function FirstDoubleBar(s: string): (r: nat)
    ensures r <= |s|
    ensures r < |s| ==> BarsAt(s, r)
    ensures forall k :: 0 <= k < r ==> !BarsAt(s, k)
  {
    if |s| < 2 then |s|
    else if s[0] == '|' && s[1] == '|' then 0
    else
      var r := 1 + FirstDoubleBar(s[1..]);
      assert forall k :: 1 <= k < r ==> (BarsAt(s, k) <==> BarsAt(s[1..], k - 1));
      r
  }

  /** `s.split("||")`: the text between successive leftmost, non-overlapping
      occurrences of the separator. Joining the pieces back gives `s`; no piece
      holds the separator, and every piece but the last does not end in `|`
      (otherwise the separator would have been found one position earlier). */
  function SplitDoubleBar(s: string): (r: seq<string>)
    ensures |r| >= 1
    ensures Join(r, DoubleBar) == s
    ensures forall k :: 0 <= k < |r| ==> !HasDoubleBar(r[k])
    ensures forall k :: 0 <= k < |r| - 1 ==> r[k] == [] || r[k][|r[k]| - 1] != '|'
    decreases |s|
  {
    var i := FirstDoubleBar(s);
    if i == |s| then
      [s]
    else
      var head := s[..i];
      var rest := SplitDoubleBar(s[i + 2..]);
      assert !HasDoubleBar(head) by {
        forall k | 0 <= k < |head| ensures !BarsAt(head, k) {
          assert BarsAt(head, k) ==> BarsAt(s, k);
        }
      }
      assert head != [] ==> head[|head| - 1] != '|' by {
        if head != [] {
          assert !BarsAt(s, i - 1) && s[i] == '|' && head[|head| - 1] == s[i - 1];
        }
      }
      assert s == head + DoubleBar + s[i + 2..];
      [head] + rest
  }

  /** Before a piece without `||` that does not end in `|`, the first
      separator is the one right after that piece. */
  lemma FirstDoubleBarAfter(p: string, tail: string)
    requires !HasDoubleBar(p)
    requires p == [] || p[|p| - 1] != '|'
    ensures FirstDoubleBar(p + DoubleBar + tail) == |p|
  {
    var s := p + DoubleBar + tail;
    forall k | 0 <= k < |p| ensures !BarsAt(s, k) {
      if k + 1 < |p| {
        assert BarsAt(s, k) ==> BarsAt(p, k);
      } else {
        assert s[k] == p[|p| - 1];
      }
    }
    assert BarsAt(s, |p|);
  }

  /** One step of the split: a leading piece ended by the first separator. */
  lemma SplitStep(s: string, p: string, tail: string)
    requires s == p + DoubleBar + tail && FirstDoubleBar(s) == |p|
    ensures SplitDoubleBar(s) == [p] + SplitDoubleBar(tail)
  {
    assert s[..|p|] == p;
    assert s[|p| + 2..] == tail;
  }

  /** Splitting undoes joining, for pieces that the split could have produced. */
  lemma {:induction false} SplitJoin(ps: seq<string>)
    requires |ps| >= 1
    requires forall k :: 0 <= k < |ps| ==> !HasDoubleBar(ps[k])
    requires forall k :: 0 <= k < |ps| - 1 ==> ps[k] == [] || ps[k][|ps[k]| - 1] != '|'
    ensures SplitDoubleBar(Join(ps, DoubleBar)) == ps
  {
    var s := Join(ps, DoubleBar);
    if |ps| > 1 {
      var p, tail := ps[0], Join(ps[1..], DoubleBar);
      assert s == p + DoubleBar + tail;
      FirstDoubleBarAfter(p, tail);
      SplitStep(s, p, tail);
      SplitJoin(ps[1..]);
      assert ps == [p] + ps[1..];
    }
  }

}
