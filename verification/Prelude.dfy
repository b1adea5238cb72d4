/** Small shared vocabulary: optional values, 64-bit identifiers and facts about sequences. */
module Prelude {
  datatype Option<+T> = None | Some(value: T)

  /** The largest value of the identifiers' machine type. */
  const U64_MAX: nat := 0xFFFF_FFFF_FFFF_FFFF

  /** Vertex, port and tetrahedron identifiers. */
  type Id = n: nat | n <= U64_MAX

  function Elems<T>(s: seq<T>): set<T> {
    set x | x in s
  }

  lemma ElemsEmpty<T>(s: seq<T>)
    ensures Elems(s) == {} <==> s == []
  {
    if s != [] {
      assert s[0] in Elems(s);
    }
  }

  ghost predicate NoDup<T>(s: seq<T>) {
    forall i, j :: 0 <= i < j < |s| ==> s[i] != s[j]
  }

  /** The position of the first element satisfying `p`, or `|s|`. */
  function FirstIndex<T>(s: seq<T>, p: T -> bool): (i: nat)
    ensures i <= |s|
    ensures i < |s| ==> p(s[i])
    ensures forall j :: 0 <= j < i ==> !p(s[j])
  {
    if s == [] || p(s[0]) then 0 else 1 + FirstIndex(s[1..], p)
  }

  /** The elements satisfying `p`, in order. */
  function Filter<T>(s: seq<T>, p: T -> bool): (r: seq<T>)
    ensures |r| <= |s|
    ensures forall x :: x in r ==> x in s && p(x)
    ensures forall x :: x in s && p(x) ==> x in r
    ensures r == s <==> forall x :: x in s ==> p(x)
    ensures |r| == |s| ==> r == s
  {
    if s == [] then []
    else if p(s[0]) then
      assert s == [s[0]] + s[1..];
      [s[0]] + Filter(s[1..], p)
    else Filter(s[1..], p)
  }

  /** What is kept stays in order: before an element that is kept come the kept ones before it. */
  lemma {:induction false} FilterInOrder<T>(s: seq<T>, p: T -> bool, k: nat) returns (c: nat)
    requires k < |Filter(s, p)|
    ensures c < |s| && s[c] == Filter(s, p)[k] && forall d :: 0 <= d < c && p(s[d]) ==> s[d] in Filter(s, p)[..k]
  {
    if p(s[0]) {
      var rest := Filter(s[1..], p);
      assert Filter(s, p) == [s[0]] + rest;
      if k == 0 {
        c := 0;
      } else {
        var e := FilterInOrder(s[1..], p, k - 1);
        c := e + 1;
        assert Filter(s, p)[..k] == [s[0]] + rest[..k - 1];
        assert forall d :: 1 <= d < c ==> s[d] == s[1..][d - 1];
      }
    } else {
      var e := FilterInOrder(s[1..], p, k);
      c := e + 1;
      assert forall d :: 1 <= d < c ==> s[d] == s[1..][d - 1];
    }
  }

  lemma {:induction false} FilterNoDup<T>(s: seq<T>, p: T -> bool)
    requires NoDup(s)
    ensures NoDup(Filter(s, p))
  {
    if s != [] {
      FilterNoDup(s[1..], p);
      if p(s[0]) {
        var rest := Filter(s[1..], p);
        assert s[0] !in s[1..];
        assert Filter(s, p) == [s[0]] + rest;
      }
    }
  }

  /** A duplicate-free sequence over a finite set is no longer than the set. */
  lemma {:induction false} NoDupBound<T>(s: seq<T>, universe: set<T>)
    requires NoDup(s) && Elems(s) <= universe
    ensures |s| <= |universe|
  {
    if s != [] {
      var last := s[|s| - 1];
      var front := s[..|s| - 1];
      assert last in Elems(s);
      assert forall x :: x in Elems(front) ==> x in Elems(s) && x != last;
      NoDupBound(front, universe - {last});
    }
  }
}
