/** The two JavaScript array operations the meal bookkeeping uses on a menu. */
module JsArray {

  function Min(a: int, b: int): int { if a <= b then a else b }
  function Max(a: int, b: int): int { if a >= b then a else b }

  /** `Array.prototype.indexOf`: the first position of `x`, or -1. */
  function IndexOf<T(==)>(s: seq<T>, x: T): (i: int)
    ensures -1 <= i < |s|
    ensures i == -1 <==> x !in s
    ensures 0 <= i ==> s[i] == x && x !in s[..i]
  {
    if s == [] then -1
    else if s[0] == x then 0
    else
      var j := IndexOf(s[1..], x);
      assert s[1..][..j + 1] == s[1..j + 2] by { if j >= 0 { assert j + 1 < |s|; } }
      if j == -1 then -1 else j + 1
  }

  /** `Array.prototype.splice(start, 1)`, returning the array afterwards: a negative
      `start` counts from the end (clamped at 0), a `start` past the end removes
      nothing. */
  function Splice1<T>(s: seq<T>, start: int): (r: seq<T>)
    ensures var k := if start < 0 then Max(|s| + start, 0) else start;
      r == if k < |s| then s[..k] + s[k + 1..] else s
    ensures |r| == if (if start < 0 then Max(|s| + start, 0) else start) < |s| then |s| - 1 else |s|
  {
    var from := if start < 0 then Max(|s| + start, 0) else Min(start, |s|);
    var to := Min(from + 1, |s|);
    s[..from] + s[to..]
  }

  /** No value occurs twice. */
  ghost predicate Distinct<T>(s: seq<T>) {
    forall i, j :: 0 <= i < j < |s| ==> s[i] != s[j]
  }

  /** A splice only removes: what is left was in the array, and an array without
      repeats stays without repeats. */
  lemma {:induction false} SpliceKeeps<T>(s: seq<T>, start: int)
    ensures forall y :: y in Splice1(s, start) ==> y in s
    ensures Distinct(s) ==> Distinct(Splice1(s, start))
  {
    var k := if start < 0 then Max(|s| + start, 0) else start;
    var r := Splice1(s, start);
    if k < |s| {
      assert forall i :: 0 <= i < |r| ==> r[i] == s[if i < k then i else i + 1];
      forall y | y in r ensures y in s {
        var i :| 0 <= i < |r| && r[i] == y;
        assert s[if i < k then i else i + 1] == y;
      }
    }
  }

  /** Splicing out the position `indexOf` found removes exactly that one occurrence. */
  lemma {:induction false} RemoveFound<T>(s: seq<T>, x: T)
    requires x in s
    ensures var p := IndexOf(s, x);
      && Splice1(s, p) == s[..p] + s[p + 1..]
      && |Splice1(s, p)| == |s| - 1
      && multiset(Splice1(s, p)) == multiset(s) - multiset{x}
  {
    var p := IndexOf(s, x);
    assert s == s[..p] + [x] + s[p + 1..];
    calc {
      multiset(s);
      multiset(s[..p]) + multiset{x} + multiset(s[p + 1..]);
    }
  }

  /** When `x` occurs once, it is gone after the splice. */
  lemma {:induction false} RemoveOnlyOccurrence<T>(s: seq<T>, x: T)
    requires multiset(s)[x] == 1
    ensures x !in Splice1(s, IndexOf(s, x))
  {
    RemoveFound(s, x);
    assert multiset(Splice1(s, IndexOf(s, x)))[x] == 0;
  }

  /** In an array without repeats, the id `indexOf` found is gone after the splice. */
  lemma {:induction false} RemoveDistinct<T>(s: seq<T>, x: T)
    requires Distinct(s) && x in s
    ensures x !in Splice1(s, IndexOf(s, x))
  {
    var p := IndexOf(s, x);
    RemoveFound(s, x);
    var r := Splice1(s, p);
    forall i | 0 <= i < |r| ensures r[i] != x {
      if i < p { assert r[i] == s[i]; } else { assert r[i] == s[i + 1]; }
    }
  }

  /** The -1 case: `splice(-1, 1)` removes the last element, whatever it is. */
  lemma {:induction false} RemoveMissing<T>(s: seq<T>, x: T)
    requires x !in s
    ensures Splice1(s, IndexOf(s, x)) == if s == [] then [] else s[..|s| - 1]
  {
  }

  /** Appending an id that is not yet present and then splicing it out restores the
      array: `push` followed by `indexOf` + `splice` is a round trip. */
  lemma {:induction false} PushThenRemove<T>(s: seq<T>, x: T)
    requires x !in s
    ensures IndexOf(s + [x], x) == |s|
    ensures Splice1(s + [x], IndexOf(s + [x], x)) == s
  {
    assert (s + [x])[..|s|] == s;
    assert x in s + [x] by { assert (s + [x])[|s|] == x; }
  }

  /** Removal as the bookkeeping evidently intends it: splice only when `indexOf`
      finds the id, so an absent id leaves the array alone. */
  function RemoveEntry<T(==)>(s: seq<T>, x: T): (r: seq<T>)
    ensures x !in s ==> r == s
    ensures x in s ==> r == s[..IndexOf(s, x)] + s[IndexOf(s, x) + 1..]
  {
    var p := IndexOf(s, x);
    if p < 0 then s else Splice1(s, p)
  }

  /** The intended removal drops exactly `x` from an array without repeats and keeps
      every other entry, in order. */
  lemma {:induction false} RemoveEntryKeepsOthers<T>(s: seq<T>, x: T)
    requires Distinct(s)
    ensures x !in RemoveEntry(s, x)
    ensures forall y :: y != x ==> (y in RemoveEntry(s, x) <==> y in s)
    ensures multiset(RemoveEntry(s, x)) == multiset(s) - multiset{x}
  {
    if x in s {
      RemoveFound(s, x);
      RemoveDistinct(s, x);
      var p := IndexOf(s, x);
      assert multiset(RemoveEntry(s, x)) == multiset(s) - multiset{x};
      forall y | y != x ensures y in RemoveEntry(s, x) <==> y in s {
        assert y in multiset(s) <==> y in multiset(RemoveEntry(s, x));
      }
    } else {
      assert multiset(s)[x] == 0;
      assert multiset(s) - multiset{x} == multiset(s);
    }
  }
}
