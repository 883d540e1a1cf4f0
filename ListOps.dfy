/**
 * The operations of a growable list (System.Collections.Generic.List<T>) that
 * the pools use, written over Dafny sequences. Equality of items is Dafny's
 * `==`, standing for the list's default equality comparer.
 */
module ListOps {

  /** The position of the first occurrence of `x` in `s`, or -1 when there is none (List<T>.IndexOf). */
  function IndexOf<T(==)>(s: seq<T>, x: T): (r: int)
    ensures -1 <= r < |s|
    ensures r == -1 <==> x !in s
    ensures 0 <= r ==> s[r] == x && x !in s[..r]
  {
    assert s != [] ==> s == [s[0]] + s[1..];
    if s == [] then -1
    else if s[0] == x then 0
    else
      var k := IndexOf(s[1..], x);
      if k == -1 then -1
      else
        assert s[..k + 1] == [s[0]] + s[1..][..k];
        k + 1
  }

  /**
   * List<T>.Remove: the first occurrence of `x` is taken out; when `x` does
   * not occur, the list is left as it was. Which occurrence goes is stated
   * by RemoveFirstSplices.
   */
  function RemoveFirst<T(==)>(s: seq<T>, x: T): (r: seq<T>)
    ensures x !in s ==> r == s
    ensures x in s ==> |r| == |s| - 1
    ensures multiset(r) == multiset(s) - multiset{x}
  {
    if s == [] then []
    else
      assert s == [s[0]] + s[1..];
      if s[0] == x then s[1..]
      else [s[0]] + RemoveFirst(s[1..], x)
  }

  /** Remove takes out exactly the element at IndexOf and keeps the rest in order. */
  lemma {:induction false} RemoveFirstSplices<T>(s: seq<T>, x: T)
    requires x in s
    ensures RemoveFirst(s, x) == s[..IndexOf(s, x)] + s[IndexOf(s, x) + 1..]
  {
    if s[0] != x {
      var t := s[1..];
      assert s == [s[0]] + t;
      assert x in t;
      RemoveFirstSplices(t, x);
      var i, j := IndexOf(s, x), IndexOf(t, x);
      assert i == j + 1;
      assert RemoveFirst(s, x) == [s[0]] + RemoveFirst(t, x);
      SpliceCons(s, j);
    }
  }

  /** Cutting out position j + 1 of a non-empty list is cutting out position j of its tail, behind its head. */
  lemma SpliceCons<T>(s: seq<T>, j: nat)
    requires j + 1 < |s|
    ensures s[..j + 1] + s[j + 2..] == [s[0]] + (s[1..][..j] + s[1..][j + 1..])
  {
    var t := s[1..];
    assert s[..j + 1] == [s[0]] + t[..j];
    assert s[j + 2..] == t[j + 1..];
  }

  /** Removing an element just appended, that occurred nowhere before, gives back the list as it was. */
  lemma {:induction false} RemoveAppended<T>(s: seq<T>, x: T)
    requires x !in s
    ensures RemoveFirst(s + [x], x) == s
  {
    if s != [] {
      assert (s + [x])[1..] == s[1..] + [x];
      RemoveAppended(s[1..], x);
      assert s == [s[0]] + s[1..];
    }
  }

  /**
   * The pool's forced-reuse move on a list: `RemoveAt(0)` followed by
   * `Add` of the element just removed.
   */
  function Rotate<T>(s: seq<T>): (r: seq<T>)
    requires s != []
    ensures |r| == |s| && r[|s| - 1] == s[0]
    ensures r[..|s| - 1] == s[1..]
  {
    s[1..] + [s[0]]
  }
}
