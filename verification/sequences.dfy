/** Small facts about sequences shared by the name-keyed directory. */
module Sequences {
  import opened Wrappers

  /** No element occurs twice. */
  ghost predicate NoDup<T>(s: seq<T>)
  {
    forall i, j :: 0 <= i < j < |s| ==> s[i] != s[j]
  }

  /** `x` occurs at most once in `s`. */
  ghost predicate AtMostOnce<T>(s: seq<T>, x: T)
  {
    multiset(s)[x] <= 1
  }

  /** Without repetitions every element occurs at most once. */
  lemma {:induction false} NoDupAtMostOnce<T>(s: seq<T>, x: T)
    requires NoDup(s)
    ensures AtMostOnce(s, x)
    decreases |s|
  {
    if |s| > 0 {
      assert s == [s[0]] + s[1..];
      assert NoDup(s[1..]);
      NoDupAtMostOnce(s[1..], x);
      if s[0] == x {
        assert x !in s[1..];
      }
    }
  }

  /** The first position of `x` in `s`, scanning from the front as a Go
      `for i, v := range s` loop with an early return does. */
  function Position<T(==)>(s: seq<T>, x: T): (r: Option<nat>)
    ensures r.None? <==> x !in s
    ensures r.Some? ==> r.value < |s| && s[r.value] == x && x !in s[..r.value]
  {
    if |s| == 0 then None
    else if s[0] == x then Some(0)
    else
      match Position(s[1..], x)
      case None => None
      case Some(k) =>
        assert s[..k + 1] == [s[0]] + s[1..][..k];
        Some(k + 1)
  }

  /** Removes the first occurrence of `x`, if any, closing the gap as
      `append(s[:j], s[j+1:]...)` does; the other elements keep their order. */
  function RemoveFirst<T(==)>(s: seq<T>, x: T): (r: seq<T>)
    ensures multiset(r) == multiset(s) - multiset{x}
    ensures x !in s ==> r == s
    ensures x in s ==> |r| == |s| - 1
    ensures AtMostOnce(s, x) ==> x !in r
    ensures x in s ==> r == s[..Position(s, x).value] + s[Position(s, x).value + 1..]
  {
    match Position(s, x)
    case None => s
    case Some(j) =>
      assert s == s[..j] + [s[j]] + s[j + 1..];
      assert multiset(s) == multiset(s[..j]) + multiset{x} + multiset(s[j + 1..]);
      s[..j] + s[j + 1..]
  }

  /** Removing an element keeps a duplicate-free sequence duplicate-free. */
  lemma NoDupRemoveFirst<T>(s: seq<T>, x: T)
    requires NoDup(s)
    ensures NoDup(RemoveFirst(s, x))
  {
    match Position(s, x)
    case None =>
    case Some(j) =>
      var r := RemoveFirst(s, x);
      assert r == s[..j] + s[j + 1..];
      forall a, b | 0 <= a < b < |r|
        ensures r[a] != r[b]
      {
        var a', b' := if a < j then a else a + 1, if b < j then b else b + 1;
        assert r[a] == s[a'] && r[b] == s[b'];
      }
  }

  /** Any element other than the removed one is kept. */
  lemma RemoveFirstKeeps<T>(s: seq<T>, x: T, y: T)
    requires y != x
    ensures y in RemoveFirst(s, x) <==> y in s
  {
    assert y in multiset(RemoveFirst(s, x)) <==> y in multiset(s);
  }
}
