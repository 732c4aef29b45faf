/** The `java.util.List` queries that `Node` and `Graph` use: `indexOf`
    (and `contains`, which is `indexOf(x) >= 0`) and `remove(Object)`,
    both comparing elements with `equals`. */
module Lists {

  predicate Distinct<T(==)>(s: seq<T>) {
    forall i, j :: 0 <= i < j < |s| ==> s[i] != s[j]
  }

  /** `List.indexOf`: the position of the first element equal to `x`, or -1. */
  function IndexOf<T(==)>(s: seq<T>, x: T): (k: int)
    ensures -1 <= k < |s|
    ensures k == -1 <==> x !in s
    ensures 0 <= k ==> s[k] == x && x !in s[..k]
  {
    if s == [] then -1
    else if s[0] == x then 0
    else
      var k := IndexOf(s[1..], x);
      if k == -1 then -1
      else
        assert s[..k + 1] == [s[0]] + s[1..][..k];
        k + 1
  }

  /** `List.remove(Object)`: the list without its first element equal to `x`;
      the list itself when there is none. */
  function RemoveFirst<T(==)>(s: seq<T>, x: T): seq<T>
  {
    var k := IndexOf(s, x);
    if k == -1 then s else s[..k] + s[k + 1..]
  }

  /** Removing takes out exactly one occurrence of `x` when there is one,
      and nothing else. */
  lemma RemoveFirstCount<T>(s: seq<T>, x: T)
    ensures x in s ==> |RemoveFirst(s, x)| == |s| - 1
    ensures x !in s ==> RemoveFirst(s, x) == s
    ensures multiset(RemoveFirst(s, x)) == multiset(s) - multiset{x}
  {
    var k := IndexOf(s, x);
    if k != -1 {
      assert s == s[..k] + [x] + s[k + 1..];
      calc {
        multiset(s);
        multiset(s[..k] + [x] + s[k + 1..]);
        multiset(s[..k]) + multiset{x} + multiset(s[k + 1..]);
        multiset(RemoveFirst(s, x)) + multiset{x};
      }
    } else {
      assert multiset(s)[x] == 0;
    }
  }

  /** The elements before the removed occurrence keep their positions, and
      those after it move one place forward, so the order of the rest is kept. */
  lemma RemoveFirstKeepsOrder<T>(s: seq<T>, x: T)
    requires x in s
    ensures var k := IndexOf(s, x);
      && (forall i :: 0 <= i < k ==> RemoveFirst(s, x)[i] == s[i])
      && (forall i :: k <= i < |s| - 1 ==> RemoveFirst(s, x)[i] == s[i + 1])
  {
    var k := IndexOf(s, x);
    var r := RemoveFirst(s, x);
    assert r == s[..k] + s[k + 1..];
    forall i | k <= i < |s| - 1 ensures r[i] == s[i + 1] {
      assert r[i] == s[k + 1..][i - k];
    }
  }

  /** Appending `x` and then removing `x` takes out the first occurrence, which
      is the appended one only when `x` was not there before: `x` is still
      present afterwards exactly when it was present before the append. */
  lemma {:induction false} RemoveFirstAfterAppend<T>(s: seq<T>, x: T)
    ensures RemoveFirst(s + [x], x) == if x in s then RemoveFirst(s, x) + [x] else s
    ensures x in RemoveFirst(s + [x], x) <==> x in s
  {
    var t := s + [x];
    assert t[..|s|] == s;
    if x in s {
      var k := IndexOf(s, x);
      assert t[k] == x;
      assert t[..k] == s[..k];
      assert IndexOf(t, x) == k;
      assert t[k + 1..] == s[k + 1..] + [x];
      assert RemoveFirst(s, x) + [x] == s[..k] + (s[k + 1..] + [x]);
    } else {
      assert x in t;
      assert IndexOf(t, x) == |s|;
    }
  }
}
