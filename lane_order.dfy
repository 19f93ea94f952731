/**
  Ordering a lane by its index column: `np.argsort` on the index column and
  `np.where(s == x)[0][0]`. The argsort is the stable one: equal index values
  keep their order of position.
*/
module LaneOrder {
  import opened Wrappers

  /** Position i sorts strictly before position j: smaller key, or equal key and earlier position. */
  predicate Before(keys: seq<int>, i: nat, j: nat)
    requires i < |keys| && j < |keys|
  {
    keys[i] < keys[j] || (keys[i] == keys[j] && i < j)
  }

  /** Every entry of s is a position of keys. */
  predicate InRange(keys: seq<int>, s: seq<nat>) {
    forall a :: 0 <= a < |s| ==> s[a] < |keys|
  }

  /** s lists positions of keys in strictly increasing Before order (hence without repetition). */
  predicate StrictlySorted(keys: seq<int>, s: seq<nat>)
    requires InRange(keys, s)
  {
    forall a, b :: 0 <= a < b < |s| ==> Before(keys, s[a], s[b])
  }

  /** Inserts position i into its place in a sorted list of positions. */
  function Insert(keys: seq<int>, i: nat, s: seq<nat>): (r: seq<nat>)
    requires i < |keys| && InRange(keys, s) && StrictlySorted(keys, s) && i !in s
    ensures |r| == |s| + 1
    ensures forall e :: e in r <==> e in s || e == i
    ensures InRange(keys, r) && StrictlySorted(keys, r)
  {
    if s == [] || Before(keys, i, s[0]) then [i] + s
    else
      var rest := Insert(keys, i, s[1..]);
      assert forall b :: 0 <= b < |rest| ==> Before(keys, s[0], rest[b]) by {
        forall b | 0 <= b < |rest|
          ensures Before(keys, s[0], rest[b])
        {
          assert rest[b] in rest;
          if rest[b] != i {
            var c :| 0 <= c < |s[1..]| && s[1..][c] == rest[b];
            assert s[c + 1] == rest[b];
          }
        }
      }
      [s[0]] + rest
  }

  /** The positions 0 .. n-1 of keys, ordered by key (ties by position). */
  function ArgsortPrefix(keys: seq<int>, n: nat): (r: seq<nat>)
    requires n <= |keys|
    ensures |r| == n
    ensures forall e :: e in r <==> 0 <= e < n
    ensures InRange(keys, r) && StrictlySorted(keys, r)
  {
    if n == 0 then [] else Insert(keys, n - 1, ArgsortPrefix(keys, n - 1))
  }

  /** `keys.argsort()`: every position of keys exactly once, ordered by key, ties by position. */
  function Argsort(keys: seq<int>): (r: seq<nat>)
    ensures |r| == |keys|
    ensures forall e :: e in r <==> 0 <= e < |keys|
    ensures InRange(keys, r) && StrictlySorted(keys, r)
  {
    ArgsortPrefix(keys, |keys|)
  }

  /**
    The entries of a sorted list before rank k are exactly the positions that
    sort before the entry at rank k.
  */
  lemma {:induction false} RankPrefix(keys: seq<int>, s: seq<nat>, k: nat)
    requires InRange(keys, s) && StrictlySorted(keys, s) && k < |s|
    ensures forall e :: e in s[..k] <==> e in s && Before(keys, e, s[k])
  {
    forall e | e in s && Before(keys, e, s[k])
      ensures e in s[..k]
    {
      var a :| 0 <= a < |s| && s[a] == e;
      if a >= k {
        assert false;
      }
      assert s[..k][a] == e;
    }
    forall e | e in s[..k]
      ensures e in s && Before(keys, e, s[k])
    {
      var a :| 0 <= a < k && s[..k][a] == e;
      assert s[a] == e;
    }
  }

  /** A strictly increasing list of n positions below n is 0, 1, ..., n - 1. */
  lemma {:induction false} IncreasingFull(r: seq<nat>, i: nat)
    requires forall a, b :: 0 <= a < b < |r| ==> r[a] < r[b]
    requires forall a :: 0 <= a < |r| ==> r[a] < |r|
    requires i < |r|
    ensures r[i] == i
  {
    AtLeastRank(r, i);
    assert r[i] + (|r| - 1 - i) <= r[|r| - 1] by {
      AtMostRank(r, i, |r| - 1);
    }
  }

  lemma {:induction false} AtLeastRank(r: seq<nat>, i: nat)
    requires forall a, b :: 0 <= a < b < |r| ==> r[a] < r[b]
    requires i < |r|
    ensures r[i] >= i
  {
    if i > 0 {
      AtLeastRank(r, i - 1);
    }
  }

  lemma {:induction false} AtMostRank(r: seq<nat>, i: nat, j: nat)
    requires forall a, b :: 0 <= a < b < |r| ==> r[a] < r[b]
    requires i <= j < |r|
    ensures r[i] + (j - i) <= r[j]
    decreases j - i
  {
    if i < j {
      AtMostRank(r, i + 1, j);
    }
  }

  /** When the keys already increase strictly with position, sorting leaves every position in place. */
  lemma ArgsortSorted(keys: seq<int>)
    requires forall a, b :: 0 <= a < b < |keys| ==> keys[a] < keys[b]
    ensures forall i :: 0 <= i < |keys| ==> Argsort(keys)[i] == i
  {
    var r := Argsort(keys);
    forall a, b | 0 <= a < b < |r|
      ensures r[a] < r[b]
    {
      assert Before(keys, r[a], r[b]);
    }
    forall i | 0 <= i < |r|
      ensures r[i] == i
    {
      IncreasingFull(r, i);
    }
  }

  /** A non-empty sequence has an element. */
  lemma HasMember(b: seq<int>)
    ensures b != [] ==> b[0] in b
  {
  }

  /** Two strictly increasing sequences with the same elements are the same sequence. */
  lemma {:induction false} IncreasingSameElements(a: seq<int>, b: seq<int>)
    requires forall i, j :: 0 <= i < j < |a| ==> a[i] < a[j]
    requires forall i, j :: 0 <= i < j < |b| ==> b[i] < b[j]
    requires forall x :: x in a <==> x in b
    ensures a == b
    decreases |a|
  {
    if a == [] {
      HasMember(b);
    } else {
      assert a[0] in a;
      assert a[0] in b;
      assert b != [];
      assert b[0] in a;
      var i :| 0 <= i < |a| && a[i] == b[0];
      var j :| 0 <= j < |b| && b[j] == a[0];
      assert a[0] <= a[i] && b[0] <= b[j];
      forall x
        ensures x in a[1..] <==> x in b[1..]
      {
        if x in a[1..] {
          var k :| 0 <= k < |a[1..]| && a[1..][k] == x;
          assert a[k + 1] == x && x > a[0] && x in b;
          var m :| 0 <= m < |b| && b[m] == x;
          assert m != 0;
          assert b[1..][m - 1] == x;
        }
        if x in b[1..] {
          var k :| 0 <= k < |b[1..]| && b[1..][k] == x;
          assert b[k + 1] == x && x > b[0] && x in a;
          var m :| 0 <= m < |a| && a[m] == x;
          assert m != 0;
          assert a[1..][m - 1] == x;
        }
      }
      IncreasingSameElements(a[1..], b[1..]);
      assert a == [a[0]] + a[1..] && b == [b[0]] + b[1..];
    }
  }

  /** `np.where(s == x)[0][0]`: the first place where x occurs in s, if any. */
  function IndexOf(s: seq<nat>, x: int): (r: Option<nat>)
    ensures r.None? <==> x !in s
    ensures r.Some? ==> r.value < |s| && s[r.value] == x && x !in s[..r.value]
  {
    if s == [] then None
    else if s[0] == x then Some(0)
    else match IndexOf(s[1..], x)
      case None => None
      case Some(k) =>
        assert s[..k + 1] == [s[0]] + s[1..][..k];
        Some(k + 1)
  }
}
