/**
  The table transformations behind add_point, delete_points, change_ids and the
  two truncations, each with the facts about it that the editing engine relies on.
*/
module Edits {
  import opened Rows
  import opened LaneOrder

  // ---------------------------------------------------------------- add_point

  /** The table after `add_point(x, y, lane)`: one row appended, numbered by the old row count. */
  function AddRow(t: Table, x: real, y: real, lane: int): (r: Table)
    ensures |r| == |t| + 1 && r[..|t|] == t
    ensures r[|t|].x == x && r[|t|].y == y && r[|t|].yaw == 0.0 && r[|t|].laneId == lane
    ensures r[|t|].index == r[|t|].frameIdx == |t|
    ensures Consistent(t) ==> Consistent(r)
  {
    t + [Row(x, y, 0.0, |t|, |t|, lane)]
  }

  // ------------------------------------------------------------ delete_points

  /** `mask = np.ones(n, dtype=bool); mask[indices] = False`. */
  function KeepMask(n: nat, del: set<int>): (m: seq<bool>)
    ensures |m| == n
    ensures forall j :: 0 <= j < n ==> (m[j] <==> j !in del)
  {
    seq(n, j => j !in del)
  }

  /** How many of the positions 0 .. j-1 survive a deletion of del. */
  function Kept(del: set<int>, j: nat): nat {
    CountTrue(KeepMask(j, del))
  }

  /** The table after deleting the positions in del: survivors in order, renumbered 0 .. n'-1. */
  function DeleteRows(t: Table, del: set<int>): (r: Table)
    ensures |r| == Kept(del, |t|)
    ensures Consistent(r)
    ensures forall k :: 0 <= k < |r| ==> r[k].index == k
  {
    Renumber(Filter(t, KeepMask(|t|, del)))
  }

  lemma {:induction false} CountTrueSnoc(b: seq<bool>, x: bool)
    ensures CountTrue(b + [x]) == CountTrue(b) + (if x then 1 else 0)
  {
    if b == [] {
      assert [] + [x] == [x];
    } else {
      assert (b + [x])[1..] == b[1..] + [x];
      CountTrueSnoc(b[1..], x);
    }
  }

  /**
    Deleting k distinct in-range positions from an n-row table leaves n - k rows
    (duplicates in the request count once).
  */
  lemma {:induction false} DeleteCount(t: Table, del: set<int>)
    requires forall d :: d in del ==> 0 <= d < |t|
    ensures |DeleteRows(t, del)| == |t| - |del|
  {
    KeptCount(|t|, del);
  }

  lemma {:induction false} KeptCount(n: nat, del: set<int>)
    requires forall d :: d in del ==> 0 <= d < n
    ensures Kept(del, n) == n - |del|
    decreases n
  {
    if n == 0 {
      assert forall d :: d !in del;
      assert del == {};
      assert KeepMask(0, del) == [];
    } else {
      var del' := del - {n - 1};
      KeptCount(n - 1, del');
      var m, m', whole := KeepMask(n - 1, del), KeepMask(n - 1, del'), KeepMask(n, del);
      assert m' == m;
      assert whole == m + [n - 1 !in del];
      CountTrueSnoc(m, n - 1 !in del);
      if n - 1 in del {
        assert del == del' + {n - 1};
      } else {
        assert del' == del;
      }
    }
  }

  /**
    A row that is not deleted survives with x, y, yaw and lane_id unchanged, at the
    position given by the number of survivors before it, which is also its new index.
  */
  lemma DeleteKeeps(t: Table, del: set<int>, j: int)
    requires 0 <= j < |t| && j !in del
    ensures Kept(del, j) < |DeleteRows(t, del)|
    ensures DeleteRows(t, del)[Kept(del, j)] == t[j].(frameIdx := Kept(del, j), index := Kept(del, j))
  {
    var mask := KeepMask(|t|, del);
    FilterPlaces(t, mask, j);
    assert mask[..j] == KeepMask(j, del);
  }

  /** Every row of the result is a surviving row of the original, renumbered. */
  lemma DeleteOnlySurvivors(t: Table, del: set<int>, k: int)
    requires 0 <= k < |DeleteRows(t, del)|
    ensures exists j :: 0 <= j < |t| && j !in del && DeleteRows(t, del)[k] == t[j].(frameIdx := k, index := k)
  {
    FilterFrom(t, KeepMask(|t|, del), k);
  }

  // --------------------------------------------------------------- change_ids

  /** numpy's reading of position i into n rows: a negative position counts from the end. */
  function Wrap(i: int, n: nat): int {
    if i < 0 then i + n else i
  }

  /** The rows that `data[indices, -1] = new_id` writes to. */
  function Targets(indices: seq<int>, n: nat): (r: set<int>)
    ensures forall i :: i in indices && i >= 0 ==> i in r
    ensures forall i :: i in indices && i < 0 ==> i + n in r
    ensures forall j :: j in r ==> j in indices || j - n in indices
  {
    set i | i in indices :: Wrap(i, n)
  }

  /** The table after `data[targets, -1] = lane`. */
  function Relabel(t: Table, targets: set<int>, lane: int): (r: Table)
    ensures |r| == |t|
    ensures forall j :: 0 <= j < |t| ==> r[j] == t[j].(laneId := r[j].laneId)
    ensures forall j :: 0 <= j < |t| ==> r[j].laneId == (if j in targets then lane else t[j].laneId)
    ensures Consistent(t) ==> Consistent(r)
  {
    seq(|t|, j requires 0 <= j < |t| => if j in targets then t[j].(laneId := lane) else t[j])
  }

  /** Every position numpy accepts for n rows lands on a row. */
  lemma TargetsInRange(indices: seq<int>, n: nat)
    requires forall i :: i in indices ==> -(n as int) <= i < n
    ensures forall j :: j in Targets(indices, n) ==> 0 <= j < n
  {
  }

  // ------------------------------------------------------ remove_points_above

  /** `lane_data[:, 4]`: the index column of the rows at positions ps. */
  function Keys(t: Table, ps: seq<nat>): (keys: seq<int>)
    requires forall i :: 0 <= i < |ps| ==> ps[i] < |t|
    ensures |keys| == |ps|
  {
    seq(|ps|, i requires 0 <= i < |ps| => t[ps[i]].index)
  }

  /** `lane_indices[lane_data[:, 4].argsort()]`: the lane's positions in index order. */
  function SortedLane(t: Table, lane: int): (g: seq<nat>)
    ensures forall i :: 0 <= i < |g| ==> g[i] < |t| && t[g[i]].laneId == lane
  {
    var ps := LanePositions(t, lane);
    var order := Argsort(Keys(t, ps));
    seq(|order|, i requires 0 <= i < |order| => ps[order[i]])
  }

  /**
    The rows of the lane that rank before row p when the lane is ordered by index,
    equal index values ordered by position.
  */
  function AboveSet(t: Table, lane: int, p: int): set<int>
    requires 0 <= p < |t|
  {
    set q | 0 <= q < |t| && t[q].laneId == lane &&
      (t[q].index < t[p].index || (t[q].index == t[p].index && q < p))
  }

  /** No two rows of the lane share an index value. */
  predicate DistinctIndices(t: Table, lane: int) {
    forall a, b :: 0 <= a < |t| && 0 <= b < |t| && a != b && t[a].laneId == lane && t[b].laneId == lane ==>
      t[a].index != t[b].index
  }

  /**
    When the lane's index values are distinct, the tie-break plays no part: the rows
    ranked above p are exactly the rows of the lane with a smaller index than p.
  */
  lemma AboveSetDistinct(t: Table, lane: int, p: int)
    requires 0 <= p < |t| && t[p].laneId == lane && DistinctIndices(t, lane)
    ensures AboveSet(t, lane, p) == set q | 0 <= q < |t| && t[q].laneId == lane && t[q].index < t[p].index
  {
  }

  /** Every row ranked before p in the lane's index order belongs to AboveSet. */
  lemma PrefixIsAbove(t: Table, lane: int, p: int, k: int)
    requires 0 <= k < |SortedLane(t, lane)| && SortedLane(t, lane)[k] == p
    ensures 0 <= p < |t|
    ensures forall q :: q in SortedLane(t, lane)[..k] ==> q in AboveSet(t, lane, p)
  {
    var ps := LanePositions(t, lane);
    var keys := Keys(t, ps);
    var order := Argsort(keys);
    var g := SortedLane(t, lane);
    assert g == seq(|order|, i requires 0 <= i < |order| => ps[order[i]]);
    var j0 := order[k];
    RankPrefix(keys, order, k);
    forall q | q in g[..k]
      ensures q in AboveSet(t, lane, p)
    {
      var a :| 0 <= a < k && g[..k][a] == q;
      assert g[a] == q && order[a] in order[..k];
      assert Before(keys, order[a], j0);
      assert order[a] < j0 ==> ps[order[a]] < ps[j0];
    }
  }

  /** Every row of AboveSet is ranked before p in the lane's index order. */
  lemma AboveIsPrefix(t: Table, lane: int, p: int, k: int)
    requires 0 <= k < |SortedLane(t, lane)| && SortedLane(t, lane)[k] == p
    ensures 0 <= p < |t|
    ensures forall q :: q in AboveSet(t, lane, p) ==> q in SortedLane(t, lane)[..k]
  {
    var ps := LanePositions(t, lane);
    var keys := Keys(t, ps);
    var order := Argsort(keys);
    var g := SortedLane(t, lane);
    assert g == seq(|order|, i requires 0 <= i < |order| => ps[order[i]]);
    var j0 := order[k];
    RankPrefix(keys, order, k);
    forall q | q in AboveSet(t, lane, p)
      ensures q in g[..k]
    {
      var e :| 0 <= e < |ps| && ps[e] == q;
      assert ps[e] < ps[j0] ==> e < j0;
      assert e != j0;
      assert Before(keys, e, j0);
      assert e in order;
      assert e in order[..k];
      var a :| 0 <= a < k && order[..k][a] == e;
      assert g[..k][a] == q;
    }
  }

  /**
    Cutting the index-ordered lane just before row p removes exactly AboveSet: every
    row of the lane with a smaller index, none with a larger one, and never p itself;
    the cut is empty exactly when p ranks first.
  */
  lemma SortedPrefixIsAbove(t: Table, lane: int, p: int, k: int)
    requires 0 <= k < |SortedLane(t, lane)| && SortedLane(t, lane)[k] == p
    ensures 0 <= p < |t|
    ensures forall q :: q in SortedLane(t, lane)[..k] <==> q in AboveSet(t, lane, p)
    ensures SortedLane(t, lane)[..k] == [] <==> AboveSet(t, lane, p) == {}
  {
    PrefixIsAbove(t, lane, p, k);
    AboveIsPrefix(t, lane, p, k);
    var cut := SortedLane(t, lane)[..k];
    if cut != [] {
      assert cut[0] in AboveSet(t, lane, p);
    }
    if AboveSet(t, lane, p) != {} {
      var q :| q in AboveSet(t, lane, p);
      assert q in cut;
    }
  }

  // ------------------------------------------------------ remove_points_below

  /** `lane_indices[lane_indices >= p]`. */
  function AtOrAfter(ps: seq<nat>, p: int): (r: seq<nat>)
    ensures forall q :: q in r <==> q in ps && q >= p
    ensures |r| <= |ps|
  {
    if ps == [] then []
    else (if ps[0] >= p then [ps[0]] else []) + AtOrAfter(ps[1..], p)
  }

  /** The rows `remove_points_below(p, lane)` deletes: the lane's rows at global position p or later. */
  function BelowSet(t: Table, lane: int, p: int): set<int> {
    set q | 0 <= q < |t| && q >= p && t[q].laneId == lane
  }

  lemma AtOrAfterIsBelow(t: Table, lane: int, p: int)
    ensures forall q :: q in AtOrAfter(LanePositions(t, lane), p) <==> q in BelowSet(t, lane, p)
  {
  }
}
