/**
  The point table: rows of six columns (x, y, yaw, frame_idx, index, lane_id)
  and the row-selection helpers the editing operations are built from
  (boolean masks, `np.where` positions, fancy indexing).
*/
module Rows {

  /** One point record. Coordinates and yaw are opaque reals; the last three columns are integers. */
  datatype Row = Row(x: real, y: real, yaw: real, frameIdx: int, index: int, laneId: int)

  /** The three columns that backups keep. */
  datatype Pose = Pose(x: real, y: real, yaw: real)

  /** A table in global row order; both empty numpy shapes of the source are []. */
  type Table = seq<Row>

  /** The legacy frame_idx column equals the index column in every row. */
  predicate Consistent(t: Table) {
    forall i :: 0 <= i < |t| ==> t[i].frameIdx == t[i].index
  }

  /** `data[:, :3]`: the columns a backup writes. */
  function Project(t: Table): seq<Pose> {
    seq(|t|, i requires 0 <= i < |t| => Pose(t[i].x, t[i].y, t[i].yaw))
  }

  /** `data[:, 3] = data[:, 4] = np.arange(len(data))`. */
  function Renumber(s: Table): (r: Table)
    ensures |r| == |s| && Consistent(r)
    ensures forall k :: 0 <= k < |r| ==> r[k] == s[k].(frameIdx := k, index := k)
  {
    seq(|s|, k requires 0 <= k < |s| => s[k].(frameIdx := k, index := k))
  }

  /** 0, 1, ..., n - 1. */
  function Iota(n: nat): seq<int> {
    seq(n, i => i)
  }

  /** Number of true entries of a mask. */
  function CountTrue(b: seq<bool>): (c: nat)
    ensures c <= |b|
  {
    if b == [] then 0 else (if b[0] then 1 else 0) + CountTrue(b[1..])
  }

  /** `t[mask]`: the rows whose mask entry is true, in table order. */
  function Filter(t: Table, keep: seq<bool>): (r: Table)
    requires |keep| == |t|
    ensures |r| == CountTrue(keep)
  {
    if t == [] then [] else (if keep[0] then [t[0]] else []) + Filter(t[1..], keep[1..])
  }

  /** A kept row lands at the position given by the number of kept rows before it. */
  lemma {:induction false} FilterPlaces(t: Table, keep: seq<bool>, j: int)
    requires |keep| == |t| && 0 <= j < |t| && keep[j]
    ensures CountTrue(keep[..j]) < |Filter(t, keep)|
    ensures Filter(t, keep)[CountTrue(keep[..j])] == t[j]
  {
    if j == 0 {
      assert keep[..0] == [];
    } else {
      FilterPlaces(t[1..], keep[1..], j - 1);
      assert keep[..j][1..] == keep[1..][..j - 1];
    }
  }

  /** Every row of a filtered table is a kept row of the original. */
  lemma {:induction false} FilterFrom(t: Table, keep: seq<bool>, k: int)
    requires |keep| == |t| && 0 <= k < |Filter(t, keep)|
    ensures exists j :: 0 <= j < |t| && keep[j] && Filter(t, keep)[k] == t[j]
  {
    if keep[0] && k == 0 {
      assert keep[0] && Filter(t, keep)[0] == t[0];
    } else {
      var k' := if keep[0] then k - 1 else k;
      FilterFrom(t[1..], keep[1..], k');
      var j :| 0 <= j < |t| - 1 && keep[1..][j] && Filter(t[1..], keep[1..])[k'] == t[1..][j];
      assert keep[j + 1] && Filter(t, keep)[k] == t[j + 1];
    }
  }

  /** `np.where(data[:, -1] == lane)[0]`: the positions of the lane's rows, ascending. */
  function LanePositions(t: Table, lane: int): (ps: seq<nat>)
    ensures forall i :: 0 <= i < |ps| ==> ps[i] < |t| && t[ps[i]].laneId == lane
    ensures forall q :: 0 <= q < |t| && t[q].laneId == lane ==> q in ps
    ensures forall i, j :: 0 <= i < j < |ps| ==> ps[i] < ps[j]
    decreases |t|
  {
    if t == [] then []
    else
      var ps' := LanePositions(t[..|t| - 1], lane);
      if t[|t| - 1].laneId == lane then ps' + [|t| - 1] else ps'
  }

  /** `t[ps]`: fancy indexing by a list of positions. */
  function Pick(t: Table, ps: seq<nat>): (r: Table)
    requires forall i :: 0 <= i < |ps| ==> ps[i] < |t|
    ensures |r| == |ps|
  {
    seq(|ps|, i requires 0 <= i < |ps| => t[ps[i]])
  }

  /** `s[::-1]`. */
  function Reverse<T>(s: seq<T>): (r: seq<T>)
    ensures |r| == |s|
    ensures forall i :: 0 <= i < |s| ==> r[i] == s[|s| - 1 - i]
  {
    if s == [] then [] else Reverse(s[1..]) + [s[0]]
  }

  /** The index column of a lane's rows, in table order. */
  function LaneIndices(t: Table, lane: int): seq<int> {
    if t == [] then []
    else (if t[0].laneId == lane then [t[0].index] else []) + LaneIndices(t[1..], lane)
  }

  /** A lane numbered contiguously: its index values are exactly 0 .. count-1, each once. */
  predicate Contiguous(t: Table, lane: int) {
    var ixs := LaneIndices(t, lane);
    multiset(ixs) == multiset(Iota(|ixs|))
  }

  lemma {:induction false} LaneIndicesAppend(a: Table, b: Table, lane: int)
    ensures LaneIndices(a + b, lane) == LaneIndices(a, lane) + LaneIndices(b, lane)
  {
    if a != [] {
      assert (a + b)[1..] == a[1..] + b;
      LaneIndicesAppend(a[1..], b, lane);
    } else {
      assert a + b == b;
    }
  }

  /** The index column of a table all of whose rows are in the lane. */
  lemma {:induction false} LaneIndicesAll(s: Table, lane: int)
    requires forall k :: 0 <= k < |s| ==> s[k].laneId == lane
    ensures LaneIndices(s, lane) == seq(|s|, k requires 0 <= k < |s| => s[k].index)
  {
    if s != [] {
      LaneIndicesAll(s[1..], lane);
    }
  }

  /** A table with no row in the lane has no index values for it. */
  lemma {:induction false} LaneIndicesNone(s: Table, lane: int)
    requires forall k :: 0 <= k < |s| ==> s[k].laneId != lane
    ensures LaneIndices(s, lane) == []
  {
    if s != [] {
      LaneIndicesNone(s[1..], lane);
    }
  }

  /** Filtering with a mask that keeps every row of the lane leaves the lane's index values as they were. */
  lemma {:induction false} FilterLaneIndices(t: Table, keep: seq<bool>, lane: int)
    requires |keep| == |t|
    requires forall i :: 0 <= i < |t| && t[i].laneId == lane ==> keep[i]
    ensures LaneIndices(Filter(t, keep), lane) == LaneIndices(t, lane)
  {
    if t != [] {
      FilterLaneIndices(t[1..], keep[1..], lane);
      var head := if keep[0] then [t[0]] else [];
      LaneIndicesAppend(head, Filter(t[1..], keep[1..]), lane);
      if keep[0] {
        assert LaneIndices(head, lane) == (if t[0].laneId == lane then [t[0].index] else []) by {
          assert head[1..] == [];
        }
      }
    }
  }
}
