/**
  merge_lanes as a function of the table: the four-case directional splice of two
  lanes, the yaw recomputation, the renumbering, and the resizing of file_names.
*/
module Merging {
  import opened Wrappers
  import opened Rows
  import opened LaneOrder
  import opened Edits

  /** Why merge_lanes leaves the table alone. */
  datatype MergeError =
    | NoData            // `self.data.size == 0`
    | EmptyLane         // one of the two lanes has no rows
    | PointNotInLane    // `np.where(...)[0][0]` raises IndexError
    | UnknownPointTypes // none of the four branches binds `lane_2_part`

  /** The positions of the lane, in index order, together with the facts the merge relies on. */
  lemma SortedLaneFacts(t: Table, lane: int)
    ensures |SortedLane(t, lane)| == |LanePositions(t, lane)|
    ensures forall q :: 0 <= q < |t| && t[q].laneId == lane ==> q in SortedLane(t, lane)
    ensures forall a, b :: 0 <= a < b < |SortedLane(t, lane)| ==>
      t[SortedLane(t, lane)[a]].index <= t[SortedLane(t, lane)[b]].index
  {
    var ps := LanePositions(t, lane);
    var keys := Keys(t, ps);
    var order := Argsort(keys);
    var g := SortedLane(t, lane);
    assert g == seq(|order|, i requires 0 <= i < |order| => ps[order[i]]);
    forall q | 0 <= q < |t| && t[q].laneId == lane
      ensures q in g
    {
      var e :| 0 <= e < |ps| && ps[e] == q;
      assert e in order;
      var a :| 0 <= a < |order| && order[a] == e;
      assert g[a] == q;
    }
    forall a, b | 0 <= a < b < |g|
      ensures t[g[a]].index <= t[g[b]].index
    {
      assert Before(keys, order[a], order[b]);
    }
  }

  /** A row of the lane has a rank in the lane's index order. */
  lemma SortedLaneHolds(t: Table, lane: int, p: int)
    requires 0 <= p < |t| && t[p].laneId == lane
    ensures IndexOf(SortedLane(t, lane), p).Some?
  {
    SortedLaneFacts(t, lane);
  }

  /** With distinct index values, the lane in index order is strictly increasing in index. */
  lemma SortedLaneStrict(t: Table, lane: int)
    requires DistinctIndices(t, lane)
    ensures forall a, b :: 0 <= a < b < |SortedLane(t, lane)| ==>
      t[SortedLane(t, lane)[a]].index < t[SortedLane(t, lane)[b]].index
  {
    var ps := LanePositions(t, lane);
    var keys := Keys(t, ps);
    var order := Argsort(keys);
    var g := SortedLane(t, lane);
    assert g == seq(|order|, i requires 0 <= i < |order| => ps[order[i]]);
    forall a, b | 0 <= a < b < |g|
      ensures t[g[a]].index < t[g[b]].index
    {
      assert Before(keys, order[a], order[b]);
      assert order[a] != order[b];
      assert ps[order[a]] != ps[order[b]];
    }
  }

  /**
    With distinct index values there is only one way to order the lane by index: any
    listing of exactly the lane's rows in increasing index is the one the model takes,
    so the merge does not depend on how the sort breaks ties.
  */
  lemma SortedLaneUnique(t: Table, lane: int, g: seq<nat>)
    requires DistinctIndices(t, lane)
    requires forall i :: 0 <= i < |g| ==> g[i] < |t| && t[g[i]].laneId == lane
    requires forall q :: 0 <= q < |t| && t[q].laneId == lane ==> q in g
    requires forall a, b :: 0 <= a < b < |g| ==> t[g[a]].index < t[g[b]].index
    ensures g == SortedLane(t, lane)
  {
    SortedLaneFacts(t, lane);
    SortedLaneStrict(t, lane);
    SameListing(t, lane, g, SortedLane(t, lane));
  }

  /** Every index value of a listing of lane rows is an index value of a listing of the whole lane. */
  lemma KeysCovered(t: Table, lane: int, g: seq<nat>, s: seq<nat>)
    requires forall i :: 0 <= i < |g| ==> g[i] < |t| && t[g[i]].laneId == lane
    requires forall i :: 0 <= i < |s| ==> s[i] < |t|
    requires forall q :: 0 <= q < |t| && t[q].laneId == lane ==> q in s
    ensures forall x :: x in Keys(t, g) ==> x in Keys(t, s)
  {
    forall x | x in Keys(t, g)
      ensures x in Keys(t, s)
    {
      var i :| 0 <= i < |g| && Keys(t, g)[i] == x;
      assert g[i] in s;
      var j :| 0 <= j < |s| && s[j] == g[i];
      assert Keys(t, s)[j] == x;
    }
  }

  /** Two listings of exactly the lane's rows, both in increasing index, are the same. */
  lemma SameListing(t: Table, lane: int, g: seq<nat>, s: seq<nat>)
    requires DistinctIndices(t, lane)
    requires forall i :: 0 <= i < |g| ==> g[i] < |t| && t[g[i]].laneId == lane
    requires forall i :: 0 <= i < |s| ==> s[i] < |t| && t[s[i]].laneId == lane
    requires forall q :: 0 <= q < |t| && t[q].laneId == lane ==> q in g && q in s
    requires forall a, b :: 0 <= a < b < |g| ==> t[g[a]].index < t[g[b]].index
    requires forall a, b :: 0 <= a < b < |s| ==> t[s[a]].index < t[s[b]].index
    ensures g == s
  {
    var kg := Keys(t, g);
    var ks := Keys(t, s);
    KeysCovered(t, lane, g, s);
    KeysCovered(t, lane, s, g);
    IncreasingSameElements(kg, ks);
    forall i | 0 <= i < |g|
      ensures g[i] == s[i]
    {
      assert kg[i] == ks[i];
    }
  }

  /** `lane_data[np.argsort(lane_data[:, 4])]`: the lane's rows in index order. */
  function SortedRows(t: Table, lane: int): (s: Table)
    ensures |s| == |LanePositions(t, lane)|
  {
    SortedLaneFacts(t, lane);
    Pick(t, SortedLane(t, lane))
  }

  /** `lane_1_part`: through rank k for an "end", from rank k on otherwise. */
  function Part1(s1: Table, k: nat, ty1: string): (r: Table)
    requires k < |s1|
    ensures |r| == if ty1 == "end" then k + 1 else |s1| - k
    ensures forall i :: 0 <= i < |r| ==> r[i] == s1[(if ty1 == "end" then 0 else k) + i]
  {
    if ty1 == "end" then s1[..k + 1] else s1[k..]
  }

  /**
    `lane_2_part`: lane 2 as sorted when the two points are of different kinds, reversed
    when they are of the same kind, and unbound for any other pair.
  */
  function Part2(s2: Table, ty1: string, ty2: string): (r: Option<Table>)
    ensures r.Some? <==> KnownPair(ty1, ty2)
    ensures r.Some? ==> |r.value| == |s2|
  {
    if ty2 == "start" && ty1 == "end" then Some(s2)
    else if ty2 == "end" && ty1 == "start" then Some(s2)
    else if ty2 == "start" && ty1 == "start" then Some(Reverse(s2))
    else if ty2 == "end" && ty1 == "end" then Some(Reverse(s2))
    else None
  }

  /** The four pairs the merge handles. */
  predicate KnownPair(ty1: string, ty2: string) {
    (ty1 == "end" || ty1 == "start") && (ty2 == "end" || ty2 == "start")
  }

  /** `merged_data[:, -1] = lane`. */
  function SetLane(s: Table, lane: int): (r: Table)
    ensures |r| == |s|
  {
    seq(|s|, i requires 0 <= i < |s| => s[i].(laneId := lane))
  }

  /**
    `np.vstack([lane_1_part, lane_2_part])` with every row moved to the lane; None when
    the pair of point kinds binds no lane-2 part.
  */
  function Splice(s1: Table, s2: Table, k: nat, ty1: string, ty2: string, lane: int): (r: Option<Table>)
    requires k < |s1|
    ensures r.Some? <==> KnownPair(ty1, ty2)
  {
    match Part2(s2, ty1, ty2)
    case None => None
    case Some(part2) => Some(SetLane(Part1(s1, k, ty1) + part2, lane))
  }

  /** The merged segment before yaw and numbering, or why the merge gives up. */
  function MergeSegment(t: Table, lane1: int, lane2: int, p1: int, p2: int, ty1: string, ty2: string)
    : (r: Result<Table, MergeError>)
    ensures r == Err(NoData) <==> t == []
    ensures r.Ok? ==> KnownPair(ty1, ty2)
  {
    if t == [] then Err(NoData)
    else
      var ps1 := LanePositions(t, lane1);
      var ps2 := LanePositions(t, lane2);
      if ps1 == [] || ps2 == [] then Err(EmptyLane)
      else
        var s1 := SortedRows(t, lane1);
        var s2 := SortedRows(t, lane2);
        match (IndexOf(ps1, p1), IndexOf(ps2, p2))
        case (Some(k1), Some(_)) =>
          (match Splice(s1, s2, k1, ty1, ty2, lane1)
           case None => Err(UnknownPointTypes)
           case Some(seg) => Ok(seg))
        case _ => Err(PointNotInLane)
  }

  /** `np.arctan2(dy, dx)` from row i toward row i + 1. */
  function Heading(s: Table, i: nat, atan2: (real, real) -> real): real
    requires i + 1 < |s|
  {
    atan2(s[i + 1].y - s[i].y, s[i + 1].x - s[i].x)
  }

  /** The yaw column after the loop and the final copy of the second-to-last yaw. */
  function WithYaw(s: Table, atan2: (real, real) -> real): (r: Table)
    ensures |r| == |s|
    ensures forall i :: 0 <= i < |r| ==>
      && r[i].x == s[i].x && r[i].y == s[i].y && r[i].laneId == s[i].laneId
      && r[i].index == s[i].index && r[i].frameIdx == s[i].frameIdx
    ensures forall i {:trigger Heading(s, i, atan2)} :: 0 <= i < |r| - 1 ==> r[i].yaw == Heading(s, i, atan2)
    ensures |r| > 1 ==> r[|r| - 1].yaw == r[|r| - 2].yaw
    ensures |r| == 1 ==> r[0].yaw == 0.0
  {
    seq(|s|, i requires 0 <= i < |s| =>
      s[i].(yaw := if i + 1 < |s| then Heading(s, i, atan2)
                   else if |s| > 1 then Heading(s, |s| - 2, atan2)
                   else 0.0))
  }

  /** `~np.logical_or(lane_1_mask, lane_2_mask)`. */
  function OtherMask(t: Table, lane1: int, lane2: int): seq<bool> {
    seq(|t|, i requires 0 <= i < |t| => !(t[i].laneId == lane1 || t[i].laneId == lane2))
  }

  /** Every row that belongs to neither lane, in table order, unchanged. */
  function OtherRows(t: Table, lane1: int, lane2: int): (r: Table)
    ensures forall k :: 0 <= k < |r| ==> r[k].laneId != lane1 && r[k].laneId != lane2
  {
    var o := Filter(t, OtherMask(t, lane1, lane2));
    OtherRowsFrom(t, lane1, lane2, o);
    o
  }

  /** Each row the other-lanes mask selects is a row of the table in neither lane. */
  lemma OtherRowsFrom(t: Table, lane1: int, lane2: int, o: Table)
    requires o == Filter(t, OtherMask(t, lane1, lane2))
    ensures forall k :: 0 <= k < |o| ==> o[k].laneId != lane1 && o[k].laneId != lane2
  {
    var mask := OtherMask(t, lane1, lane2);
    forall k | 0 <= k < |o|
      ensures o[k].laneId != lane1 && o[k].laneId != lane2
    {
      FilterFrom(t, mask, k);
    }
  }

  /**
    The finishing steps after the splice: yaw pointing from each row to the next (the last row
    repeating the one before) and the segment numbered 0 .. N-1.
  */
  function Finish(seg: Table, atan2: (real, real) -> real): (m: Table)
    ensures |m| == |seg|
    ensures forall k :: 0 <= k < |m| ==>
      && m[k].laneId == seg[k].laneId && m[k].x == seg[k].x && m[k].y == seg[k].y
      && m[k].index == k && m[k].frameIdx == k
    ensures forall k :: 0 <= k < |m| - 1 ==> m[k].yaw == Heading(m, k, atan2)
    ensures |m| > 1 ==> m[|m| - 1].yaw == m[|m| - 2].yaw
  {
    FinishColumns(seg, atan2);
    FinishHeadings(seg, atan2);
    Renumber(WithYaw(seg, atan2))
  }

  lemma FinishColumns(seg: Table, atan2: (real, real) -> real)
    ensures var m := Renumber(WithYaw(seg, atan2));
      && |m| == |seg|
      && (forall k :: 0 <= k < |m| ==>
          && m[k].laneId == seg[k].laneId && m[k].x == seg[k].x && m[k].y == seg[k].y
          && m[k].index == k && m[k].frameIdx == k)
      && (|m| > 1 ==> m[|m| - 1].yaw == m[|m| - 2].yaw)
  {
    var w := WithYaw(seg, atan2);
    var m := Renumber(w);
    if |m| > 1 {
      assert m[|m| - 1].yaw == w[|m| - 1].yaw == Heading(seg, |m| - 2, atan2) == w[|m| - 2].yaw;
    }
  }

  lemma FinishHeadings(seg: Table, atan2: (real, real) -> real)
    ensures var m := Renumber(WithYaw(seg, atan2));
      forall k :: 0 <= k < |m| - 1 ==> m[k].yaw == Heading(m, k, atan2)
  {
    var w := WithYaw(seg, atan2);
    var m := Renumber(w);
    forall k | 0 <= k < |m| - 1
      ensures m[k].yaw == Heading(m, k, atan2)
    {
      assert m[k].yaw == w[k].yaw == Heading(seg, k, atan2);
    }
  }

  /**
    The table merge_lanes commits: the finished segment, all of it in lane 1, followed
    by the rows of every other lane as they were.
  */
  function MergedTable(t: Table, lane1: int, lane2: int, p1: int, p2: int, ty1: string, ty2: string,
                       atan2: (real, real) -> real): (r: Result<Table, MergeError>)
    ensures r.Err? <==> MergeSegment(t, lane1, lane2, p1, p2, ty1, ty2).Err?
    ensures r.Ok? ==>
      var seg := MergeSegment(t, lane1, lane2, p1, p2, ty1, ty2).value;
      && r.value == Finish(seg, atan2) + OtherRows(t, lane1, lane2)
      && forall k :: 0 <= k < |seg| ==> r.value[k].laneId == lane1
  {
    match MergeSegment(t, lane1, lane2, p1, p2, ty1, ty2)
    case Err(e) => Err(e)
    case Ok(seg) =>
      SegmentContents(t, lane1, lane2, p1, p2, ty1, ty2);
      Ok(Finish(seg, atan2) + OtherRows(t, lane1, lane2))
  }

  /**
    merge_lanes gives up exactly when the table is empty, a lane is empty, a picked point
    is not a row of its lane, or the pair of point kinds is none of the four cases.
  */
  lemma MergeFailsIff(t: Table, lane1: int, lane2: int, p1: int, p2: int, ty1: string, ty2: string)
    ensures MergeSegment(t, lane1, lane2, p1, p2, ty1, ty2).Err? <==>
      || t == []
      || (forall q :: 0 <= q < |t| ==> t[q].laneId != lane1)
      || (forall q :: 0 <= q < |t| ==> t[q].laneId != lane2)
      || !(0 <= p1 < |t| && t[p1].laneId == lane1)
      || !(0 <= p2 < |t| && t[p2].laneId == lane2)
      || !KnownPair(ty1, ty2)
  {
    var ps1 := LanePositions(t, lane1);
    var ps2 := LanePositions(t, lane2);
    if ps1 != [] {
      assert ps1[0] in ps1;
    }
    if ps2 != [] {
      assert ps2[0] in ps2;
    }
  }

  /** The rows of s, from position a on, are in non-decreasing index order. */
  predicate Ascending(s: Table) {
    forall a, b :: 0 <= a < b < |s| ==> s[a].index <= s[b].index
  }

  /** The rows of s are in non-increasing index order. */
  predicate Descending(s: Table) {
    forall a, b :: 0 <= a < b < |s| ==> s[a].index >= s[b].index
  }

  /** The rows of s at positions lo .. hi-1 are in non-decreasing index order. */
  predicate AscendingOn(s: Table, lo: int, hi: int) {
    forall a, b :: lo <= a < b < hi && 0 <= a && b < |s| ==> s[a].index <= s[b].index
  }

  /** The rows of s at positions lo .. hi-1 are in non-increasing index order. */
  predicate DescendingOn(s: Table, lo: int, hi: int) {
    forall a, b :: lo <= a < b < hi && 0 <= a && b < |s| ==> s[a].index >= s[b].index
  }

  /** The lane's rows in index order are ascending in index. */
  lemma SortedRowsAscending(t: Table, lane: int)
    ensures Ascending(SortedRows(t, lane))
  {
    var s := SortedRows(t, lane);
    var g := SortedLane(t, lane);
    SortedLaneFacts(t, lane);
    forall a, b | 0 <= a < b < |s|
      ensures s[a].index <= s[b].index
    {
      assert s[a] == t[g[a]] && s[b] == t[g[b]];
    }
  }

  /** The lane's rows in index order hold every row of the lane. */
  lemma SortedRowsComplete(t: Table, lane: int)
    ensures forall q :: 0 <= q < |t| && t[q].laneId == lane ==> t[q] in SortedRows(t, lane)
  {
    var s := SortedRows(t, lane);
    var g := SortedLane(t, lane);
    SortedLaneFacts(t, lane);
    forall q | 0 <= q < |t| && t[q].laneId == lane
      ensures t[q] in s
    {
      var a :| 0 <= a < |g| && g[a] == q;
      assert s[a] == t[q];
    }
  }

  /** A successful splice is the lane-1 part followed by the lane-2 part, relabelled. */
  lemma SegmentParts(t: Table, lane1: int, lane2: int, p1: int, p2: int, ty1: string, ty2: string)
    requires MergeSegment(t, lane1, lane2, p1, p2, ty1, ty2).Ok?
    ensures var ps1 := LanePositions(t, lane1);
      && p1 in ps1 && KnownPair(ty1, ty2)
      && IndexOf(ps1, p1).value < |SortedRows(t, lane1)|
      && MergeSegment(t, lane1, lane2, p1, p2, ty1, ty2).value ==
         Splice(SortedRows(t, lane1), SortedRows(t, lane2), IndexOf(ps1, p1).value, ty1, ty2, lane1).value
  {
    var ps1 := LanePositions(t, lane1);
    var ps2 := LanePositions(t, lane2);
    assert t != [] && ps1 != [] && ps2 != [];
    assert IndexOf(ps1, p1).Some? && IndexOf(ps2, p2).Some?;
  }

  /** Relabelling a concatenation relabels each half. */
  lemma SetLaneSplit(a: Table, b: Table, lane: int)
    ensures SetLane(a + b, lane)[..|a|] == SetLane(a, lane)
    ensures SetLane(a + b, lane)[|a|..] == SetLane(b, lane)
  {
  }

  /** The lane-2 part: lane 2 in index order for different kinds, reversed for equal kinds. */
  lemma Part2Order(s2: Table, ty1: string, ty2: string)
    requires KnownPair(ty1, ty2) && Ascending(s2)
    ensures |Part2(s2, ty1, ty2).value| == |s2|
    ensures ty1 == ty2 ==> Descending(Part2(s2, ty1, ty2).value)
    ensures ty1 != ty2 ==> Ascending(Part2(s2, ty1, ty2).value)
    ensures forall row :: row in s2 ==> row in Part2(s2, ty1, ty2).value
  {
    var part2 := Part2(s2, ty1, ty2).value;
    if ty1 == ty2 {
      assert part2 == Reverse(s2);
      forall row | row in s2
        ensures row in part2
      {
        var a :| 0 <= a < |s2| && s2[a] == row;
        assert part2[|s2| - 1 - a] == row;
      }
    }
  }

  /** The lane-1 part is a slice of lane 1 in index order, hence in index order itself. */
  lemma Part1Order(s1: Table, k: nat, ty1: string)
    requires k < |s1| && Ascending(s1)
    ensures |Part1(s1, k, ty1)| == if ty1 == "end" then k + 1 else |s1| - k
    ensures Ascending(Part1(s1, k, ty1))
  {
  }

  /** Relabelling keeps every row apart from its lane. */
  lemma SetLaneMembers(s: Table, lane: int)
    ensures forall row :: row in s ==> row.(laneId := lane) in SetLane(s, lane)
  {
    forall row | row in s
      ensures row.(laneId := lane) in SetLane(s, lane)
    {
      var a :| 0 <= a < |s| && s[a] == row;
      assert SetLane(s, lane)[a] == row.(laneId := lane);
    }
  }

  /** The splice of two index-ordered lanes: its length, its lane and its lane-2 rows. */
  lemma SpliceContents(s1: Table, s2: Table, k: nat, ty1: string, ty2: string, lane: int)
    requires k < |s1| && KnownPair(ty1, ty2) && Ascending(s1) && Ascending(s2)
    ensures var seg := Splice(s1, s2, k, ty1, ty2, lane).value;
      && |seg| == (if ty1 == "end" then k + 1 else |s1| - k) + |s2|
      && (forall i :: 0 <= i < |seg| ==> seg[i].laneId == lane)
      && (forall row :: row in s2 ==> row.(laneId := lane) in seg[|seg| - |s2|..])
  {
    var part1 := Part1(s1, k, ty1);
    var part2 := Part2(s2, ty1, ty2).value;
    Part1Order(s1, k, ty1);
    Part2Order(s2, ty1, ty2);
    SetLaneSplit(part1, part2, lane);
    SetLaneMembers(part2, lane);
    assert Splice(s1, s2, k, ty1, ty2, lane).value == SetLane(part1 + part2, lane);
  }

  /** Relabelling a concatenation keeps the index order of each of its two halves. */
  lemma SetLaneHalvesOrder(a: Table, b: Table, lane: int)
    requires Ascending(a)
    ensures |SetLane(a + b, lane)| == |a| + |b|
    ensures AscendingOn(SetLane(a + b, lane), 0, |a|)
    ensures Ascending(b) ==> AscendingOn(SetLane(a + b, lane), |a|, |a| + |b|)
    ensures Descending(b) ==> DescendingOn(SetLane(a + b, lane), |a|, |a| + |b|)
  {
    var seg := SetLane(a + b, lane);
    forall i | |a| <= i < |seg|
      ensures seg[i].index == b[i - |a|].index
    {
    }
  }

  /** The splice of two index-ordered lanes: the order of each of its two parts. */
  lemma SpliceOrder(s1: Table, s2: Table, k: nat, ty1: string, ty2: string, lane: int)
    requires k < |s1| && KnownPair(ty1, ty2) && Ascending(s1) && Ascending(s2)
    ensures var seg := Splice(s1, s2, k, ty1, ty2, lane).value;
      && |s2| <= |seg|
      && AscendingOn(seg, 0, |seg| - |s2|)
      && (ty1 == ty2 ==> DescendingOn(seg, |seg| - |s2|, |seg|))
      && (ty1 != ty2 ==> AscendingOn(seg, |seg| - |s2|, |seg|))
  {
    var part1 := Part1(s1, k, ty1);
    var part2 := Part2(s2, ty1, ty2).value;
    assert Splice(s1, s2, k, ty1, ty2, lane).value == SetLane(part1 + part2, lane);
    Part1Order(s1, k, ty1);
    Part2Order(s2, ty1, ty2);
    SetLaneHalvesOrder(part1, part2, lane);
  }

  /**
    What a successful splice holds: the lane-1 part (through p1's rank for an "end",
    from it otherwise) followed by every row of lane 2, all of it relabelled to lane 1.
  */
  lemma SegmentContents(t: Table, lane1: int, lane2: int, p1: int, p2: int, ty1: string, ty2: string)
    requires MergeSegment(t, lane1, lane2, p1, p2, ty1, ty2).Ok?
    ensures var seg := MergeSegment(t, lane1, lane2, p1, p2, ty1, ty2).value;
      var ps1 := LanePositions(t, lane1);
      var n2 := |LanePositions(t, lane2)|;
      && p1 in ps1 && n2 > 0
      && |seg| == (if ty1 == "end" then IndexOf(ps1, p1).value + 1 else |ps1| - IndexOf(ps1, p1).value) + n2
      && (forall i :: 0 <= i < |seg| ==> seg[i].laneId == lane1)
      && (forall q :: 0 <= q < |t| && t[q].laneId == lane2 ==> t[q].(laneId := lane1) in seg[|seg| - n2..])
  {
    SegmentParts(t, lane1, lane2, p1, p2, ty1, ty2);
    var ps1 := LanePositions(t, lane1);
    var k1 := IndexOf(ps1, p1).value;
    var s1 := SortedRows(t, lane1);
    var s2 := SortedRows(t, lane2);
    var seg := MergeSegment(t, lane1, lane2, p1, p2, ty1, ty2).value;
    assert seg == Splice(s1, s2, k1, ty1, ty2, lane1).value;
    assert |s2| == |LanePositions(t, lane2)| && |s1| == |ps1|;
    SortedRowsAscending(t, lane1);
    SortedRowsAscending(t, lane2);
    SortedRowsComplete(t, lane2);
    SpliceContents(s1, s2, k1, ty1, ty2, lane1);
    forall q | 0 <= q < |t| && t[q].laneId == lane2
      ensures t[q].(laneId := lane1) in seg[|seg| - |s2|..]
    {
      assert t[q] in s2;
    }
  }

  /**
    The order of a successful splice: the lane-1 part in index order, then lane 2 in
    index order when the two points are of different kinds and in reverse index order
    when they are of the same kind.
  */
  lemma SegmentOrder(t: Table, lane1: int, lane2: int, p1: int, p2: int, ty1: string, ty2: string)
    requires MergeSegment(t, lane1, lane2, p1, p2, ty1, ty2).Ok?
    ensures var seg := MergeSegment(t, lane1, lane2, p1, p2, ty1, ty2).value;
      var n2 := |LanePositions(t, lane2)|;
      && n2 <= |seg|
      && AscendingOn(seg, 0, |seg| - n2)
      && (ty1 == ty2 ==> DescendingOn(seg, |seg| - n2, |seg|))
      && (ty1 != ty2 ==> AscendingOn(seg, |seg| - n2, |seg|))
  {
    SegmentParts(t, lane1, lane2, p1, p2, ty1, ty2);
    var ps1 := LanePositions(t, lane1);
    var k1 := IndexOf(ps1, p1).value;
    var s1 := SortedRows(t, lane1);
    var s2 := SortedRows(t, lane2);
    var seg := MergeSegment(t, lane1, lane2, p1, p2, ty1, ty2).value;
    assert seg == Splice(s1, s2, k1, ty1, ty2, lane1).value;
    assert |s2| == |LanePositions(t, lane2)|;
    SortedRowsAscending(t, lane1);
    SortedRowsAscending(t, lane2);
    SpliceOrder(s1, s2, k1, ty1, ty2, lane1);
  }

  /** The rows of the other lanes, in table order and unchanged, and nothing else. */
  lemma OtherRowsExactly(t: Table, lane1: int, lane2: int)
    ensures forall k :: 0 <= k < |OtherRows(t, lane1, lane2)| ==>
      OtherRows(t, lane1, lane2)[k] in t &&
      OtherRows(t, lane1, lane2)[k].laneId != lane1 && OtherRows(t, lane1, lane2)[k].laneId != lane2
    ensures forall j :: 0 <= j < |t| && t[j].laneId != lane1 && t[j].laneId != lane2 ==>
      t[j] in OtherRows(t, lane1, lane2)
    ensures forall lane :: lane != lane1 && lane != lane2 ==>
      LaneIndices(OtherRows(t, lane1, lane2), lane) == LaneIndices(t, lane)
    ensures Consistent(t) ==> Consistent(OtherRows(t, lane1, lane2))
  {
    var mask := OtherMask(t, lane1, lane2);
    var o := OtherRows(t, lane1, lane2);
    assert o == Filter(t, mask);
    forall k | 0 <= k < |o|
      ensures o[k] in t
    {
      FilterFrom(t, mask, k);
    }
    forall j | 0 <= j < |t| && t[j].laneId != lane1 && t[j].laneId != lane2
      ensures t[j] in o
    {
      FilterPlaces(t, mask, j);
    }
    forall lane | lane != lane1 && lane != lane2
      ensures LaneIndices(o, lane) == LaneIndices(t, lane)
    {
      FilterLaneIndices(t, mask, lane);
    }
  }

  /**
    After a merge, lane 1 is numbered 0 .. N-1 in table order whatever held before, lane 2 is gone when it differs from lane 1, and every other lane keeps its
    index values in their old order.
  */
  lemma MergeRenumbersLanes(t: Table, lane1: int, lane2: int, p1: int, p2: int, ty1: string, ty2: string,
                            atan2: (real, real) -> real)
    requires MergedTable(t, lane1, lane2, p1, p2, ty1, ty2, atan2).Ok?
    ensures var r := MergedTable(t, lane1, lane2, p1, p2, ty1, ty2, atan2).value;
      && LaneIndices(r, lane1) == Iota(|MergeSegment(t, lane1, lane2, p1, p2, ty1, ty2).value|)
      && Contiguous(r, lane1)
      && (lane2 != lane1 ==> LaneIndices(r, lane2) == [])
      && (forall lane :: lane != lane1 && lane != lane2 ==> LaneIndices(r, lane) == LaneIndices(t, lane))
  {
    var seg := MergeSegment(t, lane1, lane2, p1, p2, ty1, ty2).value;
    SegmentContents(t, lane1, lane2, p1, p2, ty1, ty2);
    OtherRowsExactly(t, lane1, lane2);
    var m := Finish(seg, atan2);
    var o := OtherRows(t, lane1, lane2);
    assert MergedTable(t, lane1, lane2, p1, p2, ty1, ty2, atan2).value == m + o;
    AppendedLaneIndices(m, o, lane1, lane2);
  }

  /**
    A block of rows of lane1 numbered 0 .. |m|-1, followed by rows of neither lane:
    lane1's index column is 0 .. |m|-1, lane2 has no rows, other lanes are those of o.
  */
  lemma AppendedLaneIndices(m: Table, o: Table, lane1: int, lane2: int)
    requires forall k :: 0 <= k < |m| ==> m[k].laneId == lane1 && m[k].index == k
    requires forall k :: 0 <= k < |o| ==> o[k].laneId != lane1 && o[k].laneId != lane2
    ensures LaneIndices(m + o, lane1) == Iota(|m|)
    ensures lane2 != lane1 ==> LaneIndices(m + o, lane2) == []
    ensures forall lane :: lane != lane1 && lane != lane2 ==> LaneIndices(m + o, lane) == LaneIndices(o, lane)
  {
    LaneIndicesAll(m, lane1);
    assert LaneIndices(m, lane1) == Iota(|m|);
    LaneIndicesNone(o, lane1);
    LaneIndicesAppend(m, o, lane1);
    if lane2 != lane1 {
      LaneIndicesNone(m, lane2);
      LaneIndicesNone(o, lane2);
      LaneIndicesAppend(m, o, lane2);
    }
    forall lane | lane != lane1 && lane != lane2
      ensures LaneIndices(m + o, lane) == LaneIndices(o, lane)
    {
      LaneIndicesNone(m, lane);
      LaneIndicesAppend(m, o, lane);
    }
  }

  /** A merge keeps frame_idx equal to index and never leaves the table empty. */
  lemma MergeKeepsConsistent(t: Table, lane1: int, lane2: int, p1: int, p2: int, ty1: string, ty2: string,
                             atan2: (real, real) -> real)
    requires Consistent(t)
    requires MergedTable(t, lane1, lane2, p1, p2, ty1, ty2, atan2).Ok?
    ensures Consistent(MergedTable(t, lane1, lane2, p1, p2, ty1, ty2, atan2).value)
    ensures MergedTable(t, lane1, lane2, p1, p2, ty1, ty2, atan2).value != []
  {
    var seg := MergeSegment(t, lane1, lane2, p1, p2, ty1, ty2).value;
    SegmentContents(t, lane1, lane2, p1, p2, ty1, ty2);
    OtherRowsExactly(t, lane1, lane2);
    var m := Finish(seg, atan2);
    var o := OtherRows(t, lane1, lane2);
    assert MergedTable(t, lane1, lane2, p1, p2, ty1, ty2, atan2).value == m + o;
    assert |m| > 0;
  }

  /** The lane's index column increases strictly with position (so both orders agree). */
  predicate IndexFollowsPosition(t: Table, lane: int) {
    var ps := LanePositions(t, lane);
    forall a, b :: 0 <= a < b < |ps| ==> t[ps[a]].index < t[ps[b]].index
  }

  /** When a lane's index column follows its positions, ordering it by index changes nothing. */
  lemma SortedLaneInPlace(t: Table, lane: int)
    requires IndexFollowsPosition(t, lane)
    ensures SortedLane(t, lane) == LanePositions(t, lane)
  {
    var ps := LanePositions(t, lane);
    var keys := Keys(t, ps);
    ArgsortSorted(keys);
    var order := Argsort(keys);
    assert SortedLane(t, lane) == seq(|order|, i requires 0 <= i < |order| => ps[order[i]]);
  }

  /**
    The cut of lane 1 is taken at p1's rank among the lane's positions but applied to
    the lane ordered by index; when the two orders agree, the lane-1 part ends at p1
    (for an "end") or starts at p1 (otherwise), so p1 is where the two lanes meet.
  */
  lemma CutAtPoint(t: Table, lane1: int, lane2: int, p1: int, p2: int, ty1: string, ty2: string)
    requires MergeSegment(t, lane1, lane2, p1, p2, ty1, ty2).Ok?
    requires IndexFollowsPosition(t, lane1)
    ensures var seg := MergeSegment(t, lane1, lane2, p1, p2, ty1, ty2).value;
      var cut := |seg| - |LanePositions(t, lane2)|;
      && 0 <= p1 < |t| && 0 < cut <= |seg|
      && (ty1 == "end" ==> seg[cut - 1] == t[p1].(laneId := lane1))
      && (ty1 != "end" ==> seg[0] == t[p1].(laneId := lane1))
  {
    SegmentParts(t, lane1, lane2, p1, p2, ty1, ty2);
    SortedLaneInPlace(t, lane1);
    var ps1 := LanePositions(t, lane1);
    var k1 := IndexOf(ps1, p1).value;
    var s1 := SortedRows(t, lane1);
    assert s1[k1] == t[p1];
    var part1 := Part1(s1, k1, ty1);
    var part2 := Part2(SortedRows(t, lane2), ty1, ty2).value;
    SetLaneSplit(part1, part2, lane1);
    var seg := SetLane(part1 + part2, lane1);
    assert Splice(s1, SortedRows(t, lane2), k1, ty1, ty2, lane1).value == seg;
    assert |part2| == |LanePositions(t, lane2)|;
    assert |seg| - |LanePositions(t, lane2)| == |part1| > 0;
    if ty1 == "end" {
      assert part1[|part1| - 1] == t[p1];
      assert seg[|part1| - 1] == SetLane(part1, lane1)[|part1| - 1];
    } else {
      assert part1[0] == t[p1];
      assert seg[0] == SetLane(part1, lane1)[0];
    }
  }
}
