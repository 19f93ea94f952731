/**
  The lane-editing engine: a table of points, the stack of snapshots behind undo and
  redo, the file-name list and the backup clock. Every edit that goes through commits
  a snapshot, empties the redo stack and gives the backup hook its turn; an edit that
  is refused or raises inside its `try` leaves everything as it was.
*/
module Manager {
  import opened Wrappers
  import opened Rows
  import opened LaneOrder
  import opened Loading
  import opened Edits
  import opened Merging
  import opened LaneNames
  import opened Versions
  import opened Backup

  /**
    The manager's invariant on values: there is a current snapshot and it is the table;
    every snapshot keeps frame_idx equal to index; a manager built from an empty array
    (no columns) only ever holds empty tables.
  */
  predicate Coherent(data: Table, v: Stacks, cols: nat) {
    && Live(v)
    && data == Current(v)
    && (cols == 0 || cols == 6)
    && AllConsistent(v)
    && (cols == 0 ==> AllEmpty(v))
  }

  /** Committing a table that keeps the invariant's demands keeps the invariant. */
  lemma CommitKeepsCoherent(data: Table, v: Stacks, cols: nat, t: Table)
    requires Coherent(data, v, cols) && Consistent(t) && (cols == 0 ==> t == [])
    ensures Coherent(t, Commit(v, t), cols)
  {
    CommitKeepsSnapshots(v, t);
  }

  /** Undo keeps the invariant, the new table being the new top of history. */
  lemma UndoKeepsCoherent(data: Table, v: Stacks, cols: nat)
    requires Coherent(data, v, cols) && CanUndo(v)
    ensures Coherent(Current(Undo(v)), Undo(v), cols)
  {
    UndoKeepsSnapshots(v);
  }

  /** Redo keeps the invariant, the new table being the snapshot it brought back. */
  lemma RedoKeepsCoherent(data: Table, v: Stacks, cols: nat)
    requires Coherent(data, v, cols) && v.redo != []
    ensures Coherent(Current(Redo(v)), Redo(v), cols)
  {
    RedoKeepsSnapshots(v);
  }

  /**
    The keep-mask of delete_points, all true at first, with every named
    position switched off in turn (a position named twice is switched off twice).
  */
  method DeletionMask(n: nat, indices: seq<int>) returns (keep: seq<bool>)
    requires forall i :: i in indices ==> 0 <= i < n
    ensures keep == KeepMask(n, set i | i in indices)
  {
    var mask := new bool[n](_ => true);
    var k := 0;
    while k < |indices|
      modifies mask
      invariant 0 <= k <= |indices|
      invariant forall j :: 0 <= j < n ==> mask[j] == (j !in indices[..k])
    {
      assert indices[k] in indices;
      mask[indices[k]] := false;
      k := k + 1;
    }
    assert indices[..k] == indices;
    keep := mask[..];
  }

  /**
    The removal list of remove_points_above: the lane's rows that rank before p in index
    order, collected one by one into the list handed to delete_points.
  */
  method RowsAbove(t: Table, lane: int, p: int) returns (list: seq<int>)
    requires 0 <= p < |t| && t[p].laneId == lane
    ensures forall q :: q in list <==> q in AboveSet(t, lane, p)
    ensures list == [] <==> AboveSet(t, lane, p) == {}
  {
    // The lane holds p, so the exits for an empty lane and for p missing from the
    // sorted lane are never taken.
    var sorted := SortedLane(t, lane);
    SortedLaneHolds(t, lane, p);
    var k := IndexOf(sorted, p).value;
    list := [];
    var i := 0;
    while i < k
      invariant 0 <= i <= k
      invariant list == sorted[..i]
    {
      list := list + [sorted[i]];
      i := i + 1;
    }
    SortedPrefixIsAbove(t, lane, p, k);
  }

  /**
    The removal list of remove_points_below: the lane's rows at global position p or
    later, collected one by one into the list handed to delete_points.
  */
  method RowsBelow(t: Table, lane: int, p: int) returns (list: seq<int>)
    ensures forall q :: q in list <==> q in BelowSet(t, lane, p)
    ensures list == [] <==> BelowSet(t, lane, p) == {}
  {
    var toRemove := AtOrAfter(LanePositions(t, lane), p);
    AtOrAfterIsBelow(t, lane, p);
    list := [];
    var i := 0;
    while i < |toRemove|
      invariant 0 <= i <= |toRemove|
      invariant list == toRemove[..i]
    {
      list := list + [toRemove[i]];
      i := i + 1;
    }
    assert list == toRemove;
    if list != [] {
      assert list[0] in BelowSet(t, lane, p);
    }
  }

  /**
    The checks and the splice of merge_lanes, up to the relabelling of
    the merged rows, or the reason it gives up.
  */
  method SpliceLanes(t: Table, lane1: int, lane2: int, p1: int, p2: int, ty1: string, ty2: string)
    returns (r: Result<Table, MergeError>)
    ensures r == MergeSegment(t, lane1, lane2, p1, p2, ty1, ty2)
  {
    if t == [] {
      return Err(NoData);
    }
    var ps1 := LanePositions(t, lane1);
    var ps2 := LanePositions(t, lane2);
    if ps1 == [] || ps2 == [] {
      return Err(EmptyLane);
    }
    var s1 := SortedRows(t, lane1);
    var s2 := SortedRows(t, lane2);
    var local1 := IndexOf(ps1, p1);
    var local2 := IndexOf(ps2, p2);
    if local1.None? || local2.None? {
      // np.where(...)[0][0] raises IndexError
      return Err(PointNotInLane);
    }
    var k1 := local1.value;
    var part1 := if ty1 == "end" then s1[..k1 + 1] else s1[k1..];
    var part2: Table;
    if ty2 == "start" && ty1 == "end" {
      part2 := s2;
    } else if ty2 == "end" && ty1 == "start" {
      part2 := s2;
    } else if ty2 == "start" && ty1 == "start" {
      part2 := Reverse(s2);
    } else if ty2 == "end" && ty1 == "end" {
      part2 := Reverse(s2);
    } else {
      // lane_2_part is unbound: UnboundLocalError
      return Err(UnknownPointTypes);
    }
    r := Ok(SetLane(part1 + part2, lane1));
  }

  /**
    The yaw loop of merge_lanes over the merged rows, each pointing at the next and the
    last copying the one before, then the numbering 0 .. N-1.
  */
  method HeadAndNumber(seg: Table, atan2: (real, real) -> real) returns (m: Table)
    requires seg != []
    ensures m == Finish(seg, atan2)
  {
    var n := |seg|;
    var merged := new Row[n](i requires 0 <= i < n => seg[i]);
    var i := 0;
    while i < n - 1
      invariant 0 <= i <= n - 1
      invariant forall j :: 0 <= j < n ==>
        merged[j] == (if j < i then seg[j].(yaw := Heading(seg, j, atan2)) else seg[j])
    {
      var dx := merged[i + 1].x - merged[i].x;
      var dy := merged[i + 1].y - merged[i].y;
      merged[i] := merged[i].(yaw := atan2(dy, dx));
      i := i + 1;
    }
    merged[n - 1] := merged[n - 1].(yaw := if n > 1 then merged[n - 2].yaw else 0.0);
    assert merged[..] == WithYaw(seg, atan2);
    m := Renumber(merged[..]);
  }

  /**
    The table merge_lanes builds before it assigns self.data: the
    spliced segment re-headed and numbered, then the rows of the other lanes.
  */
  method Merge(t: Table, lane1: int, lane2: int, p1: int, p2: int, ty1: string, ty2: string,
               atan2: (real, real) -> real) returns (r: Result<Table, MergeError>)
    ensures r == MergedTable(t, lane1, lane2, p1, p2, ty1, ty2, atan2)
  {
    var spliced := SpliceLanes(t, lane1, lane2, p1, p2, ty1, ty2);
    if spliced.Err? {
      return Err(spliced.error);
    }
    SegmentParts(t, lane1, lane2, p1, p2, ty1, ty2);
    var merged := HeadAndNumber(spliced.value, atan2);
    var others := OtherRows(t, lane1, lane2);
    r := Ok(merged + others);
  }

  class DataManager {
    /** `self.data`: the current table. */
    var data: Table
    /** `self.history`: the snapshots, the last of which is the current table. */
    var history: seq<Table>
    /** `self.redo_stack`. */
    var redo: seq<Table>
    /** `self.file_names`: one name per lane id. */
    var fileNames: seq<string>
    /** `self.total_cols`: 6, or 0 when the manager was built from an empty array. */
    const totalCols: nat
    /** `self.last_backup`: when the last backup went through. */
    var lastBackup: real
    /** The x, y, yaw tables the backup hook has written, oldest first. */
    ghost var backups: seq<seq<Pose>>

    /** The two snapshot stacks. */
    function Stack(): Stacks
      reads this
    {
      Stacks(history, redo)
    }

    /** The manager's invariant (see Coherent). */
    ghost predicate Valid()
      reads this
    {
      Coherent(data, Stack(), totalCols)
    }

    /** The state right after `__init__`: the table as the one snapshot, nothing to redo. */
    constructor Init(t: Table, names: seq<string>, cols: nat, now: real)
      requires Consistent(t) && (cols == 0 || cols == 6) && (cols == 0 ==> t == [])
      ensures Valid()
      ensures data == t && history == [t] && redo == [] && fileNames == names
      ensures totalCols == cols && lastBackup == now && backups == []
    {
      data := t;
      history := [t];
      redo := [];
      fileNames := names;
      totalCols := cols;
      lastBackup := now;
      backups := [];
    }

    /**
      `DataManager(data, file_names)`: a manager over the checked array, or the
      ValueError the constructor raises.
    */
    static method Create(a: NdArray, names: seq<string>, now: real) returns (r: Result<DataManager, LoadError>)
      ensures r.Err? <==> Load(a).Err?
      ensures r.Err? ==> r.error == Load(a).error
      ensures r.Ok? ==> fresh(r.value) && r.value.Valid()
      ensures r.Ok? ==> r.value.data == Load(a).value && r.value.history == [r.value.data]
      ensures r.Ok? ==> r.value.redo == [] && r.value.fileNames == names && r.value.lastBackup == now
      ensures r.Ok? ==> r.value.totalCols == if Size(a.shape) > 0 then 6 else 0
    {
      var loaded := Load(a);
      if loaded.Err? {
        return Err(loaded.error);
      }
      var cols := if Size(a.shape) > 0 then 6 else 0;
      var m := new DataManager.Init(loaded.value, names, cols, now);
      r := Ok(m);
    }

    /**
      `_auto_save_backup()`: nothing before five minutes have passed; otherwise the
      table's x, y, yaw are written (when it has rows) and the clock is reset, unless
      the disk fails, which the hook swallows.
    */
    method AutoSaveBackup(env: Env)
      modifies this
      ensures data == old(data) && history == old(history) && redo == old(redo) && fileNames == old(fileNames)
      ensures lastBackup == BackupTime(old(lastBackup), env)
      ensures backups == Logged(old(backups), old(lastBackup), env, data)
    {
      if env.now - lastBackup < BackupInterval {
        return;
      }
      if !env.diskOk {
        // os.makedirs or np.save raised
        return;
      }
      if data != [] {
        backups := backups + [Project(data)];
      }
      lastBackup := env.now;
    }

    /** The tail every successful edit shares: commit the new table, drop redo, run the backup hook. */
    method CommitEdit(t: Table, env: Env)
      requires Valid() && Consistent(t) && (totalCols == 0 ==> t == [])
      modifies this
      ensures Valid()
      ensures data == t && Stack() == Versions.Commit(old(Stack()), t) && fileNames == old(fileNames)
      ensures lastBackup == BackupTime(old(lastBackup), env)
      ensures backups == Logged(old(backups), old(lastBackup), env, t)
    {
      CommitKeepsCoherent(data, Stack(), totalCols, t);
      data := t;
      history := history + [t];
      redo := [];
      AutoSaveBackup(env);
    }

    /**
      `add_point(x, y, lane_id)`: one row appended, yaw 0 and numbered by the old row
      count; impossible (and a no-op) for a manager without columns.
    */
    method AddPoint(x: real, y: real, lane: int, env: Env) returns (ok: bool)
      requires Valid()
      modifies this
      ensures Valid()
      ensures ok <==> totalCols != 0
      ensures ok ==> data == AddRow(old(data), x, y, lane) && Stack() == Versions.Commit(old(Stack()), data)
      ensures ok ==> lastBackup == BackupTime(old(lastBackup), env)
      ensures ok ==> backups == Logged(old(backups), old(lastBackup), env, data)
      ensures fileNames == old(fileNames)
      ensures !ok ==> unchanged(this)
    {
      if totalCols == 0 {
        // np.zeros((1, 0)) has no column 0: IndexError
        return false;
      }
      var newIndex := |data|;
      var point := Row(x, y, 0.0, newIndex, newIndex, lane);
      CommitEdit(data + [point], env);
      ok := true;
    }

    /**
      `delete_points(indices)`: refused when the list is empty or names a position
      outside the table; otherwise the named rows go and the survivors are renumbered.
    */
    method DeletePoints(indices: seq<int>, env: Env) returns (ok: bool)
      requires Valid()
      modifies this
      ensures Valid()
      ensures ok <==> indices != [] && forall i :: i in indices ==> 0 <= i < |old(data)|
      ensures ok ==> data == DeleteRows(old(data), set i | i in indices)
      ensures ok ==> Stack() == Versions.Commit(old(Stack()), data)
      ensures ok ==> lastBackup == BackupTime(old(lastBackup), env)
      ensures ok ==> backups == Logged(old(backups), old(lastBackup), env, data)
      ensures fileNames == old(fileNames)
      ensures !ok ==> unchanged(this)
    {
      if indices == [] {
        return false;
      }
      var n := |data|;
      if exists i :: i in indices && (i < 0 || i >= n) {
        return false;
      }
      var keep := DeletionMask(n, indices);
      var survivors := Renumber(Filter(data, keep));
      assert totalCols == 0 ==> n == 0;
      CommitEdit(survivors, env);
      ok := true;
    }

    /**
      `change_ids(indices, new_id)`: the named rows (negative positions counting from
      the end) move to lane new_id; a position outside the table raises and nothing changes.
    */
    method ChangeIds(indices: seq<int>, newId: int, env: Env) returns (ok: bool)
      requires Valid()
      modifies this
      ensures Valid()
      ensures ok <==> indices != [] && forall i :: i in indices ==> -|old(data)| <= i < |old(data)|
      ensures ok ==> data == Relabel(old(data), Targets(indices, |old(data)|), newId)
      ensures ok ==> Stack() == Versions.Commit(old(Stack()), data)
      ensures ok ==> lastBackup == BackupTime(old(lastBackup), env)
      ensures ok ==> backups == Logged(old(backups), old(lastBackup), env, data)
      ensures fileNames == old(fileNames)
      ensures !ok ==> unchanged(this)
    {
      if indices == [] {
        return false;
      }
      var n := |data|;
      if exists i :: i in indices && !(-n <= i < n) {
        // IndexError
        return false;
      }
      var relabelled := Relabel(data, Targets(indices, n), newId);
      assert totalCols == 0 ==> n == 0;
      CommitEdit(relabelled, env);
      ok := true;
    }

    /**
      `remove_points_above(index, lane_id)`: refused unless p is a row of the lane;
      otherwise the rows of the lane that rank before p in index order are deleted
      (a no-op when p ranks first).
    */
    method RemovePointsAbove(p: int, lane: int, env: Env) returns (ok: bool)
      requires Valid()
      modifies this
      ensures Valid()
      ensures ok <==> 0 <= p < |old(data)| && old(data)[p].laneId == lane && AboveSet(old(data), lane, p) != {}
      ensures ok ==> data == DeleteRows(old(data), AboveSet(old(data), lane, p))
      ensures ok ==> Stack() == Versions.Commit(old(Stack()), data)
      ensures ok ==> lastBackup == BackupTime(old(lastBackup), env)
      ensures ok ==> backups == Logged(old(backups), old(lastBackup), env, data)
      ensures fileNames == old(fileNames)
      ensures !ok ==> unchanged(this)
    {
      if p < 0 || p >= |data| || data[p].laneId != lane {
        return false;
      }
      var list := RowsAbove(data, lane, p);
      assert (set q | q in list) == AboveSet(data, lane, p);
      ok := DeletePoints(list, env);
    }

    /**
      `remove_points_below(index, lane_id)`: refused when p is outside the table;
      otherwise the lane's rows at position p or later are deleted (a no-op when there are none).
    */
    method RemovePointsBelow(p: int, lane: int, env: Env) returns (ok: bool)
      requires Valid()
      modifies this
      ensures Valid()
      ensures ok <==> 0 <= p < |old(data)| && BelowSet(old(data), lane, p) != {}
      ensures ok ==> data == DeleteRows(old(data), BelowSet(old(data), lane, p))
      ensures ok ==> Stack() == Versions.Commit(old(Stack()), data)
      ensures ok ==> lastBackup == BackupTime(old(lastBackup), env)
      ensures ok ==> backups == Logged(old(backups), old(lastBackup), env, data)
      ensures fileNames == old(fileNames)
      ensures !ok ==> unchanged(this)
    {
      if p < 0 || p >= |data| {
        return false;
      }
      var lanePositions := LanePositions(data, lane);
      if lanePositions == [] {
        assert BelowSet(data, lane, p) == {};
        return false;
      }
      var list := RowsBelow(data, lane, p);
      assert (set q | q in list) == BelowSet(data, lane, p);
      if list == [] {
        return false;
      }
      ok := DeletePoints(list, env);
    }

    /**
      `merge_lanes(lane_id_1, lane_id_2, point_1, point_2, point_1_type, point_2_type)`:
      either the whole merge is committed (the spliced segment, re-headed and numbered,
      followed by the other lanes, and the file names resized) or nothing changes.
    */
    method MergeLanes(lane1: int, lane2: int, p1: int, p2: int, ty1: string, ty2: string,
                      atan2: (real, real) -> real, env: Env) returns (ok: bool)
      requires Valid()
      modifies this
      ensures Valid()
      ensures ok <==> MergedTable(old(data), lane1, lane2, p1, p2, ty1, ty2, atan2).Ok?
      ensures ok ==> data == MergedTable(old(data), lane1, lane2, p1, p2, ty1, ty2, atan2).value
      ensures ok ==> data != [] && fileNames == ResizeNames(old(fileNames), data)
      ensures ok ==> Stack() == Versions.Commit(old(Stack()), data)
      ensures ok ==> lastBackup == BackupTime(old(lastBackup), env)
      ensures ok ==> backups == Logged(old(backups), old(lastBackup), env, data)
      ensures !ok ==> unchanged(this)
    {
      var merged := Merge(data, lane1, lane2, p1, p2, ty1, ty2, atan2);
      if merged.Err? {
        return false;
      }
      MergeKeepsConsistent(data, lane1, lane2, p1, p2, ty1, ty2, atan2);
      assert data != [] && totalCols != 0;
      fileNames := ResizeNames(fileNames, merged.value);
      CommitEdit(merged.value, env);
      ok := true;
    }

    /** `clear_data()`: back to a single empty baseline, nothing to redo, no file names. */
    method ClearData(env: Env)
      requires Valid()
      modifies this
      ensures Valid()
      ensures data == [] && history == [[]] && redo == [] && fileNames == []
      ensures lastBackup == BackupTime(old(lastBackup), env)
      ensures backups == old(backups)
    {
      data := [];
      history := [[]];
      redo := [];
      fileNames := [];
      AutoSaveBackup(env);
    }

    /**
      `undo()`: with only the baseline left, the table and false; otherwise the top
      snapshot moves to the redo stack and the one below becomes the table.
    */
    method Undo(env: Env) returns (t: Table, ok: bool)
      requires Valid()
      modifies this
      ensures Valid()
      ensures ok <==> CanUndo(old(Stack()))
      ensures ok ==> Stack() == Versions.Undo(old(Stack()))
      ensures ok ==> lastBackup == BackupTime(old(lastBackup), env)
      ensures ok ==> backups == Logged(old(backups), old(lastBackup), env, data)
      ensures t == data && fileNames == old(fileNames)
      ensures !ok ==> unchanged(this)
    {
      if |history| <= 1 {
        return data, false;
      }
      ghost var before := Stack();
      UndoKeepsCoherent(data, before, totalCols);
      var top := history[|history| - 1];
      redo := redo + [top];
      history := history[..|history| - 1];
      data := history[|history| - 1];
      assert Stack() == Versions.Undo(before);
      AutoSaveBackup(env);
      return data, true;
    }

    /**
      `redo()`: with nothing to redo, the table and false; otherwise the top of the
      redo stack becomes the table and goes back onto history.
    */
    method Redo(env: Env) returns (t: Table, ok: bool)
      requires Valid()
      modifies this
      ensures Valid()
      ensures ok <==> old(redo) != []
      ensures ok ==> Stack() == Versions.Redo(old(Stack()))
      ensures ok ==> lastBackup == BackupTime(old(lastBackup), env)
      ensures ok ==> backups == Logged(old(backups), old(lastBackup), env, data)
      ensures t == data && fileNames == old(fileNames)
      ensures !ok ==> unchanged(this)
    {
      if redo == [] {
        return data, false;
      }
      ghost var before := Stack();
      RedoKeepsCoherent(data, before, totalCols);
      data := redo[|redo| - 1];
      redo := redo[..|redo| - 1];
      history := history + [data];
      assert Stack() == Versions.Redo(before);
      AutoSaveBackup(env);
      return data, true;
    }
  }
}
