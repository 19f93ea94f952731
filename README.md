# Lane-editing engine of the data visualisation editing tool

This project models `DataManager`, the lane-editing engine of the data visualisation
editing tool, and proves properties of the model. The engine keeps a table of point
rows. Each row has six columns: x, y, yaw, frame_idx, index and lane_id. The engine
edits that table:

- it adds a point;
- it deletes points and renumbers the rest;
- it moves points to another lane;
- it truncates a lane above or below a point;
- it merges two lanes in one of four directions.

Every successful edit pushes a snapshot onto `history` and empties `redo_stack`.
`undo` and `redo` move snapshots between the two stacks. After each edit a
time-gated hook may write a backup.

The model is split by concern:

- `rows.dfy` (module `Rows`): the row and table types and the row-selection
  helpers: masks, `np.where` positions, fancy indexing, renumbering and reversal.
- `lane_order.dfy` (module `LaneOrder`): the argsort on the index column and
  `np.where(s == x)[0][0]`.
- `loading.dfy` (module `Loading`): the constructor's shape and
  frame_idx/index check on a numpy array.
- `edits.dfy` (module `Edits`): the tables that add, delete, relabel and the
  two truncations produce, and the facts about them.
- `merging.dfy` (module `Merging`): `merge_lanes` as a function of the table.
  It covers the failure cases, the four-case splice, the yaw recomputation,
  the renumbering and the rows of the other lanes.
- `lane_names.dfy` (module `LaneNames`): the `file_names` list that a merge rebuilds.
- `versions.dfy` (module `Versions`): the history and redo stacks, and the
  moves that commit, undo and redo make on them.
- `backup.dfy` (module `Backup`): the five-minute gate of `_auto_save_backup`.
- `data_manager.dfy` (module `Manager`): the class `DataManager` itself. Its
  fields are `data`, `history`, `redo`, `fileNames`, `totalCols` and
  `lastBackup`, and it keeps a ghost log of written backups. Each method
  returns whether the edit went through. The loops of the source are methods
  with loop invariants:
  - the deletion mask (`DeletionMask`);
  - the removal lists of the two truncations (`RowsAbove`, `RowsBelow`);
  - the yaw loop over an array (`HeadAndNumber`).

The class invariant `Valid` (predicate `Coherent`) holds:

- history is never empty, and its top is the current table;
- `total_cols` is 0 or 6;
- every snapshot on either stack has frame_idx equal to index;
- a manager built without columns only ever holds empty tables.

Every method preserves `Valid`. Every edit method states:

- when it succeeds and when it refuses;
- the new table as a function of the old one;
- the new stacks as `Versions.Commit` of the old ones;
- the new backup clock and backup log;
- that a refused call changes nothing.

The pure functions that state these results carry lemmas about their meaning.

## Model

| member | source | states |
|---|---|---|
| Loading.Trunc | DataVisualizationEditingTool/utils/data_manager.py:16-20 | `astype(int)` truncates toward zero: the result is within 1 of the value, on the same side of 0, and no larger in magnitude |
| Loading.Decode | DataVisualizationEditingTool/utils/data_manager.py:16-22 | a six-column array decodes to one row per array row; when the coerced frame_idx and index columns agree, every row has frame_idx == index |
| Loading.FramesMatch | DataVisualizationEditingTool/utils/data_manager.py:21 | the constructor's column check holds exactly when every decoded row has frame_idx equal to index |
| Loading.Load | DataVisualizationEditingTool/utils/data_manager.py:10-25 | an empty array is accepted as the empty table; a non-empty array that is not 2-D with 6 columns is refused with BadShape; one whose coerced frame_idx and index columns differ is refused with FrameIndexMismatch; otherwise the table is row i of the array for every i, with frame_idx == index |
| Manager.DataManager.Init | DataVisualizationEditingTool/utils/data_manager.py:26-31 | the state after construction: the table as the single history snapshot, nothing to redo, the given names, and the backup clock at now |
| Manager.DataManager.Create | DataVisualizationEditingTool/utils/data_manager.py:9-33 | construction fails exactly when the check fails, with the same error; on success the manager is valid, holds the loaded table as its one snapshot, and has 6 columns for a non-empty array and 0 otherwise |
| Backup.BackupTime | DataVisualizationEditingTool/utils/data_manager.py:297-309 | the backup clock moves to now exactly when 300 seconds have passed and the disk write succeeds, also when the table is empty; otherwise it stays where it was |
| Backup.Due | DataVisualizationEditingTool/utils/data_manager.py:299 | a backup is due exactly when at least 300 seconds have passed since the last one |
| Backup.Logged | DataVisualizationEditingTool/utils/data_manager.py:301-307 | a due backup that goes through appends the table's x, y, yaw to the log only when the table has rows; otherwise the log is unchanged |
| Backup.BackupIdempotent | DataVisualizationEditingTool/utils/data_manager.py:299-307 | running the hook twice at the same moment changes the clock once and writes at most once |
| Backup.BackupsSpaced | DataVisualizationEditingTool/utils/data_manager.py:299-307 | two consecutive writing backups are at least 300 seconds apart |
| Manager.DataManager.AutoSaveBackup | DataVisualizationEditingTool/utils/data_manager.py:297-309 | the hook never changes the table, the stacks or the names; it moves the clock and logs the backup as BackupTime and Logged say |
| Edits.AddRow | DataVisualizationEditingTool/utils/data_manager.py:38-45 | exactly one row is appended, with the given x, y and lane_id, yaw 0, and index = frame_idx = the old row count; the earlier rows are unchanged; frame_idx == index is kept |
| Manager.DataManager.AddPoint | DataVisualizationEditingTool/utils/data_manager.py:36-51 | succeeds exactly when the manager has columns; then the table is AddRow of the old one and it is committed; without columns nothing changes |
| Manager.DeletionMask | DataVisualizationEditingTool/utils/data_manager.py:63-64 | the loop that switches off each named position yields the mask that is true exactly at the positions not named |
| Edits.KeepMask | DataVisualizationEditingTool/utils/data_manager.py:63-64 | the mask has one entry per row and is true exactly at the positions not named |
| Edits.DeleteRows | DataVisualizationEditingTool/utils/data_manager.py:63-72 | the table after a deletion is numbered 0 .. n'-1 in both frame_idx and index, and has as many rows as the mask keeps |
| Edits.DeleteCount | DataVisualizationEditingTool/utils/data_manager.py:59-65 | deleting a set of in-range positions from n rows leaves n minus the number of distinct positions (a duplicate counts once) |
| Edits.KeptCount | DataVisualizationEditingTool/utils/data_manager.py:63-64 | the mask for a set of in-range positions keeps n minus the size of the set |
| Edits.DeleteKeeps | DataVisualizationEditingTool/utils/data_manager.py:63-72 | every row not named survives with x, y, yaw and lane_id unchanged, at the position given by the number of survivors before it, which is also its new index and frame_idx |
| Edits.DeleteOnlySurvivors | DataVisualizationEditingTool/utils/data_manager.py:63-72 | every row of the result is some row that was not named, renumbered to its new position |
| Manager.DataManager.DeletePoints | DataVisualizationEditingTool/utils/data_manager.py:53-78 | refused, with nothing changed, for an empty list or any position outside [0, n); otherwise the table is DeleteRows of the named set and it is committed |
| Edits.Relabel | DataVisualizationEditingTool/utils/data_manager.py:84 | only the lane_id of the targeted rows changes, to the new id; every other field and every other row is as before |
| Edits.Targets | DataVisualizationEditingTool/utils/data_manager.py:84 | every non-negative position named is targeted, every negative one targets the row counted from the end, and every target comes from a named position |
| Edits.TargetsInRange | DataVisualizationEditingTool/utils/data_manager.py:84 | every position numpy accepts for n rows, negative ones counted from the end, names a row |
| Manager.DataManager.ChangeIds | DataVisualizationEditingTool/utils/data_manager.py:80-90 | refused, with nothing changed, for an empty list or a position outside [-n, n); otherwise the named rows move to the new lane and the result is committed |
| LaneOrder.Insert | DataVisualizationEditingTool/utils/data_manager.py:110 | inserting a position into a sorted list of positions keeps it sorted by key (ties by position) and adds exactly that position |
| LaneOrder.Argsort | DataVisualizationEditingTool/utils/data_manager.py:110 | the argsort lists every position exactly once, ordered by key with ties by position |
| LaneOrder.RankPrefix | DataVisualizationEditingTool/utils/data_manager.py:119-120 | the entries before rank k of a sorted list are exactly the positions that sort before the entry at rank k |
| LaneOrder.ArgsortSorted | DataVisualizationEditingTool/utils/data_manager.py:110 | when the keys already increase strictly, the argsort is the identity |
| LaneOrder.IndexOf | DataVisualizationEditingTool/utils/data_manager.py:113 | finds the first occurrence of x, or reports that x does not occur |
| Rows.LanePositions | DataVisualizationEditingTool/utils/data_manager.py:100 | the positions of the lane's rows, strictly increasing, each one a row of the lane, and every row of the lane among them |
| Rows.Renumber | DataVisualizationEditingTool/utils/data_manager.py:70-72 | row k keeps its x, y, yaw and lane_id and gets index = frame_idx = k |
| Rows.Filter | DataVisualizationEditingTool/utils/data_manager.py:65 | a masked selection has as many rows as the mask has true entries |
| Rows.FilterPlaces | DataVisualizationEditingTool/utils/data_manager.py:65 | a kept row lands at the position given by the number of kept rows before it |
| Rows.FilterFrom | DataVisualizationEditingTool/utils/data_manager.py:65 | every row of a masked selection is a kept row of the table |
| Rows.Reverse | DataVisualizationEditingTool/utils/data_manager.py:189 | `[::-1]` puts element i at position n-1-i |
| Rows.LaneIndicesAppend | DataVisualizationEditingTool/utils/data_manager.py:209 | a lane's index values in a concatenation are those of the first part followed by those of the second |
| Rows.FilterLaneIndices | DataVisualizationEditingTool/utils/data_manager.py:207-208 | a mask that keeps every row of a lane keeps that lane's index values in order |
| Edits.SortedLane | DataVisualizationEditingTool/utils/data_manager.py:110-111 | the lane's positions in index order are positions of rows of the lane |
| Edits.PrefixIsAbove | DataVisualizationEditingTool/utils/data_manager.py:110-120 | every row ranked before p in the lane's index order has a smaller index than p, or an equal index and an earlier position |
| Edits.AboveIsPrefix | DataVisualizationEditingTool/utils/data_manager.py:110-120 | every row of the lane with a smaller index than p, or an equal index and an earlier position, is ranked before p |
| Edits.SortedPrefixIsAbove | DataVisualizationEditingTool/utils/data_manager.py:110-120 | cutting the index-ordered lane just before p removes exactly the rows ranked above p and never p itself; the cut is empty exactly when p ranks first |
| Edits.AboveSetDistinct | DataVisualizationEditingTool/utils/data_manager.py:110-120 | when the lane's index values are distinct, the rows ranked above p are exactly the lane's rows with a smaller index, whatever the tie-break |
| Manager.RowsAbove | DataVisualizationEditingTool/utils/data_manager.py:110-123 | the list built by the loop holds exactly the rows ranked above p, and is empty exactly when none are |
| Manager.DataManager.RemovePointsAbove | DataVisualizationEditingTool/utils/data_manager.py:92-128 | refused, with nothing changed, when p is out of range or not in the lane, or when p ranks first (delete_points returns on an empty list); otherwise exactly the lane's rows ranked above p are deleted and the rest are renumbered |
| Edits.AtOrAfter | DataVisualizationEditingTool/utils/data_manager.py:144 | `lane_indices[lane_indices >= p]` holds exactly the lane positions at or after p |
| Edits.AtOrAfterIsBelow | DataVisualizationEditingTool/utils/data_manager.py:138-144 | those are exactly the lane's rows at global position p or later |
| Manager.RowsBelow | DataVisualizationEditingTool/utils/data_manager.py:144-151 | the list built by the loop holds exactly the lane's rows at position p or later, and is empty exactly when there are none |
| Manager.DataManager.RemovePointsBelow | DataVisualizationEditingTool/utils/data_manager.py:130-155 | refused, with nothing changed, when p is out of range or the lane has no row at p or later; otherwise exactly those rows are deleted and the rows of other lanes survive |
| Merging.SortedLaneFacts | DataVisualizationEditingTool/utils/data_manager.py:173-174 | the lane ordered by index lists every row of the lane, in non-decreasing index |
| Merging.SortedRows | DataVisualizationEditingTool/utils/data_manager.py:173-174 | the lane's rows in index order are as many as the lane's rows |
| Merging.SortedRowsAscending | DataVisualizationEditingTool/utils/data_manager.py:173-174 | the lane's rows in index order are non-decreasing in index |
| Merging.SortedRowsComplete | DataVisualizationEditingTool/utils/data_manager.py:173-174 | every row of the lane appears among the lane's rows in index order |
| Merging.SortedLaneStrict | DataVisualizationEditingTool/utils/data_manager.py:173-174 | when the lane's index values are distinct, the lane in index order is strictly increasing in index |
| Merging.SortedLaneUnique | DataVisualizationEditingTool/utils/data_manager.py:173-174 | when the lane's index values are distinct, any listing of all the lane's rows in strictly increasing index is the model's argsort, so every argsort gives the same order |
| Merging.Part2 | DataVisualizationEditingTool/utils/data_manager.py:184-191 | the lane-2 part is bound exactly for the four known pairs of point kinds, and then has all the rows of lane 2 |
| Merging.Part2Order | DataVisualizationEditingTool/utils/data_manager.py:184-191 | the lane-2 part keeps every row of lane 2; it is in index order for different kinds and in reverse index order for equal kinds |
| Merging.Part1 | DataVisualizationEditingTool/utils/data_manager.py:179-182 | for "end" the lane-1 part is the index-ordered lane's rows of rank 0 .. k, otherwise its rows from rank k on, each unchanged |
| Merging.Part1Order | DataVisualizationEditingTool/utils/data_manager.py:179-182 | the lane-1 part runs through rank k for "end" and from rank k otherwise, in index order |
| Merging.SetLane | DataVisualizationEditingTool/utils/data_manager.py:194 | relabelling keeps the number of rows |
| Merging.SetLaneMembers | DataVisualizationEditingTool/utils/data_manager.py:194 | relabelling keeps every row apart from its lane_id |
| Merging.SetLaneHalvesOrder | DataVisualizationEditingTool/utils/data_manager.py:193-194 | stacking two parts and relabelling them keeps the index order of each part |
| Merging.Splice | DataVisualizationEditingTool/utils/data_manager.py:179-194 | the splice exists exactly for the four known pairs of point kinds |
| Merging.SpliceContents | DataVisualizationEditingTool/utils/data_manager.py:179-194 | the splice has the lane-1 part's length plus all of lane 2, is entirely in lane 1, and ends with every row of lane 2 |
| Merging.SpliceOrder | DataVisualizationEditingTool/utils/data_manager.py:179-194 | the lane-1 part of the splice is in index order; the lane-2 part is in index order for different kinds and in reverse index order for equal kinds |
| Merging.MergeSegment | DataVisualizationEditingTool/utils/data_manager.py:158-194 | the merge stops with the no-data error exactly when the table is empty, and yields a segment only for one of the four known pairs of kinds |
| Merging.MergeFailsIff | DataVisualizationEditingTool/utils/data_manager.py:158-191 | a merge gives up exactly when the table is empty, either lane is empty, a picked point is not a row of its lane, or the pair of kinds is none of the four |
| Merging.SegmentParts | DataVisualizationEditingTool/utils/data_manager.py:168-194 | a successful merge segment is the splice of the two lanes in index order, cut at p1's rank among lane 1's positions |
| Merging.SegmentContents | DataVisualizationEditingTool/utils/data_manager.py:168-194 | a successful segment has the lane-1 part's length plus all of lane 2, is entirely in lane 1, and its last part holds every row of lane 2 |
| Merging.SegmentOrder | DataVisualizationEditingTool/utils/data_manager.py:173-191 | the segment's lane-1 part is in index order; its lane-2 part is in index order for different kinds and reversed for equal kinds |
| Merging.WithYaw | DataVisualizationEditingTool/utils/data_manager.py:197-201 | every column but yaw is kept; each yaw but the last is the heading to the next row; the last repeats the one before; a single row gets yaw 0 |
| Merging.Finish | DataVisualizationEditingTool/utils/data_manager.py:196-205 | the finished segment keeps each row's x, y and lane; every yaw but the last points from the row to the next; the last repeats the one before; index = frame_idx = position |
| Manager.HeadAndNumber | DataVisualizationEditingTool/utils/data_manager.py:196-205 | the yaw loop over the merged array followed by the renumbering computes Finish of the segment |
| Merging.OtherRows | DataVisualizationEditingTool/utils/data_manager.py:207-208 | no row of either merged lane is kept |
| Merging.OtherRowsExactly | DataVisualizationEditingTool/utils/data_manager.py:207-208 | the kept rows are rows of the table that belong to neither lane, every such row is kept, the other lanes keep their index values in order, and frame_idx == index is kept |
| Merging.MergedTable | DataVisualizationEditingTool/utils/data_manager.py:157-209 | the merge fails exactly when the segment fails; on success the table is the finished segment, entirely in lane 1, followed by the rows of the other lanes |
| Merging.AppendedLaneIndices | DataVisualizationEditingTool/utils/data_manager.py:203-209 | a lane-1 block numbered 0 .. m-1 followed by rows of neither lane gives lane 1 the index values 0 .. m-1, lane 2 none, and every other lane the values of the second part |
| Merging.MergeRenumbersLanes | DataVisualizationEditingTool/utils/data_manager.py:203-209 | after a merge lane 1's index values are 0 .. N-1 in table order, lane 2 has no rows when it differs from lane 1, and every other lane keeps its index values in order |
| Merging.MergeKeepsConsistent | DataVisualizationEditingTool/utils/data_manager.py:203-209 | a merge keeps frame_idx equal to index and never leaves the table empty |
| Merging.SortedLaneInPlace | DataVisualizationEditingTool/utils/data_manager.py:173-176 | when a lane's index grows strictly with position, ordering it by index changes nothing |
| Merging.CutAtPoint | DataVisualizationEditingTool/utils/data_manager.py:176-182 | when lane 1's index grows with position, the lane-1 part ends at p1 for "end" and starts at p1 otherwise |
| Manager.SpliceLanes | DataVisualizationEditingTool/utils/data_manager.py:158-194 | the checks and the splice compute MergeSegment, including which error stops the merge |
| Manager.Merge | DataVisualizationEditingTool/utils/data_manager.py:158-209 | the steps of the merge compute MergedTable |
| LaneNames.NatToString | DataVisualizationEditingTool/utils/data_manager.py:212 | `str(i)` of a non-negative integer is a non-empty string of decimal digits without a leading zero |
| LaneNames.ParseNatToString | DataVisualizationEditingTool/utils/data_manager.py:212 | reading the decimal digits of n back gives n |
| LaneNames.DefaultNamesDiffer | DataVisualizationEditingTool/utils/data_manager.py:211-212 | different lane ids get different default names "Lane_i" |
| LaneNames.MaxLane | DataVisualizationEditingTool/utils/data_manager.py:212 | the largest lane id of a non-empty table is at least every row's lane id and is the lane id of some row |
| LaneNames.ResizeNames | DataVisualizationEditingTool/utils/data_manager.py:211-212 | the new name list has one entry per lane id 0 .. max (none when max < 0), covers every non-negative lane id in the table, keeps the existing names, and fills the missing ones with "Lane_i" |
| Manager.DataManager.MergeLanes | DataVisualizationEditingTool/utils/data_manager.py:157-218 | either the whole merge is committed (MergedTable's table, non-empty, with the names resized) or nothing changes, exactly as MergedTable succeeds or fails |
| Versions.Commit | DataVisualizationEditingTool/utils/data_manager.py:46-48 | a commit keeps the old history below the new top, makes the new table current, and empties redo |
| Versions.Undo | DataVisualizationEditingTool/utils/data_manager.py:262 | undo moves the top of history onto redo, and a redo right after restores both stacks |
| Versions.Redo | DataVisualizationEditingTool/utils/data_manager.py:274-276 | redo makes the top of the redo stack current and moves it back onto history |
| Versions.UndoRedo | DataVisualizationEditingTool/utils/data_manager.py:257-281 | after a redo an undo is possible, and it restores both stacks |
| Versions.UndoCommit | DataVisualizationEditingTool/utils/data_manager.py:257-268 | undoing an edit brings back the previous table and offers only that edit for redo |
| Versions.CommitKeepsSnapshots | DataVisualizationEditingTool/utils/data_manager.py:46-48 | a commit keeps frame_idx == index in every snapshot, and keeps every snapshot empty for a manager without columns |
| Versions.UndoKeepsSnapshots | DataVisualizationEditingTool/utils/data_manager.py:262 | undo keeps every snapshot's properties, because it only moves one |
| Versions.RedoKeepsSnapshots | DataVisualizationEditingTool/utils/data_manager.py:274-276 | redo keeps every snapshot's properties, because it only moves one |
| Manager.CommitKeepsCoherent | DataVisualizationEditingTool/utils/data_manager.py:46-48 | committing a table with frame_idx == index (empty for a manager without columns) keeps the manager invariant |
| Manager.UndoKeepsCoherent | DataVisualizationEditingTool/utils/data_manager.py:262-263 | undo keeps the manager invariant, with the new top of history as the table |
| Manager.RedoKeepsCoherent | DataVisualizationEditingTool/utils/data_manager.py:274-276 | redo keeps the manager invariant, with the restored snapshot as the table |
| Manager.DataManager.CommitEdit | DataVisualizationEditingTool/utils/data_manager.py:46-48 | the tail every edit shares: the table becomes t, the stacks become Commit of the old ones, and the backup hook runs |
| Manager.DataManager.ClearData | DataVisualizationEditingTool/utils/data_manager.py:246-255 | clearing leaves an empty table, one empty history snapshot, an empty redo stack and no names; no backup is written |
| Manager.DataManager.Undo | DataVisualizationEditingTool/utils/data_manager.py:257-268 | with at most one snapshot, returns the table and false and changes nothing; otherwise the stacks become Versions.Undo of the old ones and the new top is returned |
| Manager.DataManager.Redo | DataVisualizationEditingTool/utils/data_manager.py:270-281 | with nothing to redo, returns the table and false and changes nothing; otherwise the stacks become Versions.Redo of the old ones and the restored table is returned |

## Left out

- File output: `save`, `save_all_lanes`, and the `os.makedirs`, `np.save` and `shutil` calls in `_auto_save_backup`. A backup is modelled as appending the table's x, y and yaw to a ghost log. Whether the disk write succeeds is an input (`Env.diskOk`).
- `time.time()` and `time.strftime`: the clock is the input `Env.now`. The hook's two clock reads are taken as one moment.
- `np.arctan2`: the merge takes an arbitrary function `atan2` as a parameter. Coordinates and yaw are opaque reals; floating-point rounding, NaN and infinities are not modelled.
- numpy dtype coercion in the constructor: the three integer columns are truncated toward zero (`Trunc`). Overflow, NaN cells, and the fact that the coercion writes into the caller's array before copying are not modelled.
- The two empty shapes of the source, `(0,)` and `(0, 6)`: both are the empty table, since every operation treats them alike.
- `Manager.DataManager.RemovePointsAbove`: numpy's default argsort is not stable, and the model breaks ties between equal index values by position (`Edits.SortedLane`, `Edits.SortedPrefixIsAbove`). When the lane's index values are distinct the tie-break plays no part: `Edits.AboveSetDistinct` shows the removed rows are then exactly the lane's rows with a smaller index. With duplicate index values numpy may remove a different choice among the tied rows. Duplicates are reachable: `add_point` numbers a new row by the row count, `change_ids` moves rows without renumbering, and a merge renumbers only lane 1.
- `Manager.DataManager.MergeLanes`: the same stable tie-break orders each lane by index (`Merging.SortedRows`). `Merging.SortedLaneUnique` shows that with distinct index values every ordering by index is the model's, so the segment is exact then. With duplicate index values numpy may order the tied rows differently.
- `print` logging and the duplicate-index warning in `remove_points_above`: output only.
- Exceptions other than the ones modelled. A `file_names` that is not a list would raise at line 211 after `self.data` is already assigned, leaving a half-done merge. The model takes `file_names` to be a list of strings.
- The merge cuts lane 1 at `point_1`'s rank among the lane's positions, but applies the cut to the lane ordered by index. This is modelled as written. `Merging.CutAtPoint` shows the cut falls at `point_1` when the two orders agree. They need not agree: `add_point`, `change_ids` and a merge can each leave a lane whose index order differs from its position order. `point_2` is only checked for membership, as in the source.
- A merge of a lane with itself (`lane_id_1 == lane_id_2`) is modelled as written: the lane's rows appear in both parts of the segment.
- The docstring of `remove_points_below` says it removes rows with positions `<=` the given one, and that of `remove_points_above` says local indices `>=`. The code removes positions `>=` p, and the rows ranked before p. The model follows the code.
