/**
  The construction-time check: an incoming array must be empty, or two-dimensional
  with six columns whose frame_idx and index columns agree once coerced to integers.
*/
module Loading {
  import opened Wrappers
  import opened Rows

  /** A numpy array: its shape and its cells in row-major order. */
  datatype RawArray = RawArray(shape: seq<nat>, cells: seq<real>)

  /** `a.size`: the product of the dimensions (1 for a zero-dimensional array). */
  function Size(shape: seq<nat>): nat {
    if shape == [] then 1 else shape[0] * Size(shape[1..])
  }

  /** Arrays whose cell count matches their shape. */
  type NdArray = a: RawArray | |a.cells| == Size(a.shape) witness RawArray([0], [])

  /** `astype(int)` on a float: truncation toward zero. */
  function Trunc(v: real): (n: int)
    ensures -1.0 < v - n as real < 1.0
    ensures v >= 0.0 ==> n >= 0 && n as real <= v
    ensures v <= 0.0 ==> n <= 0 && n as real >= v
  {
    if v >= 0.0 then v.Floor else -((-v).Floor)
  }

  /** Why the constructor raises ValueError. */
  datatype LoadError = BadShape | FrameIndexMismatch

  /** `len(a.shape) == 2 and a.shape[1] == 6`. */
  predicate SixColumns(a: NdArray) {
    |a.shape| == 2 && a.shape[1] == 6
  }

  lemma CellCount(a: NdArray)
    requires SixColumns(a)
    ensures |a.cells| == a.shape[0] * 6
  {
    var tail := a.shape[1..];
    assert tail[1..] == [];
    assert Size(tail) == 6 * Size(tail[1..]) == 6;
  }

  /** Row i of a six-column array, with the three integer columns coerced. */
  function RowAt(a: NdArray, i: nat): Row
    requires SixColumns(a) && i < a.shape[0]
  {
    CellCount(a);
    var c := a.cells;
    Row(c[6 * i], c[6 * i + 1], c[6 * i + 2], Trunc(c[6 * i + 3]), Trunc(c[6 * i + 4]), Trunc(c[6 * i + 5]))
  }

  /** `np.array_equal(data[:, 3], data[:, 4])` after both columns are coerced to integers. */
  predicate FramesMatch(a: NdArray)
    requires SixColumns(a)
    ensures FramesMatch(a) <==> forall i :: 0 <= i < a.shape[0] ==> RowAt(a, i).frameIdx == RowAt(a, i).index
  {
    CellCount(a);
    ColumnsAgree(a);
    forall i :: 0 <= i < a.shape[0] ==> Trunc(a.cells[6 * i + 3]) == Trunc(a.cells[6 * i + 4])
  }

  /** The coerced frame_idx and index cells of array row i are the two columns of RowAt(a, i). */
  lemma ColumnsAgree(a: NdArray)
    requires SixColumns(a) && |a.cells| == a.shape[0] * 6
    ensures (forall i :: 0 <= i < a.shape[0] ==> Trunc(a.cells[6 * i + 3]) == Trunc(a.cells[6 * i + 4])) <==>
      (forall i :: 0 <= i < a.shape[0] ==> RowAt(a, i).frameIdx == RowAt(a, i).index)
  {
    CellCount(a);
    if forall i :: 0 <= i < a.shape[0] ==> RowAt(a, i).frameIdx == RowAt(a, i).index {
      forall i | 0 <= i < a.shape[0]
        ensures Trunc(a.cells[6 * i + 3]) == Trunc(a.cells[6 * i + 4])
      {
        assert RowAt(a, i).frameIdx == RowAt(a, i).index;
      }
    }
  }

  /** The rows of a six-column array, integer columns coerced. */
  function Decode(a: NdArray): (t: Table)
    requires SixColumns(a)
    ensures |t| == a.shape[0]
    ensures FramesMatch(a) ==> Consistent(t)
  {
    seq(a.shape[0], i requires 0 <= i < a.shape[0] => RowAt(a, i))
  }

  /**
    What the constructor stores (`data.copy()`, or the empty table when `data.size == 0`),
    or why it raises.
  */
  function Load(a: NdArray): (r: Result<Table, LoadError>)
    ensures r == Err(BadShape) <==> Size(a.shape) > 0 && !SixColumns(a)
    ensures r == Err(FrameIndexMismatch) <==> Size(a.shape) > 0 && SixColumns(a) && !FramesMatch(a)
    ensures r.Ok? ==> Consistent(r.value)
    ensures r.Ok? && Size(a.shape) == 0 ==> r.value == []
    ensures r.Ok? && Size(a.shape) > 0 ==>
      && SixColumns(a) && |r.value| == a.shape[0]
      && forall i :: 0 <= i < |r.value| ==> r.value[i] == RowAt(a, i)
  {
    if Size(a.shape) == 0 then Ok([])
    else if !SixColumns(a) then Err(BadShape)
    else if !FramesMatch(a) then Err(FrameIndexMismatch)
    else Ok(Decode(a))
  }
}
