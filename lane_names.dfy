/**
  The file-name list that merge_lanes rebuilds: one entry per lane id 0 .. max, the
  existing names kept and the missing ones filled with "Lane_<id>".
*/
module LaneNames {
  import opened Rows

  /** The decimal digit character for d. */
  function Digit(d: nat): char
    requires d < 10
  {
    "0123456789"[d]
  }

  /** The value of a decimal digit character. */
  function DigitValue(c: char): nat {
    if '0' <= c <= '9' then (c as int - '0' as int) as nat else 0
  }

  /** `str(n)` for a non-negative integer: its decimal digits, most significant first. */
  function NatToString(n: nat): (s: string)
    ensures |s| >= 1
    ensures forall i :: 0 <= i < |s| ==> '0' <= s[i] <= '9'
    ensures |s| > 1 ==> s[0] != '0'
  {
    if n < 10 then [Digit(n)] else NatToString(n / 10) + [Digit(n % 10)]
  }

  /** `int(s)` for a string of decimal digits. */
  function ParseNat(s: string): nat {
    if s == [] then 0 else 10 * ParseNat(s[..|s| - 1]) + DigitValue(s[|s| - 1])
  }

  /** Reading back the digits of n gives n: the names "Lane_<i>" of different lanes differ. */
  lemma {:induction false} ParseNatToString(n: nat)
    ensures ParseNat(NatToString(n)) == n
  {
    var s := NatToString(n);
    if n < 10 {
      assert s[..0] == [];
    } else {
      ParseNatToString(n / 10);
      assert s[..|s| - 1] == NatToString(n / 10);
    }
  }

  /** Different lane ids get different default names. */
  lemma DefaultNamesDiffer(i: nat, j: nat)
    requires i != j
    ensures "Lane_" + NatToString(i) != "Lane_" + NatToString(j)
  {
    var a := "Lane_" + NatToString(i);
    var b := "Lane_" + NatToString(j);
    assert a[5..] == NatToString(i) && b[5..] == NatToString(j);
    ParseNatToString(i);
    ParseNatToString(j);
  }

  /** `max(np.unique(data[:, -1]))`: the largest lane id of a non-empty table. */
  function MaxLane(t: Table): (m: int)
    requires t != []
    ensures forall i :: 0 <= i < |t| ==> t[i].laneId <= m
    ensures exists i :: 0 <= i < |t| && t[i].laneId == m
  {
    if |t| == 1 then t[0].laneId
    else
      var rest := MaxLane(t[1..]);
      assert forall i :: 1 <= i < |t| ==> t[i] == t[1..][i - 1];
      if t[0].laneId >= rest then t[0].laneId else rest
  }

  /**
    `[names[i] if i < len(names) else f"Lane_{i}" for i in range(max + 1)]`: one name per
    lane id from 0 to the largest, existing names kept, missing ones defaulted.
  */
  function ResizeNames(names: seq<string>, t: Table): (r: seq<string>)
    requires t != []
    ensures |r| == if MaxLane(t) >= 0 then MaxLane(t) + 1 else 0
    ensures forall i :: 0 <= i < |t| && t[i].laneId >= 0 ==> t[i].laneId < |r|
    ensures forall i :: 0 <= i < |r| && i < |names| ==> r[i] == names[i]
    ensures forall i :: |names| <= i < |r| ==> r[i] == "Lane_" + NatToString(i)
  {
    var count := if MaxLane(t) >= 0 then MaxLane(t) + 1 else 0;
    seq(count, i requires 0 <= i < count => if i < |names| then names[i] else "Lane_" + NatToString(i))
  }
}
