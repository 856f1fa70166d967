/** The shift log of the server: a table of `(id, start_time, end_time)` rows kept in
    id order, opened by `/start_shift`, closed by `/end_shift` and listed by
    `/history`. The server clock is the parameter `now`. */
module Shifts {
  import opened Wrappers
  import opened Models
  import opened Timestamp

  /** The JSON reply of the two write endpoints. */
  datatype Reply = Started(startTime: string) | Ended(endTime: string)

  /** How many rows `/history` returns (`LIMIT 10`). */
  const HistoryLimit: nat := 10

  /** The number of open rows. */
  function OpenCount(rows: seq<Shift>): (n: nat)
    ensures n <= |rows|
    ensures n == 0 <==> forall i :: 0 <= i < |rows| ==> !IsOpen(rows[i])
  {
    if |rows| == 0 then 0
    else (if IsOpen(rows[|rows| - 1]) then 1 else 0) + OpenCount(rows[..|rows| - 1])
  }

  /** `/start_shift`: inserts an open row stamped with `now`, unconditionally; an
      already open shift does not prevent it. */
  function StartShift(rows: seq<Shift>, now: Instant): (r: (seq<Shift>, Reply))
    ensures |r.0| == |rows| + 1 && r.0[..|rows|] == rows
    ensures IsOpen(r.0[|rows|]) && r.0[|rows|].startTime == Format(now)
    ensures forall i :: 0 <= i < |rows| ==> rows[i].id < r.0[|rows|].id
    ensures r.1 == Started(Format(now))
  {
    var stamp := Format(now);
    (rows + [Shift(NextId(rows, (row: Shift) => row.id), stamp, None)], Started(stamp))
  }

  /** `/end_shift`: stamps `now` on every open row; closed rows stay as they were, and
      the reply is `ended` even when nothing was open. */
  function EndShift(rows: seq<Shift>, now: Instant): (r: (seq<Shift>, Reply))
    ensures |r.0| == |rows|
    ensures forall i :: 0 <= i < |rows| && !IsOpen(rows[i]) ==> r.0[i] == rows[i]
    ensures forall i :: 0 <= i < |rows| && IsOpen(rows[i]) ==> r.0[i] == rows[i].(endTime := Some(Format(now)))
    ensures OpenCount(r.0) == 0
    ensures r.1 == Ended(Format(now))
  {
    var stamp := Format(now);
    var closed := seq(|rows|, i requires 0 <= i < |rows| =>
                    if IsOpen(rows[i]) then rows[i].(endTime := Some(stamp)) else rows[i]);
    (closed, Ended(stamp))
  }

  /** Starting a shift always adds an open row, so two starts leave two open shifts. */
  lemma StartShiftAddsOpenRow(rows: seq<Shift>, now: Instant)
    ensures OpenCount(StartShift(rows, now).0) == OpenCount(rows) + 1
  {
  }

  /** With nothing open, ending a shift changes no row. */
  lemma EndShiftWithoutOpenIsNoOp(rows: seq<Shift>, now: Instant)
    requires OpenCount(rows) == 0
    ensures EndShift(rows, now).0 == rows
    ensures EndShift(rows, now).1 == Ended(Format(now))
  {
  }

  /** On a table without open rows, start then end yields exactly one new row, stamped
      with both instants, and leaves the earlier rows untouched. */
  lemma StartThenEnd(rows: seq<Shift>, t1: Instant, t2: Instant)
    requires OpenCount(rows) == 0
    ensures var rows' := EndShift(StartShift(rows, t1).0, t2).0;
            && |rows'| == |rows| + 1
            && rows'[..|rows|] == rows
            && rows'[|rows|].startTime == Format(t1)
            && rows'[|rows|].endTime == Some(Format(t2))
            && OpenCount(rows') == 0
  {
  }

  lemma StartShiftPreservesOrder(rows: seq<Shift>, now: Instant)
    requires ShiftIdsAscend(rows)
    ensures ShiftIdsAscend(StartShift(rows, now).0)
  {
  }

  lemma EndShiftPreservesOrder(rows: seq<Shift>, now: Instant)
    requires ShiftIdsAscend(rows)
    ensures ShiftIdsAscend(EndShift(rows, now).0)
  {
  }

  function Reverse(s: seq<Shift>): (r: seq<Shift>)
    ensures |r| == |s|
    ensures forall i :: 0 <= i < |s| ==> r[i] == s[|s| - 1 - i]
  {
    if |s| == 0 then [] else [s[|s| - 1]] + Reverse(s[..|s| - 1])
  }

  /** `/history`: `SELECT * FROM shifts ORDER BY id DESC LIMIT 10`. */
  function History(rows: seq<Shift>): (r: seq<Shift>)
    requires ShiftIdsAscend(rows)
    ensures |r| == if |rows| < HistoryLimit then |rows| else HistoryLimit
    ensures forall i, j :: 0 <= i < j < |r| ==> r[i].id > r[j].id
    ensures forall i :: 0 <= i < |r| ==> r[i] in rows
    ensures forall k :: 0 <= k < |rows| ==> rows[k] in r || forall i :: 0 <= i < |r| ==> rows[k].id < r[i].id
  {
    var n := if |rows| < HistoryLimit then |rows| else HistoryLimit;
    var r := Reverse(rows[|rows| - n..]);
    assert forall i :: 0 <= i < |r| ==> r[i] == rows[|rows| - 1 - i];
    forall k | 0 <= k < |rows|
      ensures rows[k] in r || forall i :: 0 <= i < |r| ==> rows[k].id < r[i].id
    {
      if k >= |rows| - n {
        assert r[|rows| - 1 - k] == rows[k];
      }
    }
    r
  }
}
