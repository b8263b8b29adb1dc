/** Forward-filling signals onto a shared time grid. Times are milliseconds. */
module MergeGrid {
  import opened Text

  datatype Sample = Sample(ts: int, value: string)

  type Signal = seq<Sample>

  /** A merged row: the values of the measured signals, and the mode. */
  datatype Row = Row(ts: int, values: seq<string>, mode: string)

  const GRID_MS := 5000

  ghost predicate SortedSignal(s: Signal) {
    forall i, j :: 0 <= i <= j < |s| ==> s[i].ts <= s[j].ts
  }

  /** How many samples are at or before t. */
  function Reached(s: Signal, t: int, i: nat): (k: nat)
    requires i <= |s|
    ensures i <= k <= |s|
    ensures forall j :: i <= j < k ==> s[j].ts <= t
    ensures k < |s| ==> s[k].ts > t
    decreases |s| - i
  {
    if i < |s| && s[i].ts <= t then Reached(s, t, i + 1) else i
  }

  /** The latest value at or before t, if there is one. */
  function LatestAt(s: Signal, t: int): Option<string> {
    var k := Reached(s, t, 0);
    if k == 0 then None else Some(s[k - 1].value)
  }

  /** In a sorted signal the latest value is that of the last sample at or before t, and exists from the first sample on. */
  lemma LatestIs(s: Signal, t: int, i: nat)
    requires SortedSignal(s) && i < |s| && s[i].ts <= t && (i + 1 < |s| ==> s[i + 1].ts > t)
    ensures LatestAt(s, t) == Some(s[i].value)
  {
  }

  lemma LatestExistsIff(s: Signal, t: int)
    requires s != []
    ensures LatestAt(s, t).Some? <==> s[0].ts <= t
  {
  }

  /** Going on from where an earlier time stopped reaches the same sample as starting over. */
  lemma ReachOn(s: Signal, earlier: int, t: int)
    requires SortedSignal(s) && earlier <= t
    ensures Reached(s, earlier, 0) <= Reached(s, t, 0)
    ensures Reached(s, t, Reached(s, earlier, 0)) == Reached(s, t, 0)
  {
  }

  ghost predicate AllStarted(signals: seq<Signal>) {
    forall j :: 0 <= j < |signals| ==> signals[j] != []
  }

  function MaxFirst(signals: seq<Signal>): int
    requires signals != [] && AllStarted(signals)
  {
    var first := signals[0][0].ts;
    if |signals| == 1 then first
    else
      var rest := MaxFirst(signals[1..]);
      if first > rest then first else rest
  }

  /** The latest first sample, rounded up to the grid in whole seconds. */
  function GridStart(signals: seq<Signal>): int
    requires signals != [] && AllStarted(signals)
  {
    RoundUp(MaxFirst(signals))
  }

  function RoundUp(ms: int): int {
    (ms / 1000 + 4) / 5 * 5 * 1000
  }

  /** Rounding never falls behind the time it rounds, unless it cuts a fraction of a second off a grid point. */
  lemma RoundUpIff(ms: int)
    ensures RoundUp(ms) % 5000 == 0 && ms - 1000 < RoundUp(ms) < ms + 5000
    ensures RoundUp(ms) >= ms <==> ms % 1000 == 0 || (ms / 1000) % 5 != 0
  {
    var s := ms / 1000;
    assert ms == 1000 * s + ms % 1000;
    var g := (s + 4) / 5;
    assert s + 4 == 5 * g + (s + 4) % 5;
    assert RoundUp(ms) == 5000 * g;
    assert s == 5 * (s / 5) + s % 5;
  }

  lemma {:induction false} MaxFirstIs(signals: seq<Signal>)
    requires signals != [] && AllStarted(signals)
    ensures forall j :: 0 <= j < |signals| ==> signals[j][0].ts <= MaxFirst(signals)
    ensures exists j :: 0 <= j < |signals| && signals[j][0].ts == MaxFirst(signals)
  {
    if |signals| > 1 {
      var rest := signals[1..];
      MaxFirstIs(rest);
      assert forall j :: 1 <= j < |signals| ==> signals[j] == rest[j - 1];
      var k :| 0 <= k < |rest| && rest[k][0].ts == MaxFirst(rest);
      assert signals[k + 1][0].ts == MaxFirst(rest);
    } else {
      assert signals[0][0].ts == MaxFirst(signals);
    }
  }

  ghost predicate AllThere(signals: seq<Signal>, t: int) {
    forall j :: 0 <= j < |signals| ==> LatestAt(signals[j], t).Some?
  }

  /** All signals have a value at t exactly when t is not before the latest first sample. */
  lemma AllThereIff(signals: seq<Signal>, t: int)
    requires signals != [] && AllStarted(signals)
    ensures AllThere(signals, t) <==> MaxFirst(signals) <= t
  {
    MaxFirstIs(signals);
    hide Reached, LatestAt, MaxFirst;
    forall j | 0 <= j < |signals| ensures LatestAt(signals[j], t).Some? <==> signals[j][0].ts <= t {
      LatestExistsIff(signals[j], t);
    }
  }

  /** No grid point lacks a value exactly when rounding the start did not cut it short. */
  lemma NothingMissingIff(signals: seq<Signal>)
    requires signals != [] && AllStarted(signals)
    ensures (forall t :: t >= GridStart(signals) ==> AllThere(signals, t))
            <==> MaxFirst(signals) % 1000 == 0 || (MaxFirst(signals) / 1000) % 5 != 0
  {
    RoundUpIff(MaxFirst(signals));
    hide AllThere, MaxFirst, RoundUp;
    forall t ensures AllThere(signals, t) <==> MaxFirst(signals) <= t {
      AllThereIff(signals, t);
    }
    assert AllThere(signals, GridStart(signals)) <==> MaxFirst(signals) <= GridStart(signals);
  }

  /** The inner loops: move every pointer up to time t and note the last value passed. */
  method Advance(signals: seq<Signal>, idx: array<nat>, last: array<Option<string>>, ghost earlier: int, t: int)
    requires idx != last as object && idx.Length == last.Length == |signals|
    requires earlier <= t && forall j :: 0 <= j < |signals| ==> SortedSignal(signals[j])
    requires forall j :: 0 <= j < |signals| ==> idx[j] == Reached(signals[j], earlier, 0) && last[j] == LatestAt(signals[j], earlier)
    modifies idx, last
    ensures forall j :: 0 <= j < |signals| ==> idx[j] == Reached(signals[j], t, 0) && last[j] == LatestAt(signals[j], t)
    ensures forall j :: 0 <= j < |signals| ==> old(idx[j]) <= idx[j] <= |signals[j]|
  {
    hide Reached, LatestAt, SortedSignal;
    for j := 0 to |signals|
      invariant forall k :: 0 <= k < j ==> idx[k] == Reached(signals[k], t, 0) && last[k] == LatestAt(signals[k], t)
      invariant forall k :: 0 <= k < j ==> old(idx[k]) <= idx[k] <= |signals[k]|
      invariant forall k :: j <= k < |signals| ==> idx[k] == old(idx[k]) && last[k] == old(last[k])
    {
      var i, value := AdvanceOne(signals[j], idx[j], last[j], earlier, t);
      idx[j] := i;
      last[j] := value;
    }
  }

  method AdvanceOne(rows: Signal, start: nat, before: Option<string>, ghost earlier: int, t: int)
    returns (i: nat, last: Option<string>)
    requires SortedSignal(rows) && earlier <= t
    requires start == Reached(rows, earlier, 0) && before == LatestAt(rows, earlier)
    ensures i == Reached(rows, t, 0) && last == LatestAt(rows, t)
    ensures start <= i <= |rows|
  {
    ReachOn(rows, earlier, t);
    hide SortedSignal;
    i, last := start, before;
    while i < |rows| && rows[i].ts <= t
      invariant start <= i <= |rows|
      invariant Reached(rows, t, i) == Reached(rows, t, 0)
      invariant last == if i == 0 then None else Some(rows[i - 1].value)
    {
      last := Some(rows[i].value);
      i := i + 1;
    }
  }

  /** The mode's name; a mode not yet seen, or not known, has none and fails nothing. */
  function ModeName(value: Option<string>): string {
    if value == Some("AUT") then "AUTO" else if value == Some("MAN") then "MANUAL" else "UNKNOWN"
  }

  /** AUT reads AUTO, MAN reads MANUAL, anything else and nothing at all reads UNKNOWN. */
  ghost predicate ModeOk(value: Option<string>, name: string) {
    && name in {"AUTO", "MANUAL", "UNKNOWN"}
    && (name == "AUTO" <==> value == Some("AUT"))
    && (name == "MANUAL" <==> value == Some("MAN"))
  }

  lemma ModeNameOk(value: Option<string>)
    ensures ModeOk(value, ModeName(value))
  {
    assert "AUTO" != "MANUAL" && "AUTO"[0] != "UNKNOWN"[0] && "MANUAL"[0] != "UNKNOWN"[0] && "AUTO"[0] != "MANUAL"[0];
    assert "AUT"[0] != "MAN"[0];
  }

  /** All but the last signal are measured; the last is the mode. */
  function Measured(signals: seq<Signal>): seq<Signal>
    requires signals != []
  {
    signals[..|signals| - 1]
  }

  /** The measured values of a grid point, all there, and its mode. */
  ghost predicate IsRow(signals: seq<Signal>, t: int, row: Row)
    requires signals != []
  {
    && row.ts == t && |row.values| == |signals| - 1
    && (forall j :: 0 <= j < |signals| - 1 ==> LatestAt(signals[j], t) == Some(row.values[j]))
    && ModeOk(LatestAt(signals[|signals| - 1], t), row.mode)
  }

  /** The first grid points, one row each. */
  ghost predicate IsGrid(signals: seq<Signal>, start: int, end: int, out: seq<Row>)
    requires signals != []
  {
    forall k :: 0 <= k < |out| ==> start + k * 5000 <= end && IsRow(signals, start + k * 5000, out[k])
  }

  /** Converts the noted values of one grid point; a missing measured one fails the conversion. */
  method Convert(last: array<Option<string>>, t: int) returns (row: Option<Row>)
    requires last.Length > 0
    ensures row.Some? <==> forall j :: 0 <= j < last.Length - 1 ==> last[j].Some?
    ensures row.Some? ==>
              && row.value.ts == t && row.value.mode == ModeName(last[last.Length - 1])
              && ModeOk(last[last.Length - 1], row.value.mode)
              && |row.value.values| == last.Length - 1
              && forall j :: 0 <= j < last.Length - 1 ==> last[j] == Some(row.value.values[j])
  {
    ModeNameOk(last[last.Length - 1]);
    var values: seq<string> := [];
    for j := 0 to last.Length - 1
      invariant |values| == j && forall k :: 0 <= k < j ==> last[k] == Some(values[k])
    {
      if last[j].None? { return None; }
      values := values + [last[j].value];
    }
    row := Some(Row(t, values, ModeName(last[last.Length - 1])));
  }

  /**
   merge_grid, with the first signal bounding the end: one row per grid point up to the end. It fails,
   with no row at all, exactly when the grid starts before some measured signal does.
   */
  method Merge(signals: seq<Signal>) returns (done: bool, out: seq<Row>)
    requires |signals| >= 2 && AllStarted(signals) && forall j :: 0 <= j < |signals| ==> SortedSignal(signals[j])
    ensures var start, end := GridStart(signals), signals[0][|signals[0]| - 1].ts;
            && IsGrid(signals, start, end, out)
            && (done ==> start + |out| * 5000 > end)
            && (!done ==> out == [])
            && (done <==> start > end || start >= MaxFirst(Measured(signals)))
  {
    hide SortedSignal, Reached, LatestAt, MaxFirst, RoundUp, IsRow, ModeName, ModeOk, IsGrid, Measured, AllThere;
    var start, end := GridStart(signals), signals[0][|signals[0]| - 1].ts;
    ghost var earlier := EarliestBound(signals, start);
    var idx := new nat[|signals|](_ => 0);
    var last := new Option<string>[|signals|](_ => None);
    NothingYet(signals, earlier);
    out := [];
    NoGrid(signals, start, end);
    MeasuredThere(signals, start);
    var t := start;
    while t <= end
      invariant t == start + |out| * GRID_MS && earlier <= t
      invariant forall j :: 0 <= j < |signals| ==> idx[j] == Reached(signals[j], earlier, 0) && last[j] == LatestAt(signals[j], earlier)
      invariant IsGrid(signals, start, end, out)
      invariant out != [] ==> start >= MaxFirst(Measured(signals))
      decreases end - t
    {
      Advance(signals, idx, last, earlier, t);
      earlier := t;
      MeasuredThere(signals, t);
      var row := Convert(last, t);
      if row.None? { return false, out; }
      RowIs(signals, start, end, out, row.value);
      out := out + [row.value];
      t := t + GRID_MS;
    }
    done := true;
  }

  lemma MeasuredThere(signals: seq<Signal>, t: int)
    requires |signals| >= 2 && AllStarted(signals)
    ensures AllStarted(Measured(signals)) && Measured(signals) != []
    ensures (forall j :: 0 <= j < |signals| - 1 ==> LatestAt(signals[j], t).Some?) <==> MaxFirst(Measured(signals)) <= t
  {
    var measured := Measured(signals);
    assert forall j :: 0 <= j < |measured| ==> measured[j] == signals[j];
    AllThereIff(measured, t);
    hide LatestAt, MaxFirst;
  }

  lemma NoGrid(signals: seq<Signal>, start: int, end: int)
    requires signals != []
    ensures IsGrid(signals, start, end, [])
  {
  }

  lemma RowIs(signals: seq<Signal>, start: int, end: int, out: seq<Row>, row: Row)
    requires signals != [] && IsGrid(signals, start, end, out) && row.ts == start + |out| * GRID_MS <= end
    requires |row.values| == |signals| - 1 && ModeOk(LatestAt(signals[|signals| - 1], row.ts), row.mode)
    requires forall j :: 0 <= j < |signals| - 1 ==> LatestAt(signals[j], row.ts) == Some(row.values[j])
    ensures IsGrid(signals, start, end, out + [row])
  {
    hide LatestAt, ModeOk;
    assert IsRow(signals, row.ts, row);
  }

  /** A time before every sample. */
  ghost function EarliestBound(signals: seq<Signal>, t: int): (e: int)
    requires AllStarted(signals)
    ensures e <= t && forall j :: 0 <= j < |signals| ==> e < signals[j][0].ts
  {
    if signals == [] then t
    else
      var rest := EarliestBound(signals[1..], t);
      assert forall j :: 1 <= j < |signals| ==> signals[j] == signals[1..][j - 1];
      if rest < signals[0][0].ts then rest else signals[0][0].ts - 1
  }

  lemma NothingYet(signals: seq<Signal>, e: int)
    requires AllStarted(signals) && forall j :: 0 <= j < |signals| ==> e < signals[j][0].ts
    ensures forall j :: 0 <= j < |signals| ==> Reached(signals[j], e, 0) == 0 && LatestAt(signals[j], e).None?
  {
  }
}
