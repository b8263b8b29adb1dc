/** The poller that turns feed batches into a stream of delta events. */
module AlarmIngestion {
  import opened Text
  import opened AlarmFeed

  type Known = map<string, Snapshot>

  // The consumer

  /** What a consumer holds that keeps the last event of every alarm. */
  function Fold(stream: seq<Snapshot>): Known {
    if stream == [] then map[]
    else Fold(stream[..|stream| - 1])[stream[|stream| - 1].alarmId := stream[|stream| - 1]]
  }

  /** The events of one alarm. */
  function EventsOf(stream: seq<Snapshot>, id: string): seq<Snapshot> {
    if stream == [] then []
    else
      EventsOf(stream[..|stream| - 1], id) +
      (if stream[|stream| - 1].alarmId == id then [stream[|stream| - 1]] else [])
  }

  /** No event repeats what the consumer already holds. */
  ghost predicate NoRepeats(stream: seq<Snapshot>) {
    forall i :: 0 <= i < |stream| ==>
      !(stream[i].alarmId in Fold(stream[..i]) && Fold(stream[..i])[stream[i].alarmId] == stream[i])
  }

  lemma FoldSnoc(stream: seq<Snapshot>, e: Snapshot)
    ensures Fold(stream + [e]) == Fold(stream)[e.alarmId := e]
    ensures forall id :: EventsOf(stream + [e], id) == EventsOf(stream, id) + (if e.alarmId == id then [e] else [])
  {
    assert (stream + [e])[..|stream|] == stream;
  }

  /** The consumer holds, for each alarm, the last of its events. */
  lemma {:induction false} FoldIsLast(stream: seq<Snapshot>, id: string)
    ensures id in Fold(stream) <==> EventsOf(stream, id) != []
    ensures id in Fold(stream) ==> Fold(stream)[id] == EventsOf(stream, id)[|EventsOf(stream, id)| - 1]
  {
    if stream != [] {
      FoldIsLast(stream[..|stream| - 1], id);
    }
  }

  /** In a stream without repeats no alarm has two equal events in a row. */
  lemma {:induction false} NoEqualNeighbours(stream: seq<Snapshot>, id: string, k: nat)
    requires NoRepeats(stream) && k + 1 < |EventsOf(stream, id)|
    ensures EventsOf(stream, id)[k] != EventsOf(stream, id)[k + 1]
    decreases |stream|
  {
    var rest := stream[..|stream| - 1];
    assert forall i :: 0 <= i < |rest| ==> rest[..i] == stream[..i];
    if k + 1 < |EventsOf(rest, id)| {
      NoEqualNeighbours(rest, id, k);
    } else {
      FoldIsLast(rest, id);
    }
  }

  lemma NoRepeatSnoc(stream: seq<Snapshot>, e: Snapshot)
    requires NoRepeats(stream) && !(e.alarmId in Fold(stream) && Fold(stream)[e.alarmId] == e)
    ensures NoRepeats(stream + [e])
  {
    assert forall i :: 0 <= i <= |stream| ==> (stream + [e])[..i] == stream[..i];
    assert stream[..|stream|] == stream;
  }

  lemma {:induction false} EventsOfSum(a: seq<Snapshot>, b: seq<Snapshot>, id: string)
    ensures EventsOf(a + b, id) == EventsOf(a, id) + EventsOf(b, id)
    decreases |b|
  {
    if b == [] {
      assert a + b == a;
    } else {
      var rest := b[..|b| - 1];
      EventsOfSum(a, rest, id);
      assert a + b == (a + rest) + [b[|b| - 1]];
      FoldSnoc(a + rest, b[|b| - 1]);
    }
  }

  lemma {:induction false} NoEvents(stream: seq<Snapshot>, id: string)
    requires forall k :: 0 <= k < |stream| ==> stream[k].alarmId != id
    ensures EventsOf(stream, id) == []
  {
    if stream != [] {
      NoEvents(stream[..|stream| - 1], id);
    }
  }

  // What a complete poll leaves

  function BatchIds(batch: seq<Record>): set<string> {
    set i | 0 <= i < |batch| && Usable(batch[i]) :: AlarmIdOf(batch[i])
  }

  /** The known alarms after the first n records, each read at its time on the clock. */
  function AfterRecords(known: Known, batch: seq<Record>, clock: nat -> string, n: nat): Known
    requires n <= |batch|
  {
    if n == 0 then known
    else
      var k := AfterRecords(known, batch, clock, n - 1);
      if Usable(batch[n - 1]) then k[AlarmIdOf(batch[n - 1]) := ToSnapshot(batch[n - 1], clock(n - 1))] else k
  }

  /** Record i is the last one of its alarm in the batch. */
  predicate LastOfAlarm(batch: seq<Record>, i: nat)
    requires i < |batch|
  {
    Usable(batch[i]) &&
    forall j :: i < j < |batch| && Usable(batch[j]) ==> AlarmIdOf(batch[j]) != AlarmIdOf(batch[i])
  }

  ghost predicate ReadFrom(clock: nat -> string, time: string) {
    exists n: nat :: clock(n) == time
  }

  /**
   A complete poll: every alarm of the batch has its last record; every other known alarm is
   cleared, at a time read from the clock, and otherwise as it was; no alarm is forgotten or invented.
   */
  ghost predicate Reflects(before: Known, batch: seq<Record>, clock: nat -> string, after: Known) {
    && after.Keys == before.Keys + BatchIds(batch)
    && (forall i :: 0 <= i < |batch| && LastOfAlarm(batch, i) ==>
          after[AlarmIdOf(batch[i])] == ToSnapshot(batch[i], clock(i)))
    && (forall id :: id in before && id !in BatchIds(batch) ==>
          if before[id].state == Cleared then after[id] == before[id]
          else after[id] == before[id].(state := Cleared, timestamp := after[id].timestamp) && ReadFrom(clock, after[id].timestamp))
  }

  /** The last of the first n records that is about an alarm, or -1. */
  function LastIndex(batch: seq<Record>, n: nat, id: string): (i: int)
    requires n <= |batch|
    ensures -1 <= i < n
    ensures i >= 0 ==> Usable(batch[i]) && AlarmIdOf(batch[i]) == id
    ensures forall j :: i < j < n && Usable(batch[j]) ==> AlarmIdOf(batch[j]) != id
  {
    if n == 0 then -1
    else if Usable(batch[n - 1]) && AlarmIdOf(batch[n - 1]) == id then n - 1
    else LastIndex(batch, n - 1, id)
  }

  lemma {:induction false} AfterRecordsIs(known: Known, batch: seq<Record>, clock: nat -> string, n: nat, id: string)
    requires n <= |batch|
    ensures var after, i := AfterRecords(known, batch, clock, n), LastIndex(batch, n, id);
            && (id in after <==> id in known || i >= 0)
            && (id in after ==> after[id] == if i >= 0 then ToSnapshot(batch[i], clock(i)) else known[id])
  {
    hide Usable, AlarmIdOf, ToSnapshot;
    if n > 0 {
      AfterRecordsIs(known, batch, clock, n - 1, id);
    }
  }

  /** A batch the known alarms already reflect. */
  ghost predicate Settled(known: Known, batch: seq<Record>, clock: nat -> string) {
    && (forall i :: 0 <= i < |batch| && Usable(batch[i]) ==>
          AlarmIdOf(batch[i]) in known && known[AlarmIdOf(batch[i])] == ToSnapshot(batch[i], clock(i)))
    && (forall id :: id in known && id !in BatchIds(batch) ==> known[id].state == Cleared)
  }

  /** A batch of distinct alarms that carry their own timestamps is settled once it has been polled. */
  lemma PolledIsSettled(before: Known, batch: seq<Record>, clock: nat -> string, after: Known, later: nat -> string)
    requires Reflects(before, batch, clock, after)
    requires forall i, j :: 0 <= i < j < |batch| && Usable(batch[i]) && Usable(batch[j]) ==> AlarmIdOf(batch[i]) != AlarmIdOf(batch[j])
    requires forall i :: 0 <= i < |batch| && Usable(batch[i]) ==> batch[i].sourceTimestamp.Some?
    ensures Settled(after, batch, later)
  {
    hide Usable, AlarmIdOf;
    forall i | 0 <= i < |batch| && Usable(batch[i])
      ensures AlarmIdOf(batch[i]) in after && after[AlarmIdOf(batch[i])] == ToSnapshot(batch[i], later(i))
    {
      hide ToSnapshot;
      assert LastOfAlarm(batch, i);
      TimedSnapshot(batch[i], clock(i), later(i));
    }
  }

  // The service

  /** What the HTTP read gave: the items property parsed, the whole body parsed, or neither. */
  datatype Response = Response(items: Option<seq<Record>>, whole: Option<seq<Record>>)

  function ParseResponse(r: Response): Option<seq<Record>> {
    if r.items.Some? then r.items else r.whole
  }

  /** The known alarms and the topic agree. */
  ghost predicate Agree(known: Known, stream: seq<Snapshot>) {
    Fold(stream) == known && NoRepeats(stream)
  }

  lemma PublishAgrees(known: Known, stream: seq<Snapshot>, e: Snapshot)
    requires Agree(known, stream) && !(e.alarmId in known && known[e.alarmId] == e)
    ensures Agree(known[e.alarmId := e], stream + [e])
  {
    FoldSnoc(stream, e);
    NoRepeatSnoc(stream, e);
  }

  lemma AgreeIds(known: Known, stream: seq<Snapshot>, id: string)
    requires Agree(known, stream) && id in known
    ensures known[id].alarmId == id
  {
    KnownById(stream, id);
  }

  lemma {:induction false} KnownById(stream: seq<Snapshot>, id: string)
    requires id in Fold(stream)
    ensures Fold(stream)[id].alarmId == id
  {
    if stream[|stream| - 1].alarmId != id {
      KnownById(stream[..|stream| - 1], id);
    }
  }

  class Service {
    /** The last snapshot per alarm, and the topic the events go to. */
    var known: Known
    var stream: seq<Snapshot>

    ghost predicate Valid()
      reads this
    {
      Agree(known, stream)
    }

    constructor ()
      ensures Valid() && known == map[] && stream == []
    {
      known, stream := map[], [];
    }

    /** Sends one event; the send throws before anything is appended once the budget is used up. */
    method Publish(e: Snapshot, budget: Option<nat>) returns (sent: bool, left: Option<nat>)
      requires Valid() && !(e.alarmId in known && known[e.alarmId] == e)
      modifies this
      ensures Valid()
      ensures sent <==> budget != Some(0)
      ensures budget.None? ==> left.None?
      ensures if sent then known == old(known)[e.alarmId := e] && stream == old(stream) + [e] else unchanged(this)
    {
      if budget == Some(0) { return false, budget; }
      PublishAgrees(known, stream, e);
      stream := stream + [e];
      known := known[e.alarmId := e];
      sent, left := true, if budget.Some? then Some(budget.value - 1) else None;
    }

    /** The first loop: publish what is new or changed. */
    method PublishRecords(batch: seq<Record>, clock: nat -> string, budget: Option<nat>)
      returns (done: bool, ids: set<string>, left: Option<nat>, ghost sent: seq<Snapshot>)
      requires Valid()
      modifies this
      ensures Valid() && stream == old(stream) + sent
      ensures forall k :: 0 <= k < |sent| ==> sent[k].alarmId in BatchIds(batch)
      ensures budget.None? ==> done && left.None?
      ensures done ==> ids == BatchIds(batch) && known == AfterRecords(old(known), batch, clock, |batch|)
      ensures Settled(old(known), batch, clock) ==> done && sent == [] && known == old(known)
    {
      hide Usable, AlarmIdOf, ToSnapshot, Agree;
      done, ids, left, sent := true, {}, budget, [];
      for i := 0 to |batch|
        invariant Valid() && stream == old(stream) + sent
        invariant ids == set k | 0 <= k < i && Usable(batch[k]) :: AlarmIdOf(batch[k])
        invariant forall k :: 0 <= k < |sent| ==> sent[k].alarmId in ids
        invariant budget.None? ==> left.None?
        invariant known == AfterRecords(old(known), batch, clock, i)
        invariant Settled(old(known), batch, clock) ==> sent == [] && known == old(known)
      {
        var record := batch[i];
        if Usable(record) {
          var alarmId := AlarmIdOf(record);
          ids := ids + {alarmId};
          var snapshot := ToSnapshot(record, clock(i));
          if !(alarmId in known && known[alarmId] == snapshot) {
            var ok;
            ok, left := Publish(snapshot, left);
            if !ok {
              assert ids <= BatchIds(batch);
              return false, ids, left, sent;
            }
            sent := sent + [snapshot];
          }
        }
      }
    }

    /** The second loop: an alarm that is known, absent and not yet cleared is cleared, in any order. */
    method ClearMissing(ids: set<string>, clock: nat -> string, budget: Option<nat>)
      returns (done: bool, ghost sent: seq<Snapshot>)
      requires Valid()
      modifies this
      ensures Valid() && stream == old(stream) + sent
      ensures budget.None? ==> done
      ensures done ==> Swept(old(known), known, clock, {}, ids, sent)
      ensures (forall id :: id in old(known) && id !in ids ==> old(known)[id].state == Cleared) ==>
                done && sent == [] && known == old(known)
    {
      hide Agree, Swept;
      done, sent := true, [];
      var todo, left, ticks := known.Keys, budget, 0;
      SweptStart(known, clock, ids);
      while todo != {}
        invariant Valid() && stream == old(stream) + sent
        invariant budget.None? ==> left.None?
        invariant Swept(old(known), known, clock, todo, ids, sent)
        invariant (forall id :: id in old(known) && id !in ids ==> old(known)[id].state == Cleared) ==>
                    sent == [] && known == old(known)
        decreases todo
      {
        var id :| id in todo;
        SweptNext(old(known), known, clock, todo, ids, sent, id);
        ghost var was := todo;
        todo := todo - {id};
        if id !in ids && known[id].state != Cleared {
          AgreeIds(known, stream, id);
          var cleared := known[id].(state := Cleared, timestamp := clock(ticks));
          ticks := ticks + 1;
          assert ReadFrom(clock, cleared.timestamp);
          SweptClear(old(known), known, clock, was, ids, sent, id, cleared);
          var ok;
          ok, left := Publish(cleared, left);
          if !ok { return false, sent; }
          sent := sent + [cleared];
        }
      }
    }

    /** One poll's delta. */
    method PublishDelta(batch: seq<Record>, clock: nat -> string, budget: Option<nat>)
      returns (done: bool, ghost sent: seq<Snapshot>)
      requires Valid()
      modifies this
      ensures Valid() && stream == old(stream) + sent
      ensures budget.None? ==> done
      ensures done ==> Reflects(old(known), batch, clock, known)
      ensures done ==> forall id :: id in old(known) && id !in BatchIds(batch) ==>
                EventsOf(sent, id) == if old(known)[id].state == Cleared then [] else [known[id]]
      ensures Settled(old(known), batch, clock) ==> done && sent == [] && known == old(known)
    {
      hide Agree, Usable, AlarmIdOf, ToSnapshot, AfterRecords, BatchIds, Swept, Reflects, Settled, EventsOf, Fold;
      SettledClears(known, batch, clock);
      var ids, left;
      ghost var changes, clears;
      done, ids, left, changes := PublishRecords(batch, clock, budget);
      sent := changes;
      if done {
        ghost var middle := known;
        var late: nat -> string := (n: nat) => clock(|batch| + n);
        done, clears := ClearMissing(ids, late, left);
        sent := changes + clears;
        if done {
          LaterOnTheClock(middle, known, late, clock, |batch|, ids, clears);
          CompleteReflects(old(known), batch, clock, middle, known, changes, clears);
        }
      }
    }

    /** One turn of the polling loop. An unparseable response is no data, and changes nothing. */
    method Poll(response: Response, clock: nat -> string, budget: Option<nat>) returns (done: bool, ghost sent: seq<Snapshot>)
      requires Valid()
      modifies this
      ensures Valid() && stream == old(stream) + sent
      ensures response.items.None? && response.whole.None? ==> !done && unchanged(this)
      ensures done ==> (response.items.Some? || response.whole.Some?)
                       && Reflects(old(known), if response.items.Some? then response.items.value else response.whole.value, clock, known)
      ensures (response.items.Some? || response.whole.Some?) && budget.None? ==> done
    {
      hide Agree, Reflects, Settled;
      var records := ParseResponse(response);
      if records.None? { return false, []; }
      done, sent := PublishDelta(records.value, clock, budget);
    }

    /**
     Any run of polls, with the stream after each: whatever polls fail and whenever sends throw, the
     consumer of the topic holds the known alarms and is told nothing twice; after every poll that
     completes it reflects that poll; a poll without data leaves no trace.
     */
    method PollAll(rounds: seq<Round>) returns (ghost trail: seq<seq<Snapshot>>)
      requires Valid()
      modifies this
      ensures Fold(stream) == known && IsTrail(rounds, trail)
      ensures trail[0] == old(stream) && trail[|rounds|] == stream
    {
      hide RoundOk, Agree;
      trail := [stream];
      for i := 0 to |rounds|
        invariant Valid() && |trail| == i + 1 && trail[0] == old(stream) && trail[i] == stream
        invariant forall k :: 0 <= k < i ==> RoundOk(rounds[k], trail[k], trail[k + 1])
      {
        ghost var before := known;
        var done;
        ghost var sent;
        done, sent := Poll(rounds[i].response, rounds[i].clock, rounds[i].budget);
        RoundIsOk(rounds[i], trail[i], before, sent, known);
        trail := trail + [stream];
      }
      AgreeFolds(known, stream);
    }
  }

  /** One poll of a run: its response, the clock while it runs, and after how many sends one throws, if any. */
  datatype Round = Round(response: Response, clock: nat -> string, budget: Option<nat>)

  ghost predicate RoundOk(round: Round, before: seq<Snapshot>, after: seq<Snapshot>) {
    var items, whole := round.response.items, round.response.whole;
    && before <= after && NoRepeats(after)
    && (items.None? && whole.None? ==> after == before)
    && (items.Some? && round.budget.None? ==> Reflects(Fold(before), items.value, round.clock, Fold(after)))
    && (items.None? && whole.Some? && round.budget.None? ==> Reflects(Fold(before), whole.value, round.clock, Fold(after)))
  }

  ghost predicate IsTrail(rounds: seq<Round>, trail: seq<seq<Snapshot>>) {
    |trail| == |rounds| + 1 && forall k :: 0 <= k < |rounds| ==> RoundOk(rounds[k], trail[k], trail[k + 1])
  }

  lemma RoundIsOk(round: Round, was: seq<Snapshot>, before: Known, sent: seq<Snapshot>, after: Known)
    requires Agree(before, was) && Agree(after, was + sent)
    requires round.response.items.None? && round.response.whole.None? ==> sent == []
    requires (round.response.items.Some? || round.response.whole.Some?) && round.budget.None? ==>
               Reflects(before, if round.response.items.Some? then round.response.items.value else round.response.whole.value,
                        round.clock, after)
    ensures RoundOk(round, was, was + sent)
  {
    hide Reflects, NoRepeats, Fold;
  }

  lemma AgreeFolds(known: Known, stream: seq<Snapshot>)
    requires Agree(known, stream)
    ensures Fold(stream) == known
  {
  }

  /** The second loop so far: what is in todo is untouched, the rest is cleared or kept. */
  ghost predicate Swept(before: Known, now: Known, clock: nat -> string, todo: set<string>, ids: set<string>, sent: seq<Snapshot>) {
    && now.Keys == before.Keys && todo <= now.Keys
    && forall id :: id in before ==>
         if id in todo then now[id] == before[id] && EventsOf(sent, id) == []
         else ClearedOrKept(before[id], now[id], clock, id in ids, EventsOf(sent, id))
  }

  lemma SweptStart(known: Known, clock: nat -> string, ids: set<string>)
    ensures Swept(known, known, clock, known.Keys, ids, [])
  {
  }

  lemma SweptNext(before: Known, now: Known, clock: nat -> string, todo: set<string>, ids: set<string>, sent: seq<Snapshot>, id: string)
    requires Swept(before, now, clock, todo, ids, sent) && id in todo
    ensures id in now && id in before && now[id] == before[id]
    ensures id in ids || now[id].state == Cleared ==> Swept(before, now, clock, todo - {id}, ids, sent)
  {
    hide EventsOf;
  }

  lemma SweptClear(before: Known, now: Known, clock: nat -> string, todo: set<string>, ids: set<string>, sent: seq<Snapshot>,
                   id: string, e: Snapshot)
    requires Swept(before, now, clock, todo, ids, sent) && id in todo && id !in ids && id in now && now[id].state != Cleared
    requires e == now[id].(state := Cleared, timestamp := e.timestamp) && e.alarmId == id && ReadFrom(clock, e.timestamp)
    ensures Swept(before, now[id := e], clock, todo - {id}, ids, sent + [e])
  {
    FoldSnoc(sent, e);
    hide EventsOf;
  }

  /** Cleared with one event if it was missing and not yet cleared; else kept, without an event. */
  ghost predicate ClearedOrKept(was: Snapshot, now: Snapshot, clock: nat -> string, present: bool, events: seq<Snapshot>) {
    if present || was.state == Cleared then now == was && events == []
    else now == was.(state := Cleared, timestamp := now.timestamp) && ReadFrom(clock, now.timestamp) && events == [now]
  }

  lemma SettledClears(known: Known, batch: seq<Record>, clock: nat -> string)
    ensures Settled(known, batch, clock) ==> forall id :: id in known && id !in BatchIds(batch) ==> known[id].state == Cleared
  {
  }

  /** What the first loop leaves, alarm by alarm. */
  lemma AfterBatch(before: Known, batch: seq<Record>, clock: nat -> string, id: string)
    ensures var middle := AfterRecords(before, batch, clock, |batch|);
            && (id in middle <==> id in before || id in BatchIds(batch))
            && (id in before && id !in BatchIds(batch) ==> middle[id] == before[id])
            && (forall i :: 0 <= i < |batch| && LastOfAlarm(batch, i) && AlarmIdOf(batch[i]) == id ==>
                  i == LastIndex(batch, |batch|, id) && middle[id] == ToSnapshot(batch[i], clock(i)))
  {
    AfterRecordsIs(before, batch, clock, |batch|, id);
    hide Usable, AlarmIdOf, ToSnapshot, AfterRecords, LastIndex;
  }

  /** What was read later on the same clock was read from it. */
  lemma LaterOnTheClock(before: Known, now: Known, late: nat -> string, clock: nat -> string, k: nat, ids: set<string>, sent: seq<Snapshot>)
    requires Swept(before, now, late, {}, ids, sent) && forall n :: late(n) == clock(k + n)
    ensures Swept(before, now, clock, {}, ids, sent)
  {
    forall time | ReadFrom(late, time) ensures ReadFrom(clock, time) {
      var n :| late(n) == time;
      assert clock(k + n) == time;
    }
    hide ReadFrom, EventsOf;
  }

  lemma CompleteReflects(before: Known, batch: seq<Record>, clock: nat -> string, middle: Known, after: Known,
                         changes: seq<Snapshot>, clears: seq<Snapshot>)
    requires middle == AfterRecords(before, batch, clock, |batch|)
    requires forall k :: 0 <= k < |changes| ==> changes[k].alarmId in BatchIds(batch)
    requires Swept(middle, after, clock, {}, BatchIds(batch), clears)
    ensures Reflects(before, batch, clock, after)
    ensures forall id :: id in before && id !in BatchIds(batch) ==>
              EventsOf(changes + clears, id) == if before[id].state == Cleared then [] else [after[id]]
  {
    hide Usable, AlarmIdOf, ToSnapshot, AfterRecords, EventsOf, LastIndex, Fold, LastOfAlarm, BatchIds, ReadFrom;
    forall id
      ensures id in middle <==> id in before || id in BatchIds(batch)
      ensures id in before && id !in BatchIds(batch) ==> middle[id] == before[id]
    {
      AfterBatch(before, batch, clock, id);
    }
    forall i | 0 <= i < |batch| && LastOfAlarm(batch, i)
      ensures AlarmIdOf(batch[i]) in after && after[AlarmIdOf(batch[i])] == ToSnapshot(batch[i], clock(i))
    {
      LastIsPresent(batch, i);
      AfterBatch(before, batch, clock, AlarmIdOf(batch[i]));
    }
    forall id | id in before && id !in BatchIds(batch)
      ensures EventsOf(changes + clears, id) == if before[id].state == Cleared then [] else [after[id]]
    {
      EventsOfSum(changes, clears, id);
      NoEvents(changes, id);
    }
  }

  lemma LastIsPresent(batch: seq<Record>, i: nat)
    requires i < |batch| && LastOfAlarm(batch, i)
    ensures AlarmIdOf(batch[i]) in BatchIds(batch)
  {
    hide Usable, AlarmIdOf;
  }
}
