/**
 Writing operator acknowledgements back: consume, post, publish the result, commit. The consumer and
 its surroundings are a machine of small steps; a crash can come between any two of them.
 */
module AckWriteback {
  import opened Text

  datatype Message = Message(commandId: string, alarmId: string, activeTime: int, cookie: int)

  /** What a log record holds: nothing, something that does not parse, a JSON null, or a message. */
  datatype LogEntry = Empty | Malformed | NullMessage | Ack(message: Message)

  // The idempotency key

  function Digits(n: nat): string {
    if n < 10 then [('0' as int + n) as char] else Digits(n / 10) + [('0' as int + n % 10) as char]
  }

  function Decimal(n: int): string {
    if n < 0 then "-" + Digits(-n) else Digits(n)
  }

  function FallbackKey(m: Message): string {
    m.alarmId + ['|'] + Decimal(m.activeTime) + ['|'] + Decimal(m.cookie)
  }

  function IdempotencyKey(m: Message): string {
    if !Blank(Some(m.commandId)) then m.commandId else FallbackKey(m)
  }

  lemma {:induction false} DigitsAreDigits(n: nat)
    ensures Digits(n) != "" && forall c :: c in Digits(n) ==> '0' <= c <= '9'
  {
    if n >= 10 {
      DigitsAreDigits(n / 10);
    }
  }

  /** The number a text of digits stands for in the decimal system. */
  function ValueOf(digits: string): int {
    if digits == "" then 0 else ValueOf(digits[..|digits| - 1]) * 10 + (digits[|digits| - 1] as int - '0' as int)
  }

  lemma {:induction false} DigitsRead(n: nat)
    ensures ValueOf(Digits(n)) == n
    ensures n > 0 ==> Digits(n)[0] != '0'
  {
    DigitsAreDigits(n);
    if n >= 10 {
      var s := Digits(n);
      assert s[..|s| - 1] == Digits(n / 10);
      DigitsAreDigits(n / 10);
      DigitsRead(n / 10);
    } else {
      assert ValueOf("") == 0;
      assert Digits(n)[..0] == "";
    }
  }

  /** A written integer reads back: digits without leading zeros, behind a minus if it is negative. */
  lemma DecimalRead(n: int)
    ensures Decimal(n) != "" && (n < 0 <==> Decimal(n)[0] == '-')
    ensures n < 0 ==> ValueOf(Decimal(n)[1..]) == -n && |Decimal(n)| > 1 && Decimal(n)[1] != '0'
    ensures n >= 0 ==> ValueOf(Decimal(n)) == n
    ensures n > 0 ==> Decimal(n)[0] != '0'
    ensures n == 0 ==> Decimal(n) == "0"
  {
    var m := if n < 0 then -n else n;
    DigitsAreDigits(m);
    DigitsRead(m);
    hide Digits, ValueOf;
    assert n < 0 ==> Decimal(n)[1..] == Digits(-n);
    assert n >= 0 ==> Decimal(n)[0] in Digits(n);
    assert n == 0 ==> Decimal(n) == "0" by {
      assert Digits(0) == "0" by {
        SmallDigits();
      }
    }
  }

  lemma SmallDigits()
    ensures Digits(0) == "0"
  {
  }

  lemma DecimalInjective(m: int, n: int)
    requires Decimal(m) == Decimal(n)
    ensures m == n
  {
    DecimalRead(m);
    DecimalRead(n);
  }

  lemma DecimalHasNoBar(n: int)
    ensures '|' !in Decimal(n)
  {
    DigitsAreDigits(if n < 0 then -n else n);
  }

  /** Cutting at the last bar recovers both sides. */
  lemma BarCut(a: string, x: string, b: string, y: string)
    requires '|' !in x && '|' !in y && a + ['|'] + x == b + ['|'] + y
    ensures a == b && x == y
  {
    LastIndexSnoc(a, '|', x);
    LastIndexSnoc(b, '|', y);
    hide LastIndexOf;
    var s := a + ['|'] + x;
    assert a == s[..|a|] && b == s[..|b|] && x == s[|a| + 1..] && y == s[|b| + 1..];
  }

  /** Acknowledgements without a command id share a key only when they are about the same activation. */
  lemma FallbackKeyIff(m: Message, n: Message)
    ensures FallbackKey(m) == FallbackKey(n) <==>
            m.alarmId == n.alarmId && m.activeTime == n.activeTime && m.cookie == n.cookie
  {
    if FallbackKey(m) == FallbackKey(n) {
      DecimalHasNoBar(m.activeTime);
      DecimalHasNoBar(n.activeTime);
      DecimalHasNoBar(m.cookie);
      DecimalHasNoBar(n.cookie);
      hide Decimal;
      BarCut(m.alarmId + ['|'] + Decimal(m.activeTime), Decimal(m.cookie),
             n.alarmId + ['|'] + Decimal(n.activeTime), Decimal(n.cookie));
      BarCut(m.alarmId, Decimal(m.activeTime), n.alarmId, Decimal(n.activeTime));
      DecimalInjective(m.activeTime, n.activeTime);
      DecimalInjective(m.cookie, n.cookie);
    }
  }

  /**
   The key that is sent: the command id if there is one, else alarm id, active time and cookie.
   Two acknowledgements without a command id share it exactly when they are about the same activation.
   */
  lemma KeyIff(m: Message, n: Message)
    ensures !Blank(Some(m.commandId)) ==> IdempotencyKey(m) == m.commandId
    ensures Blank(Some(m.commandId)) ==> IdempotencyKey(m) == m.alarmId + ['|'] + Decimal(m.activeTime) + ['|'] + Decimal(m.cookie)
    ensures Blank(Some(m.commandId)) && Blank(Some(n.commandId)) ==>
              (IdempotencyKey(m) == IdempotencyKey(n) <==>
               m.alarmId == n.alarmId && m.activeTime == n.activeTime && m.cookie == n.cookie)
    ensures !Blank(Some(m.commandId)) && !Blank(Some(n.commandId)) ==>
              (IdempotencyKey(m) == IdempotencyKey(n) <==> m.commandId == n.commandId)
  {
    FallbackKeyIff(m, n);
    hide Decimal, Blank;
  }

  // The protocol

  datatype Result = Result(offset: nat, confirmed: bool)

  datatype Phase = Idle | Posted(offset: nat, confirmed: bool) | Reported(offset: nat)

  datatype Action =
    | Append(entry: LogEntry)
    | Skip
    | Post(delivered: bool, confirmed: bool)
    | PublishOk
    | PublishFail
    | Commit
    | CommitFail
    | Restart

  /**
   log is the topic; position and committed are the consumer's offsets in it. applied lists the keys
   the receiver acted on, delivered the offsets that ever reached it. passed holds the offsets whose result could not be published since the
   last restart: the consumer does not seek back to them.
   */
  datatype World = World(log: seq<LogEntry>, position: nat, committed: nat, phase: Phase,
                         results: seq<Result>, applied: seq<string>, delivered: set<nat>, passed: set<nat>) {

    predicate Enabled(a: Action) {
      match a
      case Append(_) => true
      case Skip => phase.Idle? && position < |log| && !log[position].Ack?
      case Post(delivered, confirmed) => phase.Idle? && position < |log| && log[position].Ack? && (confirmed ==> delivered)
      case PublishOk => phase.Posted?
      case PublishFail => phase.Posted?
      case Commit => phase.Reported?
      case CommitFail => phase.Reported?
      case Restart => true
    }

    /** A step; one that is not possible changes nothing. */
    function Step(a: Action): World {
      if !Enabled(a) then this
      else
        match a
        case Append(e) => this.(log := log + [e])
        case Skip => this.(position := position + 1, committed := position + 1)
        case Post(delivered, confirmed) =>
          this.(position := position + 1, phase := Posted(position, confirmed),
                applied := if delivered then Receive(IdempotencyKey(log[position].message)) else applied,
                delivered := if delivered then this.delivered + {position} else this.delivered)
        case PublishOk => this.(phase := Reported(phase.offset), results := results + [Result(phase.offset, phase.confirmed)])
        case PublishFail => this.(phase := Idle, passed := passed + {phase.offset})
        case Commit => this.(phase := Idle, committed := phase.offset + 1)
        case CommitFail => this.(phase := Idle)
        case Restart => this.(phase := Idle, position := committed, passed := {})
    }

    /** The receiver acts on a key once and drops it when it comes again. */
    function Receive(key: string): seq<string> {
      if key in applied then applied else applied + [key]
    }

    function Run(actions: seq<Action>): World
      decreases |actions|
    {
      if actions == [] then this else Run(actions[..|actions| - 1]).Step(actions[|actions| - 1])
    }

    ghost predicate HasResult(o: nat) {
      exists k :: 0 <= k < |results| && results[k].offset == o
    }

    /** Every offset below the committed one carries no acknowledgement, or its result was published. */
    ghost predicate Safe() {
      forall o: nat :: o < committed && o < |log| && log[o].Ack? ==> HasResult(o)
    }

    ghost predicate Inv() {
      && committed <= position <= |log|
      && (!phase.Idle? ==> phase.offset + 1 == position && log[phase.offset].Ack?)
      && (phase.Reported? ==> HasResult(phase.offset))
      && (forall o :: o in passed ==> o < position && log[o].Ack?)
      && (phase.Posted? ==> phase.offset >= committed && phase.offset !in passed)
      && (phase.Reported? ==> phase.offset >= committed)
      && (forall o: nat :: committed <= o < position && log[o].Ack? && o !in passed && !(phase.Posted? && phase.offset == o)
                           ==> HasResult(o))
      && (forall k :: 0 <= k < |results| ==> results[k].offset < |log| && log[results[k].offset].Ack?)
      && (forall k :: 0 <= k < |results| && results[k].confirmed ==> results[k].offset in delivered)
      && (phase.Posted? && phase.confirmed ==> phase.offset in delivered)
      && (forall o :: o in delivered ==> o < |log| && log[o].Ack? && KeyAt(o) in applied)
      && (forall k :: 0 <= k < |applied| ==> Explained(applied[k]))
      && (forall i, j :: 0 <= i < j < |applied| ==> applied[i] != applied[j])
    }

    /** Something with that key reached the receiver. */
    ghost predicate Explained(key: string) {
      exists o :: o in delivered && KeyAt(o) == key
    }

    function KeyAt(o: nat): string {
      if o < |log| && log[o].Ack? then IdempotencyKey(log[o].message) else ""
    }

    /** The step is a commit, and an acknowledgement without a result was passed over. */
    ghost predicate Risky(a: Action) {
      Enabled(a) && (a.Commit? || a.Skip?) && exists o :: o in passed && !HasResult(o)
    }
  }

  lemma ResultsKept(w: World, a: Action, o: nat)
    requires w.Inv() && w.HasResult(o)
    ensures w.Step(a).HasResult(o)
  {
    var k :| 0 <= k < |w.results| && w.results[k].offset == o;
    assert w.Step(a).results[k] == w.results[k];
  }

  /** The receiver goes on holding exactly the keys of what reached it. */
  lemma KeysKept(w: World, a: Action)
    requires w.Inv()
    ensures var v := w.Step(a);
            && (forall o :: o in v.delivered ==> o < |v.log| && v.log[o].Ack? && v.KeyAt(o) in v.applied)
            && (forall k :: 0 <= k < |v.applied| ==> v.Explained(v.applied[k]))
  {
    hide IdempotencyKey;
    var v := w.Step(a);
    forall k | 0 <= k < |v.applied| ensures v.Explained(v.applied[k]) {
      if k < |w.applied| {
        StillExplained(w, a, w.applied[k]);
      } else {
        assert w.position in v.delivered && v.KeyAt(w.position) == v.applied[k];
      }
    }
    hide World.Explained;
    forall o | o in v.delivered ensures o < |v.log| && v.log[o].Ack? && v.KeyAt(o) in v.applied {
      if o in w.delivered {
        assert v.KeyAt(o) == w.KeyAt(o);
      }
    }
  }

  lemma StillExplained(w: World, a: Action, key: string)
    requires (forall o :: o in w.delivered ==> o < |w.log|) && w.Explained(key)
    ensures w.Step(a).Explained(key)
  {
    hide IdempotencyKey;
    var o :| o in w.delivered && w.KeyAt(o) == key;
    assert o in w.Step(a).delivered && w.Step(a).KeyAt(o) == w.KeyAt(o);
  }

  lemma StepInv(w: World, a: Action)
    requires w.Inv()
    ensures w.Step(a).Inv()
  {
    KeysKept(w, a);
    hide IdempotencyKey, World.Explained;
    var v := w.Step(a);
    forall o: nat | w.HasResult(o) ensures v.HasResult(o) {
      ResultsKept(w, a, o);
    }
    if a.PublishOk? && w.Enabled(a) {
      assert v.results[|w.results|].offset == w.phase.offset;
    }
  }

  /** A step keeps the committed part safe exactly when it is no risky commit. */
  lemma StepSafeIff(w: World, a: Action)
    requires w.Inv() && w.Safe()
    ensures w.Step(a).Safe() <==> !w.Risky(a)
  {
    hide IdempotencyKey;
    var v := w.Step(a);
    forall o: nat | w.HasResult(o) ensures v.HasResult(o) {
      ResultsKept(w, a, o);
    }
    if w.Risky(a) {
      var o :| o in w.passed && !w.HasResult(o);
      assert v.results == w.results && o < v.committed && !v.HasResult(o);
    }
  }

  lemma NoNewResult(w: World, a: Action, o: nat)
    requires !w.HasResult(o) && !(w.phase.Posted? && w.phase.offset == o)
    ensures !w.Step(a).HasResult(o)
  {
  }

  /** An acknowledgement lost to a commit stays lost: nothing ever goes back to it. */
  lemma LostForever(w: World, a: Action)
    requires w.Inv() && !w.Safe()
    ensures !w.Step(a).Safe()
  {
    hide IdempotencyKey;
    var v := w.Step(a);
    var o: nat :| o < w.committed && o < |w.log| && w.log[o].Ack? && !w.HasResult(o);
    NoNewResult(w, a, o);
    assert o < v.committed && v.log[o].Ack? && !v.HasResult(o);
  }

  lemma {:induction false} RunInv(w: World, actions: seq<Action>)
    requires w.Inv()
    ensures w.Run(actions).Inv()
    decreases |actions|
  {
    hide World.Inv, World.Step;
    if actions != [] {
      RunInv(w, actions[..|actions| - 1]);
      StepInv(w.Run(actions[..|actions| - 1]), actions[|actions| - 1]);
    }
  }

  /**
   Over any run, with crashes at any step, the committed part stays safe exactly when no commit of
   the run passes over an acknowledgement whose result is still missing.
   */
  lemma {:induction false} RunSafeIff(w: World, actions: seq<Action>)
    requires w.Inv() && w.Safe()
    ensures w.Run(actions).Safe() <==> forall i :: 0 <= i < |actions| ==> !w.Run(actions[..i]).Risky(actions[i])
    decreases |actions|
  {
    hide World.Inv, World.Step, World.Safe, World.Risky;
    if actions != [] {
      var n := |actions| - 1;
      var rest := actions[..n];
      assert forall i :: 0 <= i <= n ==> rest[..i] == actions[..i];
      RunInv(w, rest);
      RunSafeIff(w, rest);
      var before := w.Run(rest);
      if before.Safe() {
        StepSafeIff(before, actions[n]);
      } else {
        LostForever(before, actions[n]);
      }
    }
  }

  /** Restarting after each failed result publish, before any other commit, is enough. */
  lemma RestartIsEnough(w: World, actions: seq<Action>)
    requires w.Inv() && w.Safe()
    requires forall i :: 0 <= i < |actions| && (actions[i].Commit? || actions[i].Skip?) ==> w.Run(actions[..i]).passed == {}
    ensures w.Run(actions).Safe()
  {
    hide World.Inv, World.Step, World.Safe, World.Run;
    RunSafeIff(w, actions);
  }

  /** Whatever is posted again after crashes, the receiver acts on a key at most once, and on every confirmed one. */
  lemma EffectsOnce(w: World, actions: seq<Action>, i: nat, j: nat)
    requires w.Inv() && i < j < |w.Run(actions).applied|
    ensures w.Run(actions).applied[i] != w.Run(actions).applied[j]
    ensures forall o :: o in w.Run(actions).delivered ==> w.Run(actions).KeyAt(o) in w.Run(actions).applied
    ensures forall k :: 0 <= k < |w.Run(actions).applied| ==>
              w.Run(actions).Explained(w.Run(actions).applied[k])
    ensures forall k :: 0 <= k < |w.Run(actions).results| && w.Run(actions).results[k].confirmed ==>
              w.Run(actions).KeyAt(w.Run(actions).results[k].offset) in w.Run(actions).applied
  {
    hide IdempotencyKey, World.Explained;
    RunInv(w, actions);
  }

  /** Two acknowledgements; the first result cannot be published, the consumer goes on and commits past it. */
  lemma PassedOverWitness(first: Message, second: Message)
    ensures var w := World([Ack(first), Ack(second)], 0, 0, Idle, [], [], {}, {});
            var run := [Post(true, true), PublishFail, Post(true, true), PublishOk, Commit];
            w.Inv() && w.Safe() && w.Run(run).committed == 2 && !w.Run(run).Safe()
  {
    FreshLogIsSafe([Ack(first), Ack(second)]);
    hide IdempotencyKey, World.Inv;
    var w := World([Ack(first), Ack(second)], 0, 0, Idle, [], [], {}, {});
    var run := [Post(true, true), PublishFail, Post(true, true), PublishOk, Commit];
    RunOf(w, run);
    hide World.Run;
    var end := w.Step(run[0]).Step(run[1]).Step(run[2]).Step(run[3]).Step(run[4]);
    assert end.results == [Result(1, true)] && end.log[0].Ack? && end.committed == 2;
    assert !end.HasResult(0);
  }

  lemma FreshLogIsSafe(log: seq<LogEntry>)
    ensures World(log, 0, 0, Idle, [], [], {}, {}).Inv() && World(log, 0, 0, Idle, [], [], {}, {}).Safe()
  {
  }

  lemma RunOf(w: World, run: seq<Action>)
    requires |run| == 5
    ensures w.Run(run) == w.Step(run[0]).Step(run[1]).Step(run[2]).Step(run[3]).Step(run[4])
  {
    hide World.Step;
    assert run[..4][..3] == run[..3] && run[..3][..2] == run[..2] && run[..2][..1] == run[..1] && run[..1][..0] == [];
    assert w.Run(run[..1]) == w.Step(run[0]);
    assert w.Run(run[..2]) == w.Run(run[..1]).Step(run[1]);
    assert w.Run(run[..3]) == w.Run(run[..2]).Step(run[2]);
    assert w.Run(run[..4]) == w.Run(run[..3]).Step(run[3]);
  }

  // The loop

  /** How the outside answers in one turn: the post, the result publish and the commit. */
  datatype Answers = Answers(delivered: bool, confirmed: bool, published: bool, committed: bool)

  class Service {
    var log: seq<LogEntry>
    var position: nat
    var committed: nat
    var results: seq<Result>
    var applied: seq<string>
    ghost var delivered: set<nat>
    var passed: set<nat>

    ghost function Now(): World
      reads this
    {
      World(log, position, committed, Idle, results, applied, delivered, passed)
    }

    constructor (log: seq<LogEntry>, start: nat)
      ensures Now() == World(log, start, start, Idle, [], [], {}, {})
    {
      this.log, position, committed := log, start, start;
      results, applied, delivered, passed := [], [], {}, {};
    }

    /** One turn of the consume loop: from fetching a record to committing it, or giving up on it. */
    method Turn(answers: Answers)
      requires answers.confirmed ==> answers.delivered
      modifies this`position, this`committed, this`results, this`applied, this`delivered, this`passed
      ensures Now() == old(Now()).Run(TurnActions(old(Now()), answers))
      ensures old(position) >= |log| ==> unchanged(this)
      ensures old(position) < |log| && !log[old(position)].Ack? ==>
                committed == position == old(position) + 1 && results == old(results) && applied == old(applied) && passed == old(passed)
      ensures old(position) < |log| && log[old(position)].Ack? ==>
                && position == old(position) + 1
                && results == old(results) + (if answers.published then [Result(old(position), answers.confirmed)] else [])
                && committed == (if answers.published && answers.committed then old(position) + 1 else old(committed))
                && passed == old(passed) + (if answers.published then {} else {old(position)})
                && old(applied) <= applied && (!answers.delivered ==> applied == old(applied))
      ensures old(position) < |log| && log[old(position)].Ack? && answers.delivered ==>
                var m := log[old(position)].message;
                && (!Blank(Some(m.commandId)) ==> applied == old(applied) + (if m.commandId in old(applied) then [] else [m.commandId]))
                && (Blank(Some(m.commandId)) && old(Now().Inv())
                    && (forall o | o in old(delivered) && o < |log| && log[o].Ack? ::
                          Blank(Some(log[o].message.commandId)) && !SameActivation(m, log[o].message)) ==>
                      |applied| == |old(applied)| + 1)
    {
      ghost var start := Now();
      NewKey(start);
      TurnIs(start, answers);
      hide World.Run, World.Step, World.Inv, IdempotencyKey, Blank, SameActivation;
      if position >= |log| { return; }
      var entry, offset := log[position], position;
      position := position + 1;
      if !entry.Ack? {
        committed := offset + 1;
        return;
      }
      var key := IdempotencyKey(entry.message);
      if answers.delivered && key !in applied {
        applied := applied + [key];
      }
      if answers.delivered {
        delivered := delivered + {offset};
      }
      if answers.published {
        results := results + [Result(offset, answers.confirmed)];
        if answers.committed {
          committed := offset + 1;
        }
      } else {
        passed := passed + {offset};
      }
    }
  }

  ghost predicate SameActivation(m: Message, n: Message) {
    m.alarmId == n.alarmId && m.activeTime == n.activeTime && m.cookie == n.cookie
  }

  /** An acknowledgement about something that none before it was about has a key of its own. */
  lemma NewKey(w: World)
    ensures w.position < |w.log| && w.log[w.position].Ack? ==>
              var m := w.log[w.position].message;
              && (!Blank(Some(m.commandId)) ==> IdempotencyKey(m) == m.commandId)
              && (Blank(Some(m.commandId)) && w.Inv()
                  && (forall o | o in w.delivered && o < |w.log| && w.log[o].Ack? ::
                        Blank(Some(w.log[o].message.commandId)) && !SameActivation(m, w.log[o].message)) ==>
                    IdempotencyKey(m) !in w.applied)
  {
    hide IdempotencyKey, Blank;
    if w.position < |w.log| && w.log[w.position].Ack? {
      var m := w.log[w.position].message;
      KeyIff(m, m);
      if Blank(Some(m.commandId)) && w.Inv() && IdempotencyKey(m) in w.applied {
        var k :| 0 <= k < |w.applied| && w.applied[k] == IdempotencyKey(m);
        assert w.Explained(w.applied[k]);
        var o :| o in w.delivered && w.KeyAt(o) == w.applied[k];
        KeyIff(m, w.log[o].message);
      }
    }
  }

  /** The steps one turn of the loop makes. */
  function TurnActions(w: World, answers: Answers): seq<Action> {
    if w.position >= |w.log| then []
    else if !w.log[w.position].Ack? then [Skip]
    else if !answers.published then [Post(answers.delivered, answers.confirmed), PublishFail]
    else [Post(answers.delivered, answers.confirmed), PublishOk, if answers.committed then Commit else CommitFail]
  }

  lemma TurnRuns(w: World, answers: Answers)
    ensures var actions := TurnActions(w, answers);
            w.Run(actions) ==
              if |actions| == 0 then w
              else if |actions| == 1 then w.Step(actions[0])
              else if |actions| == 2 then w.Step(actions[0]).Step(actions[1])
              else w.Step(actions[0]).Step(actions[1]).Step(actions[2])
  {
    hide World.Step;
    var actions := TurnActions(w, answers);
    if |actions| > 0 {
      assert actions[..1][..0] == [] && (|actions| == 1 ==> actions == actions[..1]);
      assert w.Run(actions[..1]) == w.Step(actions[0]);
    }
    if |actions| > 1 {
      assert actions[..2][..1] == actions[..1] && (|actions| == 2 ==> actions == actions[..2]);
      assert w.Run(actions[..2]) == w.Run(actions[..1]).Step(actions[1]);
    }
  }

  /** Where one turn leads, field by field. */
  lemma TurnIs(w: World, answers: Answers)
    requires w.phase.Idle? && (answers.confirmed ==> answers.delivered)
    ensures var end := w.Run(TurnActions(w, answers));
            if w.position >= |w.log| then end == w
            else if !w.log[w.position].Ack? then end == w.(position := w.position + 1, committed := w.position + 1)
            else
              var key := IdempotencyKey(w.log[w.position].message);
              end == w.(position := w.position + 1,
                        committed := if answers.published && answers.committed then w.position + 1 else w.committed,
                        results := if answers.published then w.results + [Result(w.position, answers.confirmed)] else w.results,
                        applied := if answers.delivered && key !in w.applied then w.applied + [key] else w.applied,
                        delivered := if answers.delivered then w.delivered + {w.position} else w.delivered,
                        passed := if answers.published then w.passed else w.passed + {w.position})
  {
    TurnRuns(w, answers);
    hide World.Run, IdempotencyKey;
  }
}
