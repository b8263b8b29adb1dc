/** What one feed record says about an alarm. */
module AlarmFeed {
  import opened Text

  datatype Record = Record(
    correlationId: Option<string>, sourceEventId: Option<string>, eventName: Option<string>,
    state: Option<string>, severity: Option<string>, priority: int, sourceTimestamp: Option<string>,
    tagName: Option<string>, description: Option<string>, message: Option<string>, acknowledged: bool,
    asset: Option<string>, area: Option<string>, site: Option<string>)

  datatype State = Active | Cleared

  datatype Priority = Critical | High | Medium | Low

  datatype Snapshot = Snapshot(
    alarmId: string, sourceName: string, sourceEventId: string, message: string, priority: Priority,
    condition: string, state: State, timestamp: string, acknowledged: bool)

  /** A record without a tag and without a correlation id is skipped. */
  predicate Usable(r: Record) {
    !Blank(r.tagName) || !Blank(r.correlationId)
  }

  function FirstIndexOf(s: string, c: char): (i: int)
    ensures -1 <= i < |s|
  {
    if s == "" then -1
    else if s[0] == c then 0
    else
      var i := FirstIndexOf(s[1..], c);
      if i < 0 then -1 else i + 1
  }

  /** The description, else what follows the first bar of the correlation id, else the event's name. */
  function ConditionName(r: Record): string {
    var bar := if r.correlationId.Some? then FirstIndexOf(r.correlationId.value, '|') else -1;
    if !Blank(r.description) then r.description.value
    else if !Blank(r.correlationId) && bar >= 0 && Trim(r.correlationId.value[bar + 1..]) != "" then
      Trim(r.correlationId.value[bar + 1..])
    else Or(r.eventName, "Alarm")
  }

  function AlarmIdOf(r: Record): string {
    if !Blank(r.correlationId) then r.correlationId.value else Or(r.tagName, "") + "|" + ConditionName(r)
  }

  function NumericPriority(p: int): Priority {
    if p <= 1 then Critical else if p == 2 then High else if p == 3 then Medium else Low
  }

  function SeverityPriority(s: string): Priority {
    match ToUpper(s)
    case "CRITICAL" => Critical
    case "HIGH" => High
    case "MEDIUM" => Medium
    case _ => Low
  }

  /** The snapshot of a record; a record without a source timestamp takes the time it is read at. */
  function ToSnapshot(r: Record, now: string): (s: Snapshot)
    ensures s.alarmId == AlarmIdOf(r)
    ensures r.sourceTimestamp.Some? ==> s.timestamp == r.sourceTimestamp.value
  {
    Snapshot(
      AlarmIdOf(r),
      Or(r.tagName, Or(r.asset, Or(r.area, Or(r.site, "HTTP Feed")))),
      Or(r.sourceEventId, ""),
      Or(r.message, Or(r.description, "")),
      if !Blank(r.severity) then SeverityPriority(r.severity.value) else NumericPriority(r.priority),
      ConditionName(r),
      if r.state.Some? && EqualsIgnoreCase(r.state.value, "cleared") then Cleared else Active,
      Or(r.sourceTimestamp, now),
      r.acknowledged)
  }

  /** A snapshot does not depend on the clock when the record has its own timestamp. */
  lemma TimedSnapshot(r: Record, now: string, later: string)
    requires r.sourceTimestamp.Some?
    ensures ToSnapshot(r, now) == ToSnapshot(r, later)
  {
  }

  /** Records are read when they name a tag or a correlation id; the correlation id is the alarm's id if there is one. */
  lemma IdentityIs(r: Record)
    ensures Usable(r) <==> !(Blank(r.tagName) && Blank(r.correlationId))
    ensures !Blank(r.correlationId) ==> r.correlationId == Some(AlarmIdOf(r))
    ensures Blank(r.correlationId) && r.tagName.Some? ==> AlarmIdOf(r) == r.tagName.value + ("|" + ConditionName(r))
  {
    if Blank(r.correlationId) && r.tagName.Some? {
      Associate(r.tagName.value, "|", ConditionName(r));
    }
  }

  /** The condition is the description, else the trimmed text behind the first bar of the correlation id, else the event's name. */
  lemma ConditionIs(r: Record, before: string, behind: string)
    ensures !Blank(r.description) ==> r.description == Some(ConditionName(r))
    ensures Blank(r.description) && !Blank(r.correlationId)
            && '|' !in before && r.correlationId.value == before + ("|" + behind) && !Blank(Some(behind)) ==>
              ConditionName(r) == Trim(behind)
    ensures Blank(r.description) && (r.correlationId.None? || '|' !in r.correlationId.value) ==>
              ConditionName(r) == if r.eventName.Some? then r.eventName.value else "Alarm"
  {
    if r.correlationId.Some? {
      if '|' !in r.correlationId.value {
        NoIndex(r.correlationId.value, '|');
      } else if '|' !in before && r.correlationId.value == before + ("|" + behind) && !Blank(Some(behind)) {
        FirstIndexIs(before, '|', behind);
        assert r.correlationId.value[|before| + 1..] == behind;
        TrimKeeps(behind);
      }
    }
  }

  lemma {:induction false} NoIndex(s: string, c: char)
    requires c !in s
    ensures FirstIndexOf(s, c) == -1
  {
    if s != "" {
      assert s[0] != c;
      NoIndex(s[1..], c);
    }
  }

  lemma {:induction false} FirstIndexIs(before: string, c: char, behind: string)
    requires c !in before
    ensures FirstIndexOf(before + ([c] + behind), c) == |before|
  {
    var s := before + ([c] + behind);
    if before != "" {
      assert s[1..] == before[1..] + ([c] + behind);
      FirstIndexIs(before[1..], c, behind);
    }
  }

  lemma TrimKeeps(s: string)
    requires !Blank(Some(s))
    ensures Trim(s) != ""
  {
    var front, back := TrimIs(s);
    hide IsWhiteSpace;
    var c :| c in s && !IsWhiteSpace(c);
    assert Trim(s) == "" ==> s == front + back;
  }

  ghost predicate Reads(text: Option<string>, word: string) {
    text.Some? && |text.value| == |word| && forall i :: 0 <= i < |word| ==> SameLetter(text.value[i], word[i])
  }

  /** A record reads cleared or else it is active; a severity decides the priority, else the number does. */
  lemma StateAndPriority(r: Record, now: string)
    ensures ToSnapshot(r, now).state == if Reads(r.state, "cleared") then Cleared else Active
    ensures !Blank(r.severity) ==>
              ToSnapshot(r, now).priority ==
                if Reads(r.severity, "critical") then Critical
                else if Reads(r.severity, "high") then High
                else if Reads(r.severity, "medium") then Medium
                else Low
    ensures Blank(r.severity) ==>
              ToSnapshot(r, now).priority ==
                if r.priority <= 1 then Critical else if r.priority == 2 then High else if r.priority == 3 then Medium else Low
  {
    ReadsIff(r.state, "cleared", "CLEARED");
    ReadsIff(r.severity, "critical", "CRITICAL");
    ReadsIff(r.severity, "high", "HIGH");
    ReadsIff(r.severity, "medium", "MEDIUM");
    hide Reads, ToUpper, Blank;
  }

  lemma ReadsIff(text: Option<string>, word: string, capitals: string)
    requires |word| == |capitals| && forall i :: 0 <= i < |word| ==> 'a' <= word[i] <= 'z' && word[i] as int == capitals[i] as int + 32
    ensures ToUpper(word) == capitals
    ensures Reads(text, word) <==> text.Some? && ToUpper(text.value) == capitals
  {
    if text.Some? {
      IgnoreCaseIff(text.value, word);
    }
    hide SameLetter;
  }

  /** The remaining fields are copied, each from the first place that has it. */
  lemma FieldsAre(r: Record, now: string)
    ensures var s := ToSnapshot(r, now);
            && s.acknowledged == r.acknowledged && s.condition == ConditionName(r)
            && (r.sourceTimestamp.None? ==> s.timestamp == now)
            && s.sourceEventId == (if r.sourceEventId.Some? then r.sourceEventId.value else "")
            && s.message == (if r.message.Some? then r.message.value else if r.description.Some? then r.description.value else "")
            && s.sourceName == (if r.tagName.Some? then r.tagName.value
                                else if r.asset.Some? then r.asset.value
                                else if r.area.Some? then r.area.value
                                else if r.site.Some? then r.site.value else "HTTP Feed")
  {
    hide ConditionName, Blank;
  }
}
