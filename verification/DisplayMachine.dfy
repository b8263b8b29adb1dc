/**
 The machine a display's version store is meant to be: one live content, one draft content and a
 history that only grows.
 */
module DisplayMachine {
  import opened Text

  /** The raw text of a snapshot. */
  type Content = string

  const FORBIDDEN := ["\"currentValue\"", "\"processValue\"", "\"liveValue\"", "\"realTimeValue\""]

  predicate OccursAt(s: string, term: string, i: int) {
    0 <= i <= |s| - |term| && s[i..i + |term|] == term
  }

  predicate Contains(s: string, term: string) {
    exists i :: 0 <= i <= |s| && OccursAt(s, term, i)
  }

  /** A snapshot that carries process values instead of bindings only. */
  predicate CarriesValues(c: Content) {
    exists k :: 0 <= k < |FORBIDDEN| && Contains(c, FORBIDDEN[k])
  }

  /** Exactly the snapshots in which one of the four quoted names occurs. */
  lemma CarriesValuesIff(c: Content)
    ensures CarriesValues(c) <==>
            exists i, j :: 0 <= i <= j <= |c| && c[i..j] in {"\"currentValue\"", "\"processValue\"", "\"liveValue\"", "\"realTimeValue\""}
  {
    var terms := {"\"currentValue\"", "\"processValue\"", "\"liveValue\"", "\"realTimeValue\""};
    assert FORBIDDEN[0] in terms && FORBIDDEN[1] in terms && FORBIDDEN[2] in terms && FORBIDDEN[3] in terms;
    if CarriesValues(c) {
      var k :| 0 <= k < |FORBIDDEN| && Contains(c, FORBIDDEN[k]);
      var i :| 0 <= i <= |c| && OccursAt(c, FORBIDDEN[k], i);
      assert c[i..i + |FORBIDDEN[k]|] in terms;
    }
    if i, j :| 0 <= i <= j <= |c| && c[i..j] in terms {
      var term := c[i..j];
      assert OccursAt(c, term, i);
      assert exists k :: 0 <= k < |FORBIDDEN| && FORBIDDEN[k] == term;
    }
  }

  datatype Command =
    | Save(snapshot: Option<Content>)
    | Publish
    | Unpublish
    | Revert
    | RestoreVersion(n: int)
    | Delete
    | Undelete

  datatype Request = Request(command: Command, mayEdit: bool, user: string)

  datatype Outcome = Ok | NotFound | Forbidden | BadRequest

  datatype Machine = Machine(live: Option<Content>, draft: Content, history: seq<Content>, binned: bool) {

    ghost predicate Sound() {
      && history != [] && draft == history[|history| - 1]
      && (live.Some? ==> live.value in history)
      && forall c :: c in history ==> !CarriesValues(c)
    }

    function Append(c: Content): Machine {
      this.(draft := c, history := history + [c])
    }

    function Step(r: Request): (Machine, Outcome) {
      if binned != r.command.Undelete? then (this, NotFound)
      else if !r.mayEdit then (this, Forbidden)
      else
        match r.command
        case Save(None) => (this, BadRequest)
        case Save(Some(c)) => if CarriesValues(c) then (this, BadRequest) else (Append(c), Ok)
        case Publish => (this.(live := Some(draft)), Ok)
        case Unpublish => if live.None? then (this, BadRequest) else (this.(live := None), Ok)
        case Revert => if live.None? then (this, BadRequest) else (Append(live.value), Ok)
        case RestoreVersion(n) => if 1 <= n <= |history| then (Append(history[n - 1]), Ok) else (this, NotFound)
        case Delete => (this.(binned := true), Ok)
        case Undelete => (this.(binned := false), Ok)
    }

    function Run(rs: seq<Request>): Machine
      decreases |rs|
    {
      if rs == [] then this else Run(rs[..|rs| - 1]).Step(rs[|rs| - 1]).0
    }

    /** What a content read returns: an explicit version wins over the stage asked for. */
    function Read(version: Option<int>, wantPublished: bool): Option<Content> {
      if binned then None
      else if version.Some? then
        if 1 <= version.value <= |history| then Some(history[version.value - 1]) else None
      else if wantPublished then live else Some(draft)
    }
  }

  lemma {:induction false} RunSound(m: Machine, rs: seq<Request>)
    requires m.Sound()
    ensures m.Run(rs).Sound()
    decreases |rs|
  {
    hide Machine.Sound;
    if rs != [] {
      RunSound(m, rs[..|rs| - 1]);
      StepSound(m.Run(rs[..|rs| - 1]), rs[|rs| - 1]);
    }
  }

  lemma StepSound(m: Machine, r: Request)
    requires m.Sound()
    ensures m.Step(r).0.Sound()
  {
    hide CarriesValues;
    var after := m.Step(r).0;
    assert forall c :: c in after.history ==> c in m.history || c == after.draft;
    assert forall c :: c in m.history ==> c in after.history;
  }

  /** No run rewrites history: what a version number named, it names for good. */
  lemma {:induction false} HistoryOnlyGrows(m: Machine, rs: seq<Request>, k: nat)
    requires k <= |rs|
    ensures m.Run(rs[..k]).history <= m.Run(rs).history
    decreases |rs|
  {
    hide CarriesValues;
    if k < |rs| {
      HistoryOnlyGrows(m, rs[..|rs| - 1], k);
      assert rs[..|rs| - 1][..k] == rs[..k];
    } else {
      assert rs[..k] == rs;
    }
  }

  /** The i-th request of a run adds a version: a save, revert or version restore that is carried out. */
  ghost predicate AddsVersion(m: Machine, rs: seq<Request>, i: nat)
    requires i < |rs|
  {
    (rs[i].command.Save? || rs[i].command.Revert? || rs[i].command.RestoreVersion?) && m.Run(rs[..i]).Step(rs[i]).1.Ok?
  }

  /** The content a request that adds a version stores: what was sent, what is live, or the version asked for. */
  ghost predicate Stores(before: Machine, command: Command, c: Content) {
    match command
    case Save(snapshot) => snapshot == Some(c)
    case Revert => before.live == Some(c)
    case RestoreVersion(n) => 1 <= n <= |before.history| && before.history[n - 1] == c
    case _ => false
  }

  /**
   A carried-out save stores what was sent, a revert what was live, a version restore that version:
   as the next version for good, and as the draft until another version is added.
   */
  lemma StoredIsKept(m: Machine, rs: seq<Request>, i: nat, c: Content)
    requires m.Sound() && i < |rs| && AddsVersion(m, rs, i) && Stores(m.Run(rs[..i]), rs[i].command, c)
    ensures var n := |m.Run(rs[..i]).history|;
            && n < |m.Run(rs).history| && m.Run(rs).history[n] == c
            && (!m.Run(rs).binned ==> m.Run(rs).Read(Some(n + 1), false) == Some(c))
    ensures (forall j :: i < j < |rs| ==> !AddsVersion(m, rs, j)) ==>
              m.Run(rs).draft == c && (!m.Run(rs).binned ==> m.Run(rs).Read(None, false) == Some(c))
  {
    hide CarriesValues, Machine.Sound;
    var next := rs[..i + 1];
    assert next[..i] == rs[..i];
    assert m.Run(next) == m.Run(rs[..i]).Append(c);
    HistoryOnlyGrows(m, rs, i + 1);
    if forall j :: i < j < |rs| ==> !AddsVersion(m, rs, j) {
      DraftUntouched(m, rs, i + 1);
    }
  }

  /** Until a version is added, nothing changes the draft or the history. */
  lemma {:induction false} DraftUntouched(m: Machine, rs: seq<Request>, k: nat)
    requires k <= |rs| && forall j :: k <= j < |rs| ==> !AddsVersion(m, rs, j)
    ensures m.Run(rs).draft == m.Run(rs[..k]).draft && m.Run(rs).history == m.Run(rs[..k]).history
    decreases |rs|
  {
    hide CarriesValues, Machine.Step;
    if k < |rs| {
      var n := |rs| - 1;
      forall j | k <= j < n ensures !AddsVersion(m, rs[..n], j) {
        assert rs[..n][..j] == rs[..j];
        assert !AddsVersion(m, rs, j);
      }
      DraftUntouched(m, rs[..n], k);
      assert rs[..n][..k] == rs[..k];
      assert !AddsVersion(m, rs, n);
      OtherStep(m.Run(rs[..n]), rs[n]);
    } else {
      assert rs[..k] == rs;
    }
  }

  lemma OtherStep(m: Machine, r: Request)
    requires !((r.command.Save? || r.command.Revert? || r.command.RestoreVersion?) && m.Step(r).1.Ok?)
    ensures m.Step(r).0.draft == m.draft && m.Step(r).0.history == m.history
  {
    hide CarriesValues;
  }

  /** The i-th request of a run, if it is carried out, changes what is live. */
  ghost predicate SetsLive(m: Machine, rs: seq<Request>, i: nat)
    requires i < |rs|
  {
    (rs[i].command.Publish? || rs[i].command.Unpublish?) && m.Run(rs[..i]).Step(rs[i]).1.Ok?
  }

  /**
   The live content is what the last carried-out publish made live, or nothing after an unpublish.
   Saving, reverting, restoring a version, deleting and undeleting never change it.
   */
  lemma {:induction false} LiveIsLastPublish(m: Machine, rs: seq<Request>, i: nat)
    requires i < |rs| && SetsLive(m, rs, i)
    requires forall j :: i < j < |rs| ==> !SetsLive(m, rs, j)
    ensures m.Run(rs).live == if rs[i].command.Publish? then Some(m.Run(rs[..i]).draft) else None
    decreases |rs|
  {
    hide CarriesValues;
    var n := |rs| - 1;
    if i < n {
      var rest := rs[..n];
      assert forall j :: 0 <= j < n ==> rest[..j] == rs[..j];
      assert forall j :: 0 <= j < n ==> (SetsLive(m, rest, j) <==> SetsLive(m, rs, j));
      LiveIsLastPublish(m, rest, i);
      assert !SetsLive(m, rs, n);
    }
  }

  /** Until something is published or withdrawn, nothing changes what is live. */
  lemma {:induction false} LiveUntouched(m: Machine, rs: seq<Request>)
    requires forall j :: 0 <= j < |rs| ==> !SetsLive(m, rs, j)
    ensures m.Run(rs).live == m.live
    decreases |rs|
  {
    hide CarriesValues;
    if rs != [] {
      var n := |rs| - 1;
      var rest := rs[..n];
      assert forall j :: 0 <= j < n ==> rest[..j] == rs[..j];
      assert forall j :: 0 <= j < n ==> (SetsLive(m, rest, j) <==> SetsLive(m, rs, j));
      LiveUntouched(m, rest);
      assert !SetsLive(m, rs, n);
    }
  }

  /** A published read never shows an unpublished draft, and never process values. */
  lemma PublishedRead(m: Machine, rs: seq<Request>)
    requires m.Sound() && m.Run(rs).Read(None, true).Some?
    ensures var c := m.Run(rs).Read(None, true).value;
            m.Run(rs).live == Some(c) && c in m.Run(rs).history && !CarriesValues(c)
  {
    RunSound(m, rs);
  }

  /** A deleted display that is restored is live again at once, with the content it had before. */
  lemma UndeleteIsLive(m: Machine, user: string)
    requires !m.binned
    ensures m.Run([Request(Delete, true, user), Request(Undelete, true, user)]) == m
    ensures m.Run([Request(Delete, true, user)]).Read(None, true).None?
  {
    var bin := [Request(Delete, true, user)];
    var rs := [Request(Delete, true, user), Request(Undelete, true, user)];
    assert rs[..1] == bin && bin[..0] == [];
    assert m.Run(bin) == m.(binned := true);
  }
}
