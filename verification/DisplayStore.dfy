/** A display and its numbered version rows, as the handlers keep them. */
module DisplayStore {
  import opened Text
  import opened DisplayMachine

  datatype Status = Draft | Published | Archived

  datatype VersionRow = VersionRow(version: int, snapshot: Content, status: Status, publishedBy: Option<string>)

  /** The first row with a version number, or -1. */
  function FindVersion(rows: seq<VersionRow>, version: int): (i: int)
    ensures -1 <= i < |rows|
    ensures i >= 0 ==> rows[i].version == version
    ensures i < 0 ==> forall j :: 0 <= j < |rows| ==> rows[j].version != version
    decreases |rows|
  {
    if rows == [] then -1
    else
      var i := FindVersion(rows[..|rows| - 1], version);
      if i >= 0 then i else if rows[|rows| - 1].version == version then |rows| - 1 else -1
  }

  lemma {:induction false} FindNumbered(rows: seq<VersionRow>, version: int)
    requires forall i :: 0 <= i < |rows| ==> rows[i].version == i + 1
    ensures FindVersion(rows, version) == if 1 <= version <= |rows| then version - 1 else -1
  {
    if rows != [] {
      FindNumbered(rows[..|rows| - 1], version);
    }
  }

  function Snapshots(rows: seq<VersionRow>): seq<Content> {
    seq(|rows|, i requires 0 <= i < |rows| => rows[i].snapshot)
  }

  function Statuses(rows: seq<VersionRow>): seq<Status> {
    seq(|rows|, i requires 0 <= i < |rows| => rows[i].status)
  }

  /** Rows are exactly 1..n; the published row is the one the published version number names, and no other. */
  ghost predicate RowsOk(rows: seq<VersionRow>, n: int, pointer: Option<int>, publisher: Option<string>) {
    && |rows| == n && n >= 1
    && (forall i :: 0 <= i < |rows| ==> rows[i].version == i + 1)
    && (pointer.Some? ==> 1 <= pointer.value <= n)
    && (forall i :: 0 <= i < |rows| ==> (rows[i].status.Published? <==> pointer == Some(i + 1)))
    && (pointer.Some? <==> publisher.Some?)
    && (pointer.Some? ==> rows[pointer.value - 1].publishedBy == publisher)
  }

  /** The machine a set of rows and a pointer stand for. */
  ghost function AbsOf(rows: seq<VersionRow>, pointer: Option<int>, deleted: bool): Machine {
    Machine(
      if pointer.Some? && 1 <= pointer.value <= |rows| then Some(rows[pointer.value - 1].snapshot) else None,
      if rows == [] then "" else rows[|rows| - 1].snapshot,
      Snapshots(rows),
      deleted)
  }

  /** The statuses once the pointer has been taken off its row. */
  ghost function Withdrawn(rows: seq<VersionRow>, pointer: Option<int>): seq<Status> {
    if pointer.Some? && 1 <= pointer.value <= |rows| then Statuses(rows)[pointer.value - 1 := Archived] else Statuses(rows)
  }

  /** The rows with the row of a version archived. */
  function ArchivedRows(rows: seq<VersionRow>, version: int): seq<VersionRow> {
    var i := FindVersion(rows, version);
    if i >= 0 then rows[i := rows[i].(status := Archived)] else rows
  }

  lemma ArchiveKeeps(rows: seq<VersionRow>, n: int, pointer: Option<int>, publisher: Option<string>, deleted: bool)
    requires RowsOk(rows, n, pointer, publisher) && pointer.Some?
    ensures var after := ArchivedRows(rows, pointer.value);
            && RowsOk(after, n, None, None)
            && AbsOf(after, None, deleted) == AbsOf(rows, pointer, deleted).(live := None)
            && Statuses(after) == Withdrawn(rows, pointer)
            && Snapshots(after) == Snapshots(rows)
  {
    FindNumbered(rows, pointer.value);
    hide FindVersion;
    var i := pointer.value - 1;
    Restamp(rows, i, rows[i].(status := Archived));
  }

  lemma StampKeeps(rows: seq<VersionRow>, n: int, publisher: string, deleted: bool)
    requires RowsOk(rows, n, None, None)
    ensures var after := rows[n - 1 := rows[n - 1].(status := Status.Published, publishedBy := Some(publisher))];
            && RowsOk(after, n, Some(n), Some(publisher))
            && AbsOf(after, Some(n), deleted) == AbsOf(rows, None, deleted).(live := Some(AbsOf(rows, None, deleted).draft))
            && Statuses(after) == Statuses(rows)[n - 1 := Status.Published]
            && Snapshots(after) == Snapshots(rows)
  {
    Restamp(rows, n - 1, rows[n - 1].(status := Status.Published, publishedBy := Some(publisher)));
  }

  lemma DraftAppended(rows: seq<VersionRow>, n: int, pointer: Option<int>, publisher: Option<string>, deleted: bool, row: VersionRow)
    requires RowsOk(rows, n, pointer, publisher) && row.version == n + 1 && row.status == Status.Draft
    ensures RowsOk(rows + [row], n + 1, pointer, publisher)
    ensures AbsOf(rows + [row], pointer, deleted) == AbsOf(rows, pointer, deleted).Append(row.snapshot)
    ensures Statuses(rows + [row]) == Statuses(rows) + [Status.Draft]
  {
    Grow(rows, row);
  }

  lemma LiveAppended(rows: seq<VersionRow>, n: int, deleted: bool, row: VersionRow, publisher: string)
    requires RowsOk(rows, n, None, None)
    requires row.version == n + 1 && row.status == Status.Published && row.publishedBy == Some(publisher)
    ensures RowsOk(rows + [row], n + 1, Some(n + 1), Some(publisher))
    ensures AbsOf(rows + [row], Some(n + 1), deleted) ==
            AbsOf(rows, None, deleted).Append(row.snapshot).(live := Some(row.snapshot))
    ensures Statuses(rows + [row]) == Statuses(rows) + [Status.Published]
  {
    Grow(rows, row);
  }

  lemma Sizes(rows: seq<VersionRow>, n: int, pointer: Option<int>, publisher: Option<string>)
    requires RowsOk(rows, n, pointer, publisher)
    ensures |rows| == n >= 1 && |Statuses(rows)| == |Withdrawn(rows, pointer)| == n
    ensures pointer.Some? ==> 1 <= pointer.value <= n
    ensures pointer.None? ==> publisher.None? && Withdrawn(rows, pointer) == Statuses(rows)
  {
  }

  /** A row found by its version number is the history entry of that number. */
  lemma FoundIsHistory(rows: seq<VersionRow>, n: int, pointer: Option<int>, publisher: Option<string>, deleted: bool, version: int)
    requires RowsOk(rows, n, pointer, publisher)
    ensures var i, m := FindVersion(rows, version), AbsOf(rows, pointer, deleted);
            && m.history == Snapshots(rows) && |m.history| == n && m.draft == m.history[n - 1]
            && (pointer.Some? ==> m.live == Some(m.history[pointer.value - 1]))
            && (pointer.None? ==> m.live.None?)
            && i == (if 1 <= version <= n then version - 1 else -1)
            && (i >= 0 ==> rows[i].snapshot == m.history[i])
  {
    FindNumbered(rows, version);
  }

  class Display {
    var draftVersion: int
    var publishedVersion: Option<int>
    var publishedBy: Option<string>
    var isDeleted: bool
    var versions: seq<VersionRow>

    ghost predicate Valid()
      reads this
    {
      RowsOk(versions, draftVersion, publishedVersion, publishedBy) && Abs().Sound()
    }

    ghost function Abs(): Machine
      reads this
    {
      AbsOf(versions, publishedVersion, isDeleted)
    }

    /** POST /displays, and the copy that duplicating a display makes. */
    constructor (initial: Content)
      requires !CarriesValues(initial)
      ensures Valid() && Abs() == Machine(None, initial, [initial], false)
      ensures Statuses(versions) == [Status.Draft]
    {
      draftVersion, publishedVersion, publishedBy, isDeleted := 1, None, None, false;
      versions := [VersionRow(1, initial, Status.Draft, None)];
    }

    /** PUT /displays/{id}/content */
    method SaveContent(snapshot: Option<Content>, mayEdit: bool, user: string) returns (outcome: Outcome)
      requires Valid()
      modifies this
      ensures Valid() && (Abs(), outcome) == old(Abs()).Step(Request(Save(snapshot), mayEdit, user))
      ensures outcome == if old(isDeleted) then NotFound else if !mayEdit then Forbidden
                         else if snapshot.None? || CarriesValues(snapshot.value) then BadRequest else Ok
      ensures outcome.Ok? ==> Snapshots(versions) == old(Snapshots(versions)) + [snapshot.value] && draftVersion == old(draftVersion) + 1
      ensures outcome.Ok? ==> Statuses(versions) == old(Statuses(versions)) + [Status.Draft]
      ensures !outcome.Ok? ==> unchanged(this)
      ensures publishedVersion == old(publishedVersion) && publishedBy == old(publishedBy)
    {
      hide Machine.Sound, CarriesValues, RowsOk, AbsOf, Statuses;
      StepSound(Abs(), Request(Save(snapshot), mayEdit, user));
      Flag();
      if isDeleted { return NotFound; }
      if !mayEdit { return Forbidden; }
      if snapshot.None? { return BadRequest; }
      if CarriesValues(snapshot.value) { return BadRequest; }
      draftVersion := draftVersion + 1;
      var row := VersionRow(draftVersion, snapshot.value, Status.Draft, None);
      DraftAppended(versions, draftVersion - 1, publishedVersion, publishedBy, isDeleted, row);
      Grow(versions, row);
      versions := versions + [row];
      outcome := Ok;
    }

    lemma Flag()
      ensures Abs().binned == isDeleted
      ensures Valid() ==> (Abs().live.Some? <==> publishedVersion.Some?)
    {
    }

    /** POST /displays/{id}/publish */
    method PublishDraft(mayEdit: bool, user: string) returns (outcome: Outcome)
      requires Valid()
      modifies this
      ensures Valid() && (Abs(), outcome) == old(Abs()).Step(Request(Publish, mayEdit, user))
      ensures outcome == if old(isDeleted) then NotFound else if !mayEdit then Forbidden else Ok
      ensures Snapshots(versions) == old(Snapshots(versions))
      ensures outcome.Ok? ==>
                && |old(Withdrawn(versions, publishedVersion))| == draftVersion == old(draftVersion) > 0
                && Statuses(versions) == old(Withdrawn(versions, publishedVersion))[draftVersion - 1 := Status.Published]
                && publishedVersion == Some(draftVersion) && publishedBy == Some(user)
      ensures !outcome.Ok? ==> unchanged(this)
    {
      hide Machine.Sound, CarriesValues, RowsOk, AbsOf, Statuses, FindVersion, Withdrawn, ArchivedRows;
      StepSound(Abs(), Request(Publish, mayEdit, user));
      Flag();
      if isDeleted { return NotFound; }
      if !mayEdit { return Forbidden; }
      FoundIsHistory(versions, draftVersion, publishedVersion, publishedBy, isDeleted, draftVersion);
      Sizes(versions, draftVersion, publishedVersion, publishedBy);
      var draft := FindVersion(versions, draftVersion);
      if draft < 0 { assert false; return BadRequest; }
      if publishedVersion.Some? {
        ArchiveKeeps(versions, draftVersion, publishedVersion, publishedBy, isDeleted);
        versions := ArchivedRows(versions, publishedVersion.value);
      }
      Sizes(versions, draftVersion, None, None);
      StampKeeps(versions, draftVersion, user, isDeleted);
      versions := versions[draft := versions[draft].(status := Status.Published, publishedBy := Some(user))];
      publishedVersion, publishedBy := Some(draftVersion), Some(user);
      outcome := Ok;
    }

    /** POST /displays/{id}/unpublish */
    method Withdraw(mayEdit: bool, user: string) returns (outcome: Outcome)
      requires Valid()
      modifies this
      ensures Valid() && (Abs(), outcome) == old(Abs()).Step(Request(Unpublish, mayEdit, user))
      ensures outcome == if old(isDeleted) then NotFound else if !mayEdit then Forbidden
                         else if old(publishedVersion).None? then BadRequest else Ok
      ensures Snapshots(versions) == old(Snapshots(versions)) && draftVersion == old(draftVersion)
      ensures outcome.Ok? ==> Statuses(versions) == old(Withdrawn(versions, publishedVersion)) && publishedVersion.None?
      ensures !outcome.Ok? ==> unchanged(this)
    {
      hide Machine.Sound, CarriesValues, RowsOk, AbsOf, Statuses, Withdrawn, ArchivedRows;
      StepSound(Abs(), Request(Unpublish, mayEdit, user));
      Flag();
      if isDeleted { return NotFound; }
      if !mayEdit { return Forbidden; }
      if publishedVersion.None? { return BadRequest; }
      ArchiveKeeps(versions, draftVersion, publishedVersion, publishedBy, isDeleted);
      versions := ArchivedRows(versions, publishedVersion.value);
      publishedVersion, publishedBy := None, None;
      outcome := Ok;
    }

    /** POST /displays/{id}/revert: the new draft is what is live, so it becomes the published row. */
    method RevertDraft(mayEdit: bool, user: string) returns (outcome: Outcome)
      requires Valid()
      modifies this
      ensures Valid() && (Abs(), outcome) == old(Abs()).Step(Request(Revert, mayEdit, user))
      ensures outcome == if old(isDeleted) then NotFound else if !mayEdit then Forbidden
                         else if old(publishedVersion).None? then BadRequest else Ok
      ensures outcome.Ok? ==>
                && draftVersion == old(draftVersion) + 1
                && 1 <= old(publishedVersion).value <= |old(versions)|
                && Snapshots(versions) == old(Snapshots(versions)) + [old(versions)[old(publishedVersion).value - 1].snapshot]
      ensures outcome.Ok? ==>
                && Statuses(versions) == old(Withdrawn(versions, publishedVersion)) + [Status.Published]
                && publishedVersion == Some(draftVersion) && publishedBy == Some(user)
      ensures !outcome.Ok? ==> unchanged(this)
    {
      hide Machine.Sound, CarriesValues, RowsOk, AbsOf, Statuses, FindVersion, Withdrawn, ArchivedRows;
      StepSound(Abs(), Request(Revert, mayEdit, user));
      Flag();
      if isDeleted { return NotFound; }
      if !mayEdit { return Forbidden; }
      if publishedVersion.None? { return BadRequest; }
      Sizes(versions, draftVersion, publishedVersion, publishedBy);
      FoundIsHistory(versions, draftVersion, publishedVersion, publishedBy, isDeleted, publishedVersion.value);
      var published := FindVersion(versions, publishedVersion.value);
      if published < 0 { assert false; return BadRequest; }
      draftVersion := draftVersion + 1;
      var row := VersionRow(draftVersion, versions[published].snapshot, Status.Published, Some(user));
      ArchiveKeeps(versions, draftVersion - 1, publishedVersion, publishedBy, isDeleted);
      versions := ArchivedRows(versions, publishedVersion.value);
      publishedVersion, publishedBy := Some(row.version), Some(user);
      LiveAppended(versions, draftVersion - 1, isDeleted, row, user);
      Grow(versions, row);
      versions := versions + [row];
      outcome := Ok;
    }

    /** POST /displays/{id}/versions/{n}/restore */
    method RestoreAsDraft(n: int, mayEdit: bool, user: string) returns (outcome: Outcome)
      requires Valid()
      modifies this
      ensures Valid() && (Abs(), outcome) == old(Abs()).Step(Request(RestoreVersion(n), mayEdit, user))
      ensures outcome == if old(isDeleted) then NotFound else if !mayEdit then Forbidden
                         else if n < 1 || n > old(draftVersion) then NotFound else Ok
      ensures outcome.Ok? ==>
                && draftVersion == old(draftVersion) + 1 && n <= |old(versions)|
                && Snapshots(versions) == old(Snapshots(versions)) + [old(versions)[n - 1].snapshot]
      ensures outcome.Ok? ==> Statuses(versions) == old(Statuses(versions)) + [Status.Draft]
      ensures !outcome.Ok? ==> unchanged(this)
      ensures publishedVersion == old(publishedVersion) && publishedBy == old(publishedBy)
    {
      hide Machine.Sound, CarriesValues, RowsOk, AbsOf, Statuses, FindVersion;
      StepSound(Abs(), Request(RestoreVersion(n), mayEdit, user));
      Flag();
      if isDeleted { return NotFound; }
      if !mayEdit { return Forbidden; }
      FoundIsHistory(versions, draftVersion, publishedVersion, publishedBy, isDeleted, n);
      var source := FindVersion(versions, n);
      if source < 0 { return NotFound; }
      draftVersion := draftVersion + 1;
      var row := VersionRow(draftVersion, versions[source].snapshot, Status.Draft, None);
      DraftAppended(versions, draftVersion - 1, publishedVersion, publishedBy, isDeleted, row);
      Grow(versions, row);
      versions := versions + [row];
      outcome := Ok;
    }

    /** DELETE /displays/{id} and POST /displays/{id}/restore: only the flag moves, the pointer stays. */
    method SetDeleted(deleted: bool, mayEdit: bool, user: string) returns (outcome: Outcome)
      requires Valid()
      modifies this`isDeleted
      ensures Valid()
      ensures outcome == if old(isDeleted) == deleted then NotFound else if !mayEdit then Forbidden else Ok
      ensures isDeleted == if outcome.Ok? then deleted else old(isDeleted)
      ensures (Abs(), outcome) == old(Abs()).Step(Request(if deleted then Delete else Undelete, mayEdit, user))
    {
      hide Machine.Sound, CarriesValues, RowsOk;
      StepSound(Abs(), Request(if deleted then Delete else Undelete, mayEdit, user));
      if isDeleted == deleted { return NotFound; }
      if !mayEdit { return Forbidden; }
      isDeleted := deleted;
      outcome := Ok;
    }

    /** GET /displays/{id}/content */
    method ReadContent(version: Option<int>, wantPublished: bool) returns (content: Option<Content>)
      requires Valid()
      ensures content == Abs().Read(version, wantPublished)
      ensures isDeleted ==> content.None?
      ensures !isDeleted && version.Some? && 1 <= version.value <= |versions| ==> content == Some(versions[version.value - 1].snapshot)
      ensures !isDeleted && version.Some? && !(1 <= version.value <= |versions|) ==> content.None?
      ensures !isDeleted && version.None? && !wantPublished ==> versions != [] && content == Some(versions[|versions| - 1].snapshot)
      ensures !isDeleted && version.None? && wantPublished && publishedVersion.None? ==> content.None?
      ensures !isDeleted && version.None? && wantPublished && publishedVersion.Some? ==>
                1 <= publishedVersion.value <= |versions| && content == Some(versions[publishedVersion.value - 1].snapshot)
    {
      hide Machine.Sound, RowsOk, AbsOf, FindVersion;
      Flag();
      if isDeleted { return None; }
      if wantPublished && version.None? && publishedVersion.None? { return None; }
      var target := if version.Some? then version.value
                    else if wantPublished then publishedVersion.value else draftVersion;
      Sizes(versions, draftVersion, publishedVersion, publishedBy);
      FoundIsHistory(versions, draftVersion, publishedVersion, publishedBy, isDeleted, target);
      var i := FindVersion(versions, target);
      if i < 0 { return None; }
      return Some(versions[i].snapshot);
    }

    method Serve(r: Request) returns (outcome: Outcome)
      requires Valid()
      modifies this
      ensures Valid() && (Abs(), outcome) == old(Abs()).Step(r)
    {
      hide CarriesValues;
      match r.command {
        case Save(snapshot) => outcome := SaveContent(snapshot, r.mayEdit, r.user);
        case Publish => outcome := PublishDraft(r.mayEdit, r.user);
        case Unpublish => outcome := Withdraw(r.mayEdit, r.user);
        case Revert => outcome := RevertDraft(r.mayEdit, r.user);
        case RestoreVersion(n) => outcome := RestoreAsDraft(n, r.mayEdit, r.user);
        case Delete => outcome := SetDeleted(true, r.mayEdit, r.user);
        case Undelete => outcome := SetDeleted(false, r.mayEdit, r.user);
      }
    }

    /** Over every run of requests the row store is the simple machine. */
    method ServeAll(rs: seq<Request>)
      requires Valid()
      modifies this
      ensures Valid() && Abs() == old(Abs()).Run(rs)
    {
      for i := 0 to |rs|
        invariant Valid() && Abs() == old(Abs()).Run(rs[..i])
      {
        assert rs[..i + 1][..i] == rs[..i];
        var outcome := Serve(rs[i]);
      }
      assert rs[..|rs|] == rs;
    }
  }

  lemma Grow(rows: seq<VersionRow>, row: VersionRow)
    ensures Snapshots(rows + [row]) == Snapshots(rows) + [row.snapshot]
    ensures Statuses(rows + [row]) == Statuses(rows) + [row.status]
  {
  }

  lemma Restamp(rows: seq<VersionRow>, i: nat, row: VersionRow)
    requires i < |rows| && row.snapshot == rows[i].snapshot
    ensures Snapshots(rows[i := row]) == Snapshots(rows)
    ensures Statuses(rows[i := row]) == Statuses(rows)[i := row.status]
  {
  }
}
