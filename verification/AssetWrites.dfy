/**
 The other two halves of a bulk request, patches and deletes, and the exact condition under which a
 whole request keeps the tree. Every check in a request looks at the tree as it was before it.
 */
module AssetWrites {
  import opened Text
  import opened AssetPaths
  import opened AssetTree
  import opened AssetBulk

  datatype Patch = Patch(id: Id, name: Option<string>, parentId: Option<Id>)

  datatype WriteError = UnknownAsset(id: Id) | UnknownParent(id: Id) | WrongParent(id: Id) | ChildrenOutside(id: Id)

  // Patches

  predicate PatchAccepted(db: Rows, u: Patch) {
    && Live(db, u.id)
    && (u.parentId.Some? ==> NaturalParentIs(db, db[u.id].path, db[u.id].kind, u.parentId.value))
  }

  function Patched(a: Asset, u: Patch): Asset {
    a.(name := if u.name.Some? then u.name.value else a.name,
       parentId := if u.parentId.Some? then u.parentId else a.parentId)
  }

  /** The table after the patches, in order; refused patches change nothing. */
  function PatchAll(db: Rows, us: seq<Patch>): (r: Rows)
    ensures r.Keys == db.Keys
    ensures forall id :: id in db ==>
              r[id].path == db[id].path && r[id].kind == db[id].kind && r[id].isDeleted == db[id].isDeleted
  {
    if us == [] then db
    else
      var u := us[|us| - 1];
      var r := PatchAll(db, us[..|us| - 1]);
      if PatchAccepted(db, u) then r[u.id := Patched(r[u.id], u)] else r
  }

  /** After the patches a node has the parent it had, or one an accepted patch gave it; there is no third. */
  lemma {:induction false} PatchedParent(db: Rows, us: seq<Patch>, id: Id, p: Id)
    requires UniquePaths(db) && AllLinked(db) && Live(db, id)
    ensures PatchAll(db, us)[id].parentId == Some(p) <==>
            db[id].parentId == Some(p) ||
            exists u :: u in us && u.id == id && u.parentId == Some(p) && PatchAccepted(db, u)
  {
    hide ParentPathOf, NaturalParentIs;
    if us != [] {
      var rest, last := us[..|us| - 1], us[|us| - 1];
      PatchedParent(db, rest, id, p);
      assert us == rest + [last];
      if last.id == id && PatchAccepted(db, last) && last.parentId.Some? {
        var q := last.parentId.value;
        assert Linked(db, db[id]);
        if NaturalParentIs(db, db[id].path, db[id].kind, p) {
          NaturalParentUnique(db, db[id].path, db[id].kind, p, q);
        }
      }
    }
  }

  /** A patch is taken for a live node, with no parent or a live one of a higher level that has the natural parent's path. */
  lemma PatchAcceptedIff(db: Rows, u: Patch)
    ensures PatchAccepted(db, u) <==>
            && u.id in db && !db[u.id].isDeleted
            && (u.parentId.Some? ==>
                  var p := u.parentId.value;
                  && p in db && !db[p].isDeleted
                  && db[p].kind.Level() < db[u.id].kind.Level()
                  && ParentPathOf(db[u.id].path, db[u.id].kind) == Some(db[p].path))
  {
    hide ParentPathOf;
  }

  /** The last patch that is taken and names a node gives it its name; without one it keeps its name. */
  lemma {:induction false} PatchedName(db: Rows, us: seq<Patch>, id: Id, i: nat)
    requires id in db && i <= |us|
    requires forall j :: i < j < |us| && us[j].id == id && us[j].name.Some? ==> !PatchAccepted(db, us[j])
    requires i < |us| ==> us[i].id == id && us[i].name.Some? && PatchAccepted(db, us[i])
    requires i == |us| ==> forall j :: 0 <= j < |us| && us[j].id == id && us[j].name.Some? ==> !PatchAccepted(db, us[j])
    ensures PatchAll(db, us)[id].name == if i < |us| then us[i].name.value else db[id].name
  {
    hide PatchAccepted;
    if us != [] {
      var n := |us| - 1;
      assert forall j :: 0 <= j < n ==> us[..n][j] == us[j];
      if i != n {
        PatchedName(db, us[..n], id, if i < n then i else n);
      }
    }
  }

  /** Why a patch is refused, if it is. */
  function PatchError(db: Rows, u: Patch): (r: Option<WriteError>)
    ensures r.None? <==> PatchAccepted(db, u)
  {
    if !Live(db, u.id) then Some(UnknownAsset(u.id))
    else if u.parentId.Some? && !Live(db, u.parentId.value) then Some(UnknownParent(u.id))
    else if u.parentId.Some? && !NaturalParentIs(db, db[u.id].path, db[u.id].kind, u.parentId.value) then Some(WrongParent(u.id))
    else None
  }

  lemma PatchStep(db: Rows, us: seq<Patch>, i: nat)
    requires i < |us|
    ensures PatchAccepted(db, us[i]) ==> us[i].id in db
    ensures PatchAll(db, us[..i + 1]) ==
            var r := PatchAll(db, us[..i]);
            if PatchAccepted(db, us[i]) then r[us[i].id := Patched(r[us[i].id], us[i])] else r
  {
    hide NaturalParentIs;
    assert us[..i + 1][..i] == us[..i];
  }

  method ApplyPatches(db: Rows, us: seq<Patch>) returns (rows: Rows, updated: nat, errors: seq<WriteError>)
    ensures rows == PatchAll(db, us)
    ensures updated + |errors| == |us|
    ensures errors == [] <==> forall u :: u in us ==> PatchAccepted(db, u)
  {
    hide PatchAccepted, PatchError, PatchAll, Patched;
    rows, updated, errors := db, 0, [];
    assert PatchAll(db, us[..0]) == db by {
      PatchNone(db);
      assert us[..0] == [];
    }
    for i := 0 to |us|
      invariant rows == PatchAll(db, us[..i])
      invariant updated + |errors| == i
      invariant errors == [] <==> forall k :: 0 <= k < i ==> PatchAccepted(db, us[k])
    {
      PatchStep(db, us, i);
      var error := PatchError(db, us[i]);
      if error.Some? {
        errors := errors + [error.value];
      } else {
        rows := rows[us[i].id := Patched(rows[us[i].id], us[i])];
        updated := updated + 1;
      }
    }
    assert us[..|us|] == us;
  }

  lemma PatchNone(db: Rows)
    ensures PatchAll(db, []) == db
  {
  }

  // Deletes

  /** A listed node with a live child that is not listed. */
  ghost predicate Blocked(db: Rows, ids: set<Id>, p: Id) {
    p in ids && exists c :: Live(db, c) && db[c].parentId == Some(p) && c !in ids
  }

  ghost function Removed(db: Rows, ids: set<Id>): set<Id> {
    set d | d in ids && Live(db, d) && !Blocked(db, ids, d)
  }

  function MarkDeleted(rows: Rows, gone: set<Id>): Rows {
    map id | id in rows :: if id in gone then rows[id].(isDeleted := true) else rows[id]
  }

  method ApplyDeletes(db: Rows, rows: Rows, deletes: seq<Id>) returns (result: Rows, gone: set<Id>, errors: seq<WriteError>)
    requires rows.Keys >= db.Keys
    ensures gone == Removed(db, set d | d in deletes)
    ensures result == MarkDeleted(rows, gone)
    ensures |gone| + |errors| == |set d | d in deletes && Live(db, d)|
    ensures forall d :: d in gone <==>
              && d in deletes && d in db && !db[d].isDeleted
              && forall c :: c in db && !db[c].isDeleted && db[c].parentId == Some(d) ==> c in deletes
    ensures result.Keys == rows.Keys && forall id :: id in rows ==>
              result[id] == rows[id].(isDeleted := rows[id].isDeleted || id in gone)
  {
    var ids := set d | d in deletes;
    var live := set d | d in deletes && Live(db, d);
    var blocked := set c | c in db && Live(db, c) && db[c].parentId.Some? && db[c].parentId.value in ids && c !in ids
                     :: db[c].parentId.value;
    BlockedIs(db, ids, blocked);
    result, gone, errors := Sweep(rows, live, blocked);
    RemovedIs(db, deletes, ids);
    MarkIs(rows, gone);
  }

  /** What goes: the listed live nodes all of whose live children are listed. */
  lemma RemovedIs(db: Rows, deletes: seq<Id>, ids: set<Id>)
    requires ids == set d | d in deletes
    ensures forall d :: d in Removed(db, ids) <==>
              && d in deletes && d in db && !db[d].isDeleted
              && forall c :: c in db && !db[c].isDeleted && db[c].parentId == Some(d) ==> c in deletes
  {
  }

  lemma MarkIs(rows: Rows, gone: set<Id>)
    ensures MarkDeleted(rows, gone).Keys == rows.Keys
    ensures forall id :: id in rows ==> MarkDeleted(rows, gone)[id] == rows[id].(isDeleted := rows[id].isDeleted || id in gone)
  {
  }

  /** Soft-delete the listed live nodes one by one, refusing the blocked ones. */
  method Sweep(rows: Rows, live: set<Id>, blocked: set<Id>) returns (result: Rows, gone: set<Id>, errors: seq<WriteError>)
    requires live <= rows.Keys
    ensures gone == live - blocked && result == MarkDeleted(rows, gone)
    ensures |gone| + |errors| == |live|
  {
    hide MarkDeleted;
    result, gone, errors := rows, {}, [];
    MarkNone(rows);
    var todo := live;
    while todo != {}
      invariant todo <= live
      invariant gone == (live - todo) - blocked
      invariant result == MarkDeleted(rows, gone) && result.Keys == rows.Keys
      invariant |gone| + |errors| + |todo| == |live|
      decreases todo
    {
      var d :| d in todo;
      todo := todo - {d};
      if d in blocked {
        errors := errors + [ChildrenOutside(d)];
      } else {
        MarkStep(rows, gone, d);
        result := result[d := result[d].(isDeleted := true)];
        gone := gone + {d};
      }
    }
  }

  lemma MarkNone(rows: Rows)
    ensures MarkDeleted(rows, {}) == rows
  {
  }

  lemma MarkStep(rows: Rows, gone: set<Id>, d: Id)
    requires d in rows
    ensures d in MarkDeleted(rows, gone)
    ensures MarkDeleted(rows, gone + {d}) ==
            MarkDeleted(rows, gone)[d := MarkDeleted(rows, gone)[d].(isDeleted := true)]
  {
  }

  lemma BlockedIs(db: Rows, ids: set<Id>, blocked: set<Id>)
    requires blocked == set c | c in db && Live(db, c) && db[c].parentId.Some? && db[c].parentId.value in ids && c !in ids
                          :: db[c].parentId.value
    ensures forall p :: p in blocked <==> Blocked(db, ids, p)
  {
    forall p | Blocked(db, ids, p) ensures p in blocked {
      var c :| Live(db, c) && db[c].parentId == Some(p) && c !in ids;
      assert c in db && db[c].parentId.value == p;
    }
  }

  // The whole request

  function BulkResult(db: Rows, created: Rows, us: seq<Patch>, gone: set<Id>): Rows {
    MarkDeleted(PatchAll(db, us) + created, gone)
  }

  /** After a request a row is a created one or the patched old one, deleted if it is among those that go. */
  lemma BulkResultIs(db: Rows, created: Rows, us: seq<Patch>, gone: set<Id>)
    requires db.Keys !! created.Keys
    ensures var after := BulkResult(db, created, us, gone);
            && after.Keys == db.Keys + created.Keys
            && (forall id :: id in created ==> after[id] == created[id].(isDeleted := created[id].isDeleted || id in gone))
            && (forall id :: id in db ==>
                  && after[id].path == db[id].path && after[id].kind == db[id].kind
                  && after[id].name == PatchAll(db, us)[id].name && after[id].parentId == PatchAll(db, us)[id].parentId
                  && after[id].isDeleted == (db[id].isDeleted || id in gone))
  {
    hide PatchAll;
  }

  /** No listed node that stays, because it is blocked, hangs off a listed node that goes. */
  ghost predicate NoBrokenChain(db: Rows, ids: set<Id>) {
    forall c :: c in ids && Live(db, c) && Blocked(db, ids, c) && db[c].parentId.Some?
                ==> db[c].parentId.value !in Removed(db, ids)
  }

  /** No accepted patch hangs a node that stays below a node that goes. */
  ghost predicate NoMoveUnderGone(db: Rows, us: seq<Patch>, gone: set<Id>) {
    forall u :: u in us && PatchAccepted(db, u) && u.parentId.Some? && u.id !in gone ==> u.parentId.value !in gone
  }

  /** No created row is wired to a node that goes. */
  ghost predicate NoCreateUnderGone(db: Rows, batch: set<Item>, gone: set<Id>) {
    forall a :: a in batch && !Doomed(db, batch, a) && WiredParent(db, batch, a).Some?
                ==> WiredParent(db, batch, a).value !in gone
  }

  /**
   A bulk request keeps the tree exactly when, in the tree as it was before, no chain is broken and
   nothing is attached below a node the same request removes.
   */
  lemma BulkKeepsTreeIff(db: Rows, batch: set<Item>, created: Rows, us: seq<Patch>, ids: set<Id>)
    requires TreeOk(db) && BatchOk(db, batch) && IsCreated(db, batch, created)
    ensures TreeOk(BulkResult(db, created, us, Removed(db, ids))) <==>
            && NoBrokenChain(db, ids)
            && NoMoveUnderGone(db, us, Removed(db, ids))
            && NoCreateUnderGone(db, batch, Removed(db, ids))
  {
    hide GrammarError, ParentPathOf, WiredParent, Doomed, IsCreated, BatchOk, Removed, NaturalParentIs, PatchAll,
         NoBrokenChain, NoMoveUnderGone, NoCreateUnderGone, UniquePaths, AllLinked;
    var gone := Removed(db, ids);
    var grown := PatchAll(db, us) + created;
    GrownIsTree(db, batch, created, us);
    GoneIsOld(db, batch, created, us, ids);
    MarkKeepsTreeIff(grown, gone);
    OldChildren(db, us, ids);
    CreatedAreNew(db, batch, created);
    NewChildren(db, batch, created, us, gone);
    ChildrenSplit(db, created, us, gone);
  }

  /** The nodes left behind are old ones or created ones. */
  lemma ChildrenSplit(db: Rows, created: Rows, us: seq<Patch>, gone: set<Id>)
    requires db.Keys !! created.Keys
    ensures var grown := PatchAll(db, us) + created;
            NoChildLeft(grown, gone) <==>
            && (forall c: Id, p: Id :: Live(db, c) && c !in gone && p in gone ==> PatchAll(db, us)[c].parentId != Some(p))
            && (forall c :: Live(grown, c) && c !in db && c !in gone && grown[c].parentId.Some? ==> grown[c].parentId.value !in gone)
  {
    hide PatchAll;
    var patched := PatchAll(db, us);
    var grown := patched + created;
    assert forall c :: c in db ==> grown[c] == patched[c] && (Live(grown, c) <==> Live(db, c));
    if NoChildLeft(grown, gone) {
      forall c: Id, p: Id | Live(db, c) && c !in gone && p in gone ensures patched[c].parentId != Some(p) {
        assert Live(grown, c);
      }
    }
  }

  /** Soft-deleting a set of live nodes keeps a tree exactly when no node that stays hangs off one that goes. */
  lemma MarkKeepsTreeIff(rows: Rows, gone: set<Id>)
    requires TreeOk(rows) && forall d :: d in gone ==> d in rows
    ensures TreeOk(MarkDeleted(rows, gone)) <==> NoChildLeft(rows, gone)
  {
    hide GrammarError, ParentPathOf;
    var after := MarkDeleted(rows, gone);
    assert forall id :: Live(after, id) <==> Live(rows, id) && id !in gone;
    if NoChildLeft(rows, gone) {
      forall id | Live(after, id) ensures Linked(after, after[id]) {
        assert Linked(rows, rows[id]);
      }
    } else {
      var c :| Live(rows, c) && c !in gone && rows[c].parentId.Some? && rows[c].parentId.value in gone;
      assert Live(after, c) && !Linked(after, after[c]);
    }
  }

  ghost predicate NoChildLeft(rows: Rows, gone: set<Id>) {
    forall c :: Live(rows, c) && c !in gone && rows[c].parentId.Some? ==> rows[c].parentId.value !in gone
  }

  /** Patches and creates alone always keep the tree. */
  lemma GrownIsTree(db: Rows, batch: set<Item>, created: Rows, us: seq<Patch>)
    requires TreeOk(db) && BatchOk(db, batch) && IsCreated(db, batch, created)
    ensures TreeOk(PatchAll(db, us) + created)
  {
    hide GrammarError, ParentPathOf, WiredParent, Doomed, BatchOk, IsCreated, NaturalParentIs, PatchAll, Linked;
    CreatedKeepsTree(db, batch, created);
    CreatedAreNew(db, batch, created);
    var all, grown := db + created, PatchAll(db, us) + created;
    assert forall id :: Live(grown, id) <==> Live(all, id);
    forall id | Live(grown, id) ensures Linked(grown, grown[id]) {
      GrownLinked(db, created, us, id);
    }
  }

  lemma GrownLinked(db: Rows, created: Rows, us: seq<Patch>, id: Id)
    requires UniquePaths(db) && AllLinked(db) && AllLinked(db + created) && db.Keys !! created.Keys
    requires Live(db + created, id)
    ensures Linked(PatchAll(db, us) + created, (PatchAll(db, us) + created)[id])
  {
    hide ParentPathOf, NaturalParentIs, PatchAll;
    var all, grown := db + created, PatchAll(db, us) + created;
    assert Linked(all, all[id]);
    if grown[id].parentId.Some? {
      var p := grown[id].parentId.value;
      if id in db {
        assert Linked(db, db[id]);
        PatchedParent(db, us, id, p);
      }
      SameNaturalParent(db, all, grown, grown[id].path, grown[id].kind, p);
    }
  }

  lemma SameNaturalParent(db: Rows, all: Rows, grown: Rows, path: string, kind: Kind, p: Id)
    requires forall id :: id in db ==> id in all && all[id] == db[id]
    requires forall id :: id in all <==> id in grown
    requires forall id :: id in all ==>
               grown[id].path == all[id].path && grown[id].kind == all[id].kind && grown[id].isDeleted == all[id].isDeleted
    requires NaturalParentIs(db, path, kind, p) || NaturalParentIs(all, path, kind, p)
    ensures NaturalParentIs(grown, path, kind, p)
  {
  }

  lemma CreatedAreNew(db: Rows, batch: set<Item>, created: Rows)
    requires BatchOk(db, batch) && IsCreated(db, batch, created)
    ensures db.Keys !! created.Keys
  {
    hide GrammarError, WiredParent, Doomed;
  }

  lemma GoneIsOld(db: Rows, batch: set<Item>, created: Rows, us: seq<Patch>, ids: set<Id>)
    ensures forall d :: d in Removed(db, ids) ==> d in PatchAll(db, us) + created && Live(db, d)
  {
  }

  /** One old node is left behind below p exactly by a broken chain or by a move. */
  lemma LeftBelow(db: Rows, us: seq<Patch>, ids: set<Id>, c: Id, p: Id)
    requires UniquePaths(db) && AllLinked(db) && Live(db, c) && c !in Removed(db, ids) && p in Removed(db, ids)
    ensures PatchAll(db, us)[c].parentId == Some(p) <==>
            || (c in ids && Blocked(db, ids, c) && db[c].parentId == Some(p))
            || exists u :: u in us && u.id == c && u.parentId == Some(p) && PatchAccepted(db, u)
  {
    hide GrammarError, ParentPathOf, PatchAll, NaturalParentIs;
    PatchedParent(db, us, c, p);
  }

  /** Among the old nodes, a child is left behind exactly by a broken chain or by a move. */
  lemma OldChildren(db: Rows, us: seq<Patch>, ids: set<Id>)
    requires UniquePaths(db) && AllLinked(db)
    ensures (forall c: Id, p: Id :: Live(db, c) && c !in Removed(db, ids) && p in Removed(db, ids)
                          ==> PatchAll(db, us)[c].parentId != Some(p))
            <==> NoBrokenChain(db, ids) && NoMoveUnderGone(db, us, Removed(db, ids))
  {
    hide GrammarError, ParentPathOf, PatchAll, Removed, Blocked;
    var gone := Removed(db, ids);
    forall c: Id, p: Id | Live(db, c) && c !in gone && p in gone
      ensures PatchAll(db, us)[c].parentId == Some(p) <==>
              || (c in ids && Blocked(db, ids, c) && db[c].parentId == Some(p))
              || exists u :: u in us && u.id == c && u.parentId == Some(p) && PatchAccepted(db, u)
    {
      LeftBelow(db, us, ids, c, p);
    }
    BlockedStays(db, ids);
  }

  lemma BlockedStays(db: Rows, ids: set<Id>)
    ensures forall c :: Blocked(db, ids, c) ==> c !in Removed(db, ids)
  {
  }

  /** Among the created nodes, a child is left behind exactly when it was wired to a node that goes. */
  lemma NewChildren(db: Rows, batch: set<Item>, created: Rows, us: seq<Patch>, gone: set<Id>)
    requires BatchOk(db, batch) && IsCreated(db, batch, created) && forall d :: d in gone ==> d in db
    ensures var grown := PatchAll(db, us) + created;
            (forall c :: Live(grown, c) && c !in db && c !in gone && grown[c].parentId.Some? ==> grown[c].parentId.value !in gone)
            <==> NoCreateUnderGone(db, batch, gone)
  {
    hide GrammarError, ParentPathOf, WiredParent, Doomed;
    CreatedAreNew(db, batch, created);
    var grown := PatchAll(db, us) + created;
    forall a | a in batch && !Doomed(db, batch, a)
      ensures Live(grown, a.id) && a.id !in db && a.id !in gone && grown[a.id].parentId == WiredParent(db, batch, a)
    {
    }
    if NoCreateUnderGone(db, batch, gone) {
      forall c | Live(grown, c) && c !in db && grown[c].parentId.Some? ensures grown[c].parentId.value !in gone {
        assert c in created;
        var a :| a in batch && !Doomed(db, batch, a) && a.id == c;
      }
    }
  }
}
