/** The asset table and its handlers. Each handler runs as one step; the table is a tree before it. */
module AssetStore {
  import opened Text
  import opened AssetPaths
  import opened AssetTree
  import opened AssetBulk
  import opened AssetWrites

  datatype CreateReply = Created(id: Id) | BadRequest(reason: PathError) | Conflict | NoParent | LevelTooHigh | NotNatural

  /** What the loop registry answers when asked whether anything still references a node. */
  datatype LoopProbe = NotConfigured | NoAnswer | Loops(count: nat)

  datatype DeleteReply = Deleted | NotFound | HasChildren(count: nat) | LoopsUnknown | LoopsRemain(count: nat)

  datatype BulkReply = TooLarge | Done(created: nat, updated: nat, deleted: nat, errors: nat)

  const MAX_BULK := 5000

  /** A request of any of the four kinds, with the ids drawn for the rows it may create. */
  datatype Call =
    | CreateCall(req: CreateRequest, newId: Id)
    | UpdateCall(id: Id, name: Option<string>)
    | DeleteCall(id: Id, probe: LoopProbe)
    | BulkCall(items: seq<Item>, patches: seq<Patch>, deletes: seq<Id>)

  function Drawn(call: Call): set<Id> {
    match call
    case CreateCall(_, newId) => {newId}
    case BulkCall(items, _, _) => set a | a in items :: a.id
    case _ => {}
  }

  ghost predicate DrawnFresh(rows: Rows, call: Call) {
    && Drawn(call) !! rows.Keys
    && (call.BulkCall? ==> FreshIds(rows, call.items))
  }

  /** A bulk request within the size limit, in the table it meets, breaks no chain and attaches nothing to what it removes. */
  ghost predicate Proviso(db: Rows, call: Call) {
    call.BulkCall? && |call.items| + |call.patches| + |call.deletes| <= MAX_BULK ==>
      var ids := set d | d in call.deletes;
      && NoBrokenChain(db, ids)
      && NoMoveUnderGone(db, call.patches, Removed(db, ids))
      && NoCreateUnderGone(db, AcceptedBatch(db, call.items), Removed(db, ids))
  }

  /** What a call makes of the table; a refused one leaves it as it was. */
  ghost predicate Stepped(db: Rows, call: Call, after: Rows) {
    match call
    case CreateCall(req, newId) =>
      if CreateAccepted(db, req)
      then exists parentId :: ParentResolved(db, req, parentId) && after == db[newId := Asset(req.path, req.kind, NameOf(req), parentId, false)]
      else after == db
    case UpdateCall(id, name) => after == PatchAll(db, [Patch(id, name, None)])
    case DeleteCall(id, probe) =>
      if Live(db, id) && !HasLiveChild(db, id) && probe in {NotConfigured, Loops(0)} then after == MarkDeleted(db, {id}) else after == db
    case BulkCall(items, patches, deletes) =>
      if |items| + |patches| + |deletes| > MAX_BULK then after == db
      else exists created :: IsCreated(db, AcceptedBatch(db, items), created)
                             && after == BulkResult(db, created, patches, Removed(db, set d | d in deletes))
  }

  /** Any call keeps the tree exactly under the proviso, which only bulk requests can fail. */
  lemma StepKeepsTreeIff(db: Rows, call: Call, after: Rows)
    requires TreeOk(db) && DrawnFresh(db, call) && Stepped(db, call, after)
    ensures TreeOk(after) <==> Proviso(db, call)
  {
    hide TreeOk, GrammarError, ParentPathOf, CreateAccepted, ParentResolved, IsCreated, AcceptedBatch, BatchOk, PatchAll,
         Removed, BulkResult, NoBrokenChain, NoMoveUnderGone, NoCreateUnderGone, FreshIds, HasLiveChild;
    match call {
      case CreateCall(req, newId) =>
        if CreateAccepted(db, req) {
          var parentId :| ParentResolved(db, req, parentId) && after == db[newId := Asset(req.path, req.kind, NameOf(req), parentId, false)];
          CreateKeepsTree(db, req, newId, after[newId]);
        }
      case UpdateCall(id, name) => UpdateKeepsTree(db, Patch(id, name, None));
      case DeleteCall(id, probe) =>
        if after != db {
          DeleteKeepsTreeIff(db, id);
          assert MarkDeleted(db, {id}) == db[id := db[id].(isDeleted := true)];
        }
      case BulkCall(items, patches, deletes) =>
        if |items| + |patches| + |deletes| <= MAX_BULK {
          var created :| IsCreated(db, AcceptedBatch(db, items), created)
                         && after == BulkResult(db, created, patches, Removed(db, set d | d in deletes));
          AcceptedBatchOk(db, items);
          BulkKeepsTreeIff(db, AcceptedBatch(db, items), created, patches, set d | d in deletes);
        }
    }
  }

  lemma UpdateKeepsTree(db: Rows, u: Patch)
    requires TreeOk(db)
    ensures TreeOk(PatchAll(db, [u]))
  {
    hide GrammarError, ParentPathOf, PatchAll, TreeOk;
    var batch: set<Item> := {};
    GrownIsTree(db, batch, map[], [u]);
    assert PatchAll(db, [u]) + map[] == PatchAll(db, [u]);
  }

  /** The tables a run of calls goes through. */
  ghost predicate IsRun(trail: seq<Rows>, calls: seq<Call>) {
    && |trail| == |calls| + 1
    && forall k :: 0 <= k < |calls| ==> DrawnFresh(trail[k], calls[k]) && Stepped(trail[k], calls[k], trail[k + 1])
  }

  /**
   Over any run of creates, updates, deletes and bulk requests, every table is a tree exactly when
   every bulk request meets the proviso in the table it finds.
   */
  lemma {:induction false} RunKeepsTreeIff(trail: seq<Rows>, calls: seq<Call>)
    requires IsRun(trail, calls) && TreeOk(trail[0])
    ensures (forall k :: 0 <= k < |trail| ==> TreeOk(trail[k])) <==> (forall k :: 0 <= k < |calls| ==> Proviso(trail[k], calls[k]))
    decreases |calls|
  {
    hide TreeOk, DrawnFresh, Stepped, Proviso;
    if calls != [] {
      var n := |calls| - 1;
      RunKeepsTreeIff(trail[..n + 1], calls[..n]);
      if TreeOk(trail[n]) {
        StepKeepsTreeIff(trail[n], calls[n], trail[n + 1]);
      }
      assert forall k :: 0 <= k <= n ==> trail[..n + 1][k] == trail[k];
      assert forall k :: 0 <= k < n ==> calls[..n][k] == calls[k];
    }
  }

  class Store {
    var rows: Rows

    ghost predicate Valid()
      reads this
    {
      TreeOk(rows)
    }

    constructor ()
      ensures Valid() && rows == map[]
    {
      rows := map[];
    }

    /** POST /assets. newId is the id drawn for the row. */
    method Create(req: CreateRequest, newId: Id) returns (reply: CreateReply)
      requires Valid() && newId !in rows
      modifies this
      ensures Valid()
      ensures reply.Created? <==> CreateAccepted(old(rows), req)
      ensures !reply.Created? ==> rows == old(rows)
      ensures reply.Created? ==>
                && reply.id == newId
                && rows.Keys == old(rows).Keys + {newId} && rows == old(rows)[newId := rows[newId]]
                && rows[newId] == Asset(req.path, req.kind, NameOf(req), rows[newId].parentId, false)
                && ParentResolved(old(rows), req, rows[newId].parentId)
      ensures reply.BadRequest? <==> GrammarError(req.path, req.kind).Some?
      ensures reply.BadRequest? ==> GrammarError(req.path, req.kind) == Some(reply.reason)
      ensures reply.Conflict? ==> PathTaken(old(rows), req.path)
      ensures reply.NoParent? ==> req.parentId.Some? && !Live(old(rows), req.parentId.value)
      ensures reply.LevelTooHigh? || reply.NotNatural? ==> req.parentId.Some? && Live(old(rows), req.parentId.value)
      ensures reply.LevelTooHigh? ==> old(rows)[req.parentId.value].kind.Level() >= req.kind.Level()
      ensures reply.NotNatural? ==> Some(old(rows)[req.parentId.value].path) != ParentPathOf(req.path, req.kind)
      ensures reply.Created? && req.name.Some? ==> rows[newId].name == req.name.value
      ensures reply.Created? && req.name.None? ==>
                '/' !in rows[newId].name &&
                (rows[newId].name == req.path || exists head: string :: req.path == head + ("/" + rows[newId].name))
    {
      hide GrammarError, ParentPathOf, TreeOk;
      var pathError := GrammarError(req.path, req.kind);
      if pathError.Some? {
        return BadRequest(pathError.value);
      }
      if id :| id in rows && Live(rows, id) && rows[id].path == req.path {
        return Conflict;
      }
      assert !PathTaken(rows, req.path);
      var parentId := req.parentId;
      if req.parentId.Some? {
        var p := req.parentId.value;
        if !Live(rows, p) {
          return NoParent;
        }
        if rows[p].kind.Level() >= req.kind.Level() {
          return LevelTooHigh;
        }
        if Some(rows[p].path) != ParentPathOf(req.path, req.kind) {
          return NotNatural;
        }
      } else if p :| p in rows && NaturalParentIs(rows, req.path, req.kind, p) {
        parentId := Some(p);
      }
      NameIs(req);
      CreateKeepsTree(rows, req, newId, Asset(req.path, req.kind, NameOf(req), parentId, false));
      rows := rows[newId := Asset(req.path, req.kind, NameOf(req), parentId, false)];
      reply := Created(newId);
    }

    /** PUT /assets/{id}: never touches the path, the level or the parent. */
    method Update(id: Id, name: Option<string>) returns (found: bool)
      requires Valid()
      modifies this
      ensures Valid()
      ensures found <==> Live(old(rows), id)
      ensures rows == PatchAll(old(rows), [Patch(id, name, None)])
      ensures rows == if found then old(rows)[id := old(rows)[id].(name := if name.Some? then name.value else old(rows)[id].name)] else old(rows)
    {
      hide GrammarError, ParentPathOf;
      UpdateKeepsTree(rows, Patch(id, name, None));
      PatchOne(rows, Patch(id, name, None));
      if !Live(rows, id) {
        return false;
      }
      rows := rows[id := Patched(rows[id], Patch(id, name, None))];
      found := true;
    }

    /** DELETE /assets/{id}: guarded by live children and by the loop registry, failing closed. */
    method Delete(id: Id, probe: LoopProbe) returns (reply: DeleteReply)
      requires Valid()
      modifies this
      ensures Valid()
      ensures reply.Deleted? <==> Live(old(rows), id) && !HasLiveChild(old(rows), id) && probe in {NotConfigured, Loops(0)}
      ensures rows == if reply.Deleted? then MarkDeleted(old(rows), {id}) else old(rows)
      ensures reply.Deleted? ==> rows == old(rows)[id := old(rows)[id].(isDeleted := true)]
      ensures reply.NotFound? <==> id !in old(rows) || old(rows)[id].isDeleted
      ensures reply.HasChildren? <==> id in old(rows) && !old(rows)[id].isDeleted
                                      && exists c :: c in old(rows) && !old(rows)[c].isDeleted && old(rows)[c].parentId == Some(id)
      ensures reply.HasChildren? ==>
                reply.count == |set c | c in old(rows) && !old(rows)[c].isDeleted && old(rows)[c].parentId == Some(id)| > 0
      ensures reply.LoopsUnknown? ==> probe == NoAnswer
      ensures reply.LoopsRemain? ==> probe == Loops(reply.count) && reply.count > 0
    {
      hide GrammarError, ParentPathOf, TreeOk;
      if !Live(rows, id) {
        return NotFound;
      }
      var children := set c | c in rows && Live(rows, c) && rows[c].parentId == Some(id);
      if |children| > 0 {
        var c :| c in children;
        assert children == set c | c in rows && !rows[c].isDeleted && rows[c].parentId == Some(id);
        return HasChildren(|children|);
      }
      assert !HasLiveChild(rows, id) by {
        assert forall c :: Live(rows, c) && rows[c].parentId == Some(id) ==> c in children;
      }
      match probe {
        case NotConfigured =>
        case NoAnswer => return LoopsUnknown;
        case Loops(n) =>
          if n > 0 {
            return LoopsRemain(n);
          }
      }
      DeleteKeepsTreeIff(rows, id);
      assert MarkDeleted(rows, {id}) == rows[id := rows[id].(isDeleted := true)];
      rows := rows[id := rows[id].(isDeleted := true)];
      reply := Deleted;
    }

    /** POST /assets/bulk. Each create carries the id drawn for it; all checks see the table as it was. */
    method Bulk(items: seq<Item>, patches: seq<Patch>, deletes: seq<Id>) returns (reply: BulkReply, ghost created: Rows)
      requires Valid() && FreshIds(rows, items)
      modifies this
      ensures reply.TooLarge? <==> |items| + |patches| + |deletes| > 5000
      ensures reply.TooLarge? ==> rows == old(rows)
      ensures reply.Done? ==>
                var batch, gone := AcceptedBatch(old(rows), items), Removed(old(rows), set d | d in deletes);
                && IsCreated(old(rows), batch, created)
                && rows == BulkResult(old(rows), created, patches, gone)
                && (Valid() <==> NoBrokenChain(old(rows), set d | d in deletes)
                                 && NoMoveUnderGone(old(rows), patches, gone)
                                 && NoCreateUnderGone(old(rows), batch, gone))
                && reply.created == |created| && reply.deleted == |gone|
                && reply.created + reply.updated + reply.deleted + reply.errors
                   == |items| + |patches| + |set d | d in deletes && Live(old(rows), d)|
    {
      hide GrammarError, ParentPathOf, IsCreated, AcceptedBatch, BatchOk, PatchAll, Removed, MarkDeleted,
           NoBrokenChain, NoMoveUnderGone, NoCreateUnderGone, FreshIds, WellNamed, AllLinked, UniquePaths;
      created := map[];
      if |items| + |patches| + |deletes| > MAX_BULK {
        return TooLarge, created;
      }
      var rowsCreated, rowErrors := CreateRows(rows, items);
      var patched, updated, patchErrors := ApplyPatches(rows, patches);
      var result, gone, deleteErrors := ApplyDeletes(rows, patched + rowsCreated, deletes);
      AcceptedBatchOk(rows, items);
      BulkKeepsTreeIff(rows, AcceptedBatch(rows, items), rowsCreated, patches, set d | d in deletes);
      created := rowsCreated;
      reply := Done(|rowsCreated|, updated, |gone|, |rowErrors| + |patchErrors| + |deleteErrors|);
      rows := result;
    }

    method Serve(call: Call)
      requires Valid() && DrawnFresh(rows, call)
      modifies this
      ensures Stepped(old(rows), call, rows)
    {
      hide GrammarError, IsCreated, AcceptedBatch, PatchAll, Removed, MarkDeleted, NoBrokenChain, NoMoveUnderGone,
           NoCreateUnderGone, FreshIds, TreeOk, BulkResult, CreateAccepted, ParentResolved;
      match call {
        case CreateCall(req, newId) => var reply := Create(req, newId);
        case UpdateCall(id, name) => var found := Update(id, name);
        case DeleteCall(id, probe) => var reply := Delete(id, probe);
        case BulkCall(items, patches, deletes) => var reply, created := Bulk(items, patches, deletes);
      }
    }
  }

  lemma PatchOne(rows: Rows, u: Patch)
    ensures PatchAll(rows, [u]) == if PatchAccepted(rows, u) then rows[u.id := Patched(rows[u.id], u)] else rows
  {
    hide NaturalParentIs;
    assert [u][..0] == [];
    PatchNone(rows);
  }

  /** Enough for a bulk request: no listed node is blocked, and nothing attaches to a listed node. */
  lemma BulkKeepsTree(db: Rows, batch: set<Item>, created: Rows, us: seq<Patch>, ids: set<Id>)
    requires TreeOk(db) && BatchOk(db, batch) && IsCreated(db, batch, created)
    requires forall d :: d in ids ==> !Blocked(db, ids, d)
    requires forall u :: u in us && u.parentId.Some? ==> u.parentId.value !in ids
    requires forall a :: a in batch && WiredParent(db, batch, a).Some? ==> WiredParent(db, batch, a).value !in ids
    ensures TreeOk(BulkResult(db, created, us, Removed(db, ids)))
  {
    hide GrammarError, ParentPathOf, TreeOk, BatchOk, IsCreated, WiredParent, Doomed, PatchAccepted, Blocked;
    BulkKeepsTreeIff(db, batch, created, us, ids);
  }

  /** A site, a unit below it and a device below that. */
  const CHAIN: Rows := map[
    0 := Asset("a", Site, "a", None, false),
    1 := Asset("a/b", Unit, "b", Some(0), false),
    2 := Asset("a/b/c", Device, "c", Some(1), false)
  ]

  /**
   Deleting the site and the unit together: the unit is blocked by the device and stays, the site
   has no child outside the list and goes, and the unit is left under a dead parent.
   */
  lemma BrokenChainWitness()
    ensures TreeOk(CHAIN)
    ensures Removed(CHAIN, {0, 1}) == {0}
    ensures !TreeOk(BulkResult(CHAIN, map[], [], Removed(CHAIN, {0, 1})))
  {
    ChainPaths();
    hide GrammarError, ParentPathOf;
    assert Live(CHAIN, 0) && Live(CHAIN, 1) && Live(CHAIN, 2);
    forall id | Live(CHAIN, id) ensures Linked(CHAIN, CHAIN[id]) && GrammarError(CHAIN[id].path, CHAIN[id].kind).None? {
    }
    assert Blocked(CHAIN, {0, 1}, 1);
    assert !Blocked(CHAIN, {0, 1}, 0);
    PatchNone(CHAIN);
    var after := BulkResult(CHAIN, map[], [], Removed(CHAIN, {0, 1}));
    assert Live(after, 1) && !Live(after, 0) && !Linked(after, after[1]);
  }

  lemma ChainPaths()
    ensures GrammarError("a", Site).None? && GrammarError("a/b", Unit).None? && GrammarError("a/b/c", Device).None?
    ensures ParentPathOf("a/b", Unit) == Some("a") && ParentPathOf("a/b/c", Device) == Some("a/b")
  {
    assert "a/b" == "a" + ['/'] + "b" && "a/b/c" == "a/b" + ['/'] + "c";
    assert Segments("a") == ["a"];
    Compose("a", "b");
    Compose("a/b", "c");
    assert "a/b"[..1] == "a" && "a/b/c"[..3] == "a/b";
    assert InnerSegment("a") && InnerSegment("b") && InnerSegment("c");
    hide GrammarError, Split, LastIndexOf, InnerSegment;
    PlainPath("a", Site);
    PlainPath("a/b", Unit);
    PlainPath("a/b/c", Device);
  }
}
