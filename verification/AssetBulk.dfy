/**
 The bulk request: the rows it creates, the patches it applies and the nodes it deletes. The phases
 are loops over the request; each is proved against a description that looks only at which rows
 the request holds, not at their order.
 */
module AssetBulk {
  import opened Text
  import opened AssetPaths
  import opened AssetTree

  /** A create request together with the id drawn for its row. */
  datatype Item = Item(id: Id, req: CreateRequest)

  datatype BulkError =
    | BadPath(path: string, reason: PathError)
    | AlreadyExists(path: string)
    | NoSuchParent(path: string)
    | NotTheNaturalParent(path: string)
    | ParentRejected(path: string)

  // Description of the create phase

  /** Item i is taken when its path is well formed and free, also of the earlier well-formed items. */
  ghost predicate AcceptedAt(rows: Rows, items: seq<Item>, i: nat)
    requires i < |items|
  {
    && GrammarError(items[i].req.path, items[i].req.kind).None?
    && !PathTaken(rows, items[i].req.path)
    && forall j :: 0 <= j < i && items[j].req.path == items[i].req.path
                   ==> GrammarError(items[j].req.path, items[j].req.kind).Some?
  }

  ghost function AcceptedBatch(rows: Rows, items: seq<Item>): set<Item> {
    set i | 0 <= i < |items| && AcceptedAt(rows, items, i) :: items[i]
  }

  ghost predicate FreshIds(rows: Rows, items: seq<Item>) {
    && (forall i :: 0 <= i < |items| ==> items[i].id !in rows)
    && (forall i, j :: 0 <= i < j < |items| ==> items[i].id != items[j].id)
  }

  /** What acceptance leaves: new ids, well-formed paths, each free and used once. */
  ghost predicate BatchOk(rows: Rows, batch: set<Item>) {
    && (forall a :: a in batch ==>
          a.id !in rows && GrammarError(a.req.path, a.req.kind).None? && !PathTaken(rows, a.req.path))
    && (forall a, b :: a in batch && b in batch && (a.id == b.id || a.req.path == b.req.path) ==> a == b)
  }

  predicate BatchParentOf(a: Item, b: Item) {
    b.req.kind.Level() < a.req.kind.Level() && ParentPathOf(a.req.path, a.req.kind) == Some(b.req.path)
  }

  ghost predicate InBatchParent(batch: set<Item>, a: Item, p: Id) {
    exists b :: b in batch && BatchParentOf(a, b) && b.id == p
  }

  ghost predicate InTreeParent(rows: Rows, a: Item, p: Id) {
    NaturalParentIs(rows, a.req.path, a.req.kind, p)
  }

  ghost predicate DirectlyRejected(rows: Rows, batch: set<Item>, a: Item) {
    a.req.parentId.Some? &&
    !InTreeParent(rows, a, a.req.parentId.value) && !InBatchParent(batch, a, a.req.parentId.value)
  }

  /** The parent a row is wired to: the one asked for, else one of this batch, else one of the tree. */
  ghost function WiredParent(rows: Rows, batch: set<Item>, a: Item): (r: Option<Id>) {
    if a.req.parentId.Some? then a.req.parentId
    else if exists p :: InBatchParent(batch, a, p) then
      var p :| InBatchParent(batch, a, p); Some(p)
    else if exists p :: InTreeParent(rows, a, p) then
      var p :| InTreeParent(rows, a, p); Some(p)
    else None
  }

  /** Rejected itself, or wired to a row of the batch that is. */
  ghost predicate Doomed(rows: Rows, batch: set<Item>, a: Item)
    decreases a.req.kind.Level()
  {
    || DirectlyRejected(rows, batch, a)
    || exists b :: b in batch && b.req.kind.Level() < a.req.kind.Level()
                   && WiredParent(rows, batch, a) == Some(b.id) && Doomed(rows, batch, b)
  }

  /** A set of rows that holds the directly rejected ones and, with a row, those wired to it. */
  ghost predicate RejectionClosed(rows: Rows, batch: set<Item>, s: set<Id>) {
    && (forall a :: a in batch && DirectlyRejected(rows, batch, a) ==> a.id in s)
    && (forall a :: (a in batch && WiredParent(rows, batch, a).Some? && WiredParent(rows, batch, a).value in s)
                    ==> a.id in s)
  }

  ghost function Rejected(rows: Rows, batch: set<Item>): set<Id> {
    set a | a in batch && Doomed(rows, batch, a) :: a.id
  }

  /** A row that is not directly rejected and is wired into the batch hangs off a higher level. */
  lemma WiredLevel(rows: Rows, batch: set<Item>, a: Item, b: Item)
    requires BatchOk(rows, batch) && a in batch && b in batch
    requires WiredParent(rows, batch, a) == Some(b.id) && !DirectlyRejected(rows, batch, a)
    ensures BatchParentOf(a, b)
  {
    hide GrammarError, ParentPathOf;
    assert !Live(rows, b.id);
  }

  /** The rejected rows are the least closed set. */
  lemma RejectedIsLeast(rows: Rows, batch: set<Item>, s: set<Id>)
    requires BatchOk(rows, batch)
    ensures RejectionClosed(rows, batch, Rejected(rows, batch))
    ensures RejectionClosed(rows, batch, s) ==> Rejected(rows, batch) <= s
  {
    hide GrammarError, ParentPathOf;
    forall a | a in batch && WiredParent(rows, batch, a).Some?
               && WiredParent(rows, batch, a).value in Rejected(rows, batch)
      ensures a.id in Rejected(rows, batch)
    {
      var b :| b in batch && Doomed(rows, batch, b) && WiredParent(rows, batch, a) == Some(b.id);
      if !DirectlyRejected(rows, batch, a) {
        WiredLevel(rows, batch, a, b);
      }
    }
    if RejectionClosed(rows, batch, s) {
      forall a | a in batch && Doomed(rows, batch, a) ensures a.id in s {
        DoomedInClosed(rows, batch, s, a);
      }
    }
  }

  lemma {:induction false} DoomedInClosed(rows: Rows, batch: set<Item>, s: set<Id>, a: Item)
    requires RejectionClosed(rows, batch, s) && a in batch && Doomed(rows, batch, a)
    ensures a.id in s
    decreases a.req.kind.Level()
  {
    hide GrammarError, ParentPathOf;
    if !DirectlyRejected(rows, batch, a) {
      var b :| b in batch && b.req.kind.Level() < a.req.kind.Level()
               && WiredParent(rows, batch, a) == Some(b.id) && Doomed(rows, batch, b);
      DoomedInClosed(rows, batch, s, b);
    }
  }

  function NewAsset(a: Item, parentId: Option<Id>): Asset {
    Asset(a.req.path, a.req.kind, NameOf(a.req), parentId, false)
  }

  /** created holds exactly the rows of the batch that are not rejected, wired to their parents. */
  ghost predicate IsCreated(rows: Rows, batch: set<Item>, created: Rows) {
    && (forall a :: a in batch && !Doomed(rows, batch, a) ==>
          a.id in created && created[a.id] == NewAsset(a, WiredParent(rows, batch, a)))
    && (forall id :: id in created ==> exists a :: a in batch && !Doomed(rows, batch, a) && a.id == id)
  }

  lemma CreatedUnique(rows: Rows, batch: set<Item>, c1: Rows, c2: Rows)
    requires BatchOk(rows, batch) && IsCreated(rows, batch, c1) && IsCreated(rows, batch, c2)
    ensures c1 == c2
  {
    hide GrammarError, ParentPathOf;
    assert c1.Keys == c2.Keys;
  }

  /** In a batch whose paths are distinct, the accepted rows do not depend on the row order. */
  lemma AcceptedOrderFree(rows: Rows, items: seq<Item>, shuffled: seq<Item>)
    requires multiset(items) == multiset(shuffled)
    requires forall i, j :: 0 <= i < j < |items| ==> items[i].req.path != items[j].req.path
    requires forall i, j :: 0 <= i < j < |shuffled| ==> shuffled[i].req.path != shuffled[j].req.path
    ensures AcceptedBatch(rows, items) == AcceptedBatch(rows, shuffled)
  {
    AcceptedWithin(rows, items, shuffled);
    AcceptedWithin(rows, shuffled, items);
  }

  lemma AcceptedWithin(rows: Rows, items: seq<Item>, shuffled: seq<Item>)
    requires multiset(items) == multiset(shuffled)
    requires forall i, j :: 0 <= i < j < |shuffled| ==> shuffled[i].req.path != shuffled[j].req.path
    ensures AcceptedBatch(rows, items) <= AcceptedBatch(rows, shuffled)
  {
    hide GrammarError, ParentPathOf;
    forall a | a in AcceptedBatch(rows, items) ensures a in AcceptedBatch(rows, shuffled) {
      var i :| 0 <= i < |items| && AcceptedAt(rows, items, i) && items[i] == a;
      assert a in multiset(items);
      assert a in shuffled;
      var j :| 0 <= j < |shuffled| && shuffled[j] == a;
      assert AcceptedAt(rows, shuffled, j);
    }
  }

  /** What acceptance promises about the batch. */
  lemma AcceptedBatchOk(rows: Rows, items: seq<Item>)
    requires FreshIds(rows, items)
    ensures BatchOk(rows, AcceptedBatch(rows, items))
  {
    hide GrammarError;
    forall a, b | a in AcceptedBatch(rows, items) && b in AcceptedBatch(rows, items)
                  && (a.id == b.id || a.req.path == b.req.path)
      ensures a == b
    {
      var i :| 0 <= i < |items| && AcceptedAt(rows, items, i) && items[i] == a;
      var j :| 0 <= j < |items| && AcceptedAt(rows, items, j) && items[j] == b;
    }
  }

  /** In a batch whose paths are distinct, the rows created and their parents do not depend on the row order. */
  lemma CreatedOrderFree(rows: Rows, items: seq<Item>, shuffled: seq<Item>, c1: Rows, c2: Rows)
    requires FreshIds(rows, items) && FreshIds(rows, shuffled) && multiset(items) == multiset(shuffled)
    requires forall i, j :: 0 <= i < j < |items| ==> items[i].req.path != items[j].req.path
    requires forall i, j :: 0 <= i < j < |shuffled| ==> shuffled[i].req.path != shuffled[j].req.path
    requires IsCreated(rows, AcceptedBatch(rows, items), c1) && IsCreated(rows, AcceptedBatch(rows, shuffled), c2)
    ensures c1 == c2
  {
    hide GrammarError, IsCreated, AcceptedAt;
    AcceptedOrderFree(rows, items, shuffled);
    AcceptedBatchOk(rows, items);
    CreatedUnique(rows, AcceptedBatch(rows, items), c1, c2);
  }

  /** Adding the surviving rows keeps the tree. */
  lemma CreatedKeepsTree(rows: Rows, batch: set<Item>, created: Rows)
    requires TreeOk(rows) && BatchOk(rows, batch) && IsCreated(rows, batch, created)
    ensures TreeOk(rows + created)
  {
    hide GrammarError, ParentPathOf;
    var all := rows + created;
    assert rows.Keys !! created.Keys;
    assert forall id :: Live(all, id) <==> Live(rows, id) || id in created;
    forall id | Live(all, id) ensures Linked(all, all[id]) && GrammarError(all[id].path, all[id].kind).None? {
      if id in created {
        var a :| a in batch && !Doomed(rows, batch, a) && a.id == id;
        SurvivorLinked(rows, batch, created, a);
      } else {
        assert Linked(rows, rows[id]);
      }
    }
    forall i, j | Live(all, i) && Live(all, j) && all[i].path == all[j].path ensures i == j {
      if i in created {
        var a :| a in batch && !Doomed(rows, batch, a) && a.id == i;
        assert Live(rows, j) ==> PathTaken(rows, a.req.path);
      }
      if j in created {
        var a :| a in batch && !Doomed(rows, batch, a) && a.id == j;
        assert Live(rows, i) ==> PathTaken(rows, a.req.path);
      }
    }
  }

  lemma SurvivorLinked(rows: Rows, batch: set<Item>, created: Rows, a: Item)
    requires BatchOk(rows, batch) && IsCreated(rows, batch, created)
    requires a in batch && !Doomed(rows, batch, a)
    ensures Linked(rows + created, NewAsset(a, WiredParent(rows, batch, a)))
  {
    hide GrammarError, ParentPathOf;
    var parent := WiredParent(rows, batch, a);
    if parent.Some? && !InTreeParent(rows, a, parent.value) {
      assert InBatchParent(batch, a, parent.value);
      var b :| b in batch && BatchParentOf(a, b) && b.id == parent.value;
      assert !Doomed(rows, batch, b);
    }
  }

  /** A path is accepted exactly when it is free and some item asks for it with a kind that it fits. */
  lemma AcceptedPaths(rows: Rows, items: seq<Item>, path: string)
    ensures (exists a :: a in AcceptedBatch(rows, items) && a.req.path == path) <==>
            && (forall id :: id in rows && !rows[id].isDeleted ==> rows[id].path != path)
            && exists i :: 0 <= i < |items| && items[i].req.path == path && GrammarError(path, items[i].req.kind).None?
  {
    hide GrammarError;
    if exists a :: a in AcceptedBatch(rows, items) && a.req.path == path {
      var a :| a in AcceptedBatch(rows, items) && a.req.path == path;
      var i :| 0 <= i < |items| && AcceptedAt(rows, items, i) && items[i] == a;
      assert forall id :: id in rows && !rows[id].isDeleted ==> Live(rows, id);
    }
    if i :| 0 <= i < |items| && items[i].req.path == path && GrammarError(path, items[i].req.kind).None? {
      if forall id :: id in rows && !rows[id].isDeleted ==> rows[id].path != path {
        FirstOfPath(rows, items, i);
        var j :| 0 <= j <= i && AcceptedAt(rows, items, j) && items[j].req.path == path;
        assert items[j] in AcceptedBatch(rows, items);
      }
    }
  }

  /** A created row is wired to exactly the natural parent that the table holds afterwards, if it holds one. */
  lemma CreatedFindsParent(rows: Rows, batch: set<Item>, created: Rows, id: Id, p: Id)
    requires UniquePaths(rows) && BatchOk(rows, batch) && IsCreated(rows, batch, created) && id in created
    ensures created[id].parentId == Some(p) <==> NaturalParentIs(rows + created, created[id].path, created[id].kind, p)
  {
    hide GrammarError, ParentPathOf;
    var all := rows + created;
    var a :| a in batch && !Doomed(rows, batch, a) && a.id == id;
    assert created[id] == NewAsset(a, WiredParent(rows, batch, a));
    SurvivorLinked(rows, batch, created, a);
    if NaturalParentIs(all, a.req.path, a.req.kind, p) {
      NaturalIsKnown(rows, batch, created, a, p);
      KnownIsWired(rows, batch, a, p);
    }
  }

  /** A natural parent in the table afterwards is one of the tree, or a row of the batch. */
  lemma NaturalIsKnown(rows: Rows, batch: set<Item>, created: Rows, a: Item, p: Id)
    requires BatchOk(rows, batch) && IsCreated(rows, batch, created)
    requires NaturalParentIs(rows + created, a.req.path, a.req.kind, p)
    ensures InTreeParent(rows, a, p) || InBatchParent(batch, a, p)
  {
    hide GrammarError, ParentPathOf, WiredParent, Doomed;
    if p in created {
      var b :| b in batch && !Doomed(rows, batch, b) && b.id == p;
      assert BatchParentOf(a, b);
    }
  }

  /** A row without a fault of its own is wired to the only natural parent that the tree or the batch has for it. */
  lemma KnownIsWired(rows: Rows, batch: set<Item>, a: Item, p: Id)
    requires UniquePaths(rows) && BatchOk(rows, batch) && a in batch && !DirectlyRejected(rows, batch, a)
    requires InTreeParent(rows, a, p) || InBatchParent(batch, a, p)
    ensures WiredParent(rows, batch, a) == Some(p)
  {
    hide GrammarError, ParentPathOf;
    forall q | InTreeParent(rows, a, q) || InBatchParent(batch, a, q) ensures q == p {
      OneNaturalParent(rows, batch, a, p, q);
    }
  }

  lemma OneNaturalParent(rows: Rows, batch: set<Item>, a: Item, p: Id, q: Id)
    requires UniquePaths(rows) && BatchOk(rows, batch)
    requires InTreeParent(rows, a, p) || InBatchParent(batch, a, p)
    requires InTreeParent(rows, a, q) || InBatchParent(batch, a, q)
    ensures p == q
  {
    hide GrammarError, ParentPathOf;
  }

  /**
   Which accepted rows are created: with an explicit parent, those whose parent is their natural one
   in the table afterwards; without, those whose natural parent is not a row that the batch lost.
   */
  lemma SurvivorIff(rows: Rows, batch: set<Item>, created: Rows, a: Item)
    requires UniquePaths(rows) && BatchOk(rows, batch) && IsCreated(rows, batch, created) && a in batch
    ensures a.id in created <==>
            && (a.req.parentId.Some? ==> NaturalParentIs(rows + created, a.req.path, a.req.kind, a.req.parentId.value))
            && (a.req.parentId.None? ==>
                  forall b | b in batch && b.req.kind.Level() < a.req.kind.Level() && ParentPathOf(a.req.path, a.req.kind) == Some(b.req.path)
                    :: b.id in created)
  {
    hide GrammarError, ParentPathOf, WiredParent;
    forall b | b in batch ensures b.id in created <==> !Doomed(rows, batch, b) {
      CreatedIff(rows, batch, created, b);
    }
    if a.id in created {
      CreatedSound(rows, batch, created, a);
    } else if DirectlyRejected(rows, batch, a) {
      var p := a.req.parentId.value;
      if NaturalParentIs(rows + created, a.req.path, a.req.kind, p) {
        NaturalIsKnown(rows, batch, created, a, p);
      }
    } else {
      var b :| b in batch && b.req.kind.Level() < a.req.kind.Level()
               && WiredParent(rows, batch, a) == Some(b.id) && Doomed(rows, batch, b);
      WiredLevel(rows, batch, a, b);
      assert b.id !in rows + created;
      if a.req.parentId.Some? {
        ExplicitStays(rows, batch, a);
      }
    }
  }

  lemma CreatedIff(rows: Rows, batch: set<Item>, created: Rows, a: Item)
    requires BatchOk(rows, batch) && IsCreated(rows, batch, created) && a in batch
    ensures a.id in created <==> !Doomed(rows, batch, a)
  {
    hide GrammarError, WiredParent, Doomed;
  }

  lemma CreatedSound(rows: Rows, batch: set<Item>, created: Rows, a: Item)
    requires UniquePaths(rows) && BatchOk(rows, batch) && IsCreated(rows, batch, created) && a in batch && !Doomed(rows, batch, a)
    ensures a.req.parentId.Some? ==> NaturalParentIs(rows + created, a.req.path, a.req.kind, a.req.parentId.value)
    ensures a.req.parentId.None? ==> forall b :: b in batch && BatchParentOf(a, b) ==> !Doomed(rows, batch, b)
  {
    SurvivorLinked(rows, batch, created, a);
    hide GrammarError, ParentPathOf;
    forall b | b in batch && BatchParentOf(a, b) && a.req.parentId.None? ensures !Doomed(rows, batch, b) {
      assert InBatchParent(batch, a, b.id);
      KnownIsWired(rows, batch, a, b.id);
    }
  }

  // The create loops

  /** accepted lists, in order, the accepted ones of the first n items; from says where they stood. */
  ghost predicate Filtered(rows: Rows, items: seq<Item>, n: nat, accepted: seq<Item>, from: seq<nat>)
    requires n <= |items|
  {
    && |from| == |accepted|
    && (forall k :: 0 <= k < |from| ==> from[k] < n && accepted[k] == items[from[k]] && AcceptedAt(rows, items, from[k]))
    && (forall j, k :: 0 <= j < k < |from| ==> from[j] < from[k])
    && (forall j :: 0 <= j < n && AcceptedAt(rows, items, j) ==> j in from)
  }

  predicate HasPath(accepted: seq<Item>, path: string) {
    exists k :: 0 <= k < |accepted| && accepted[k].req.path == path
  }

  /** First pass: grammar gate and path uniqueness, with the growing set of taken paths. */
  method AcceptCreates(rows: Rows, items: seq<Item>) returns (accepted: seq<Item>, errors: seq<BulkError>)
    requires FreshIds(rows, items)
    ensures Distinct(accepted)
    ensures ToSet(accepted) == AcceptedBatch(rows, items) && BatchOk(rows, ToSet(accepted))
    ensures |accepted| + |errors| == |items|
  {
    hide GrammarError, ParentPathOf;
    accepted, errors := [], [];
    var taken := set id | id in rows && Live(rows, id) :: rows[id].path;
    ghost var from: seq<nat> := [];
    for i := 0 to |items|
      invariant Filtered(rows, items, i, accepted, from)
      invariant forall path :: path in taken <==> PathTaken(rows, path) || HasPath(accepted, path)
      invariant |accepted| + |errors| == i
    {
      var c := items[i].req;
      var pathError := GrammarError(c.path, c.kind);
      FilterStep(rows, items, i, accepted, from);
      if pathError.Some? {
        errors := errors + [BadPath(c.path, pathError.value)];
      } else if c.path in taken {
        errors := errors + [AlreadyExists(c.path)];
      } else {
        taken := taken + {c.path};
        HasPathSnoc(accepted, items[i]);
        accepted := accepted + [items[i]];
        from := from + [i];
      }
    }
    FilteredIsBatch(rows, items, accepted, from);
  }

  ghost predicate Distinct(accepted: seq<Item>) {
    forall i, j :: 0 <= i < j < |accepted| ==> accepted[i].id != accepted[j].id
  }

  ghost function ToSet(accepted: seq<Item>): set<Item> {
    set a | a in accepted
  }

  lemma HasPathSnoc(accepted: seq<Item>, a: Item)
    ensures forall path :: HasPath(accepted + [a], path) <==> HasPath(accepted, path) || path == a.req.path
  {
    assert (accepted + [a])[|accepted|] == a;
    assert forall k :: 0 <= k < |accepted| ==> (accepted + [a])[k] == accepted[k];
  }

  lemma FilterStep(rows: Rows, items: seq<Item>, i: nat, accepted: seq<Item>, from: seq<nat>)
    requires i < |items| && Filtered(rows, items, i, accepted, from)
    ensures AcceptedAt(rows, items, i) <==>
            && GrammarError(items[i].req.path, items[i].req.kind).None?
            && !PathTaken(rows, items[i].req.path)
            && !HasPath(accepted, items[i].req.path)
    ensures if AcceptedAt(rows, items, i)
            then Filtered(rows, items, i + 1, accepted + [items[i]], from + [i])
            else Filtered(rows, items, i + 1, accepted, from)
  {
    hide GrammarError, ParentPathOf;
    var path := items[i].req.path;
    if !PathTaken(rows, path) && !HasPath(accepted, path) {
      forall j | 0 <= j < i && items[j].req.path == path
        ensures GrammarError(items[j].req.path, items[j].req.kind).Some?
      {
        if GrammarError(items[j].req.path, items[j].req.kind).None? {
          FirstOfPath(rows, items, j);
        }
      }
    }
    assert (from + [i])[|from|] == i;
    assert forall j :: j in from ==> j in from + [i];
  }

  lemma FilteredIsBatch(rows: Rows, items: seq<Item>, accepted: seq<Item>, from: seq<nat>)
    requires FreshIds(rows, items) && Filtered(rows, items, |items|, accepted, from)
    ensures Distinct(accepted)
    ensures ToSet(accepted) == AcceptedBatch(rows, items) && BatchOk(rows, ToSet(accepted))
  {
    hide GrammarError, ParentPathOf;
    forall a ensures a in accepted <==> a in AcceptedBatch(rows, items) {
      if a in AcceptedBatch(rows, items) {
        var i :| 0 <= i < |items| && AcceptedAt(rows, items, i) && items[i] == a;
        var k :| 0 <= k < |from| && from[k] == i;
        assert accepted[k] == a;
      }
    }
    forall a, b | a in accepted && b in accepted && (a.id == b.id || a.req.path == b.req.path) ensures a == b {
      var j :| 0 <= j < |accepted| && accepted[j] == a;
      var k :| 0 <= k < |accepted| && accepted[k] == b;
      assert AcceptedAt(rows, items, from[j]) && AcceptedAt(rows, items, from[k]);
    }
  }

  /** A well-formed item with a free path is itself accepted, or an earlier one with its path is. */
  lemma {:induction false} FirstOfPath(rows: Rows, items: seq<Item>, j: nat)
    requires j < |items|
    requires GrammarError(items[j].req.path, items[j].req.kind).None? && !PathTaken(rows, items[j].req.path)
    ensures exists k :: 0 <= k <= j && AcceptedAt(rows, items, k) && items[k].req.path == items[j].req.path
    decreases j
  {
    hide GrammarError, ParentPathOf;
    if !AcceptedAt(rows, items, j) {
      var k :| 0 <= k < j && items[k].req.path == items[j].req.path
               && GrammarError(items[k].req.path, items[k].req.kind).None?;
      FirstOfPath(rows, items, k);
    }
  }

  /** Where an explicit parent id is looked up: live rows first, then the batch. */
  function FindParent(rows: Rows, byId: map<Id, Item>, p: Id): Option<(string, Kind)> {
    if Live(rows, p) then Some((rows[p].path, rows[p].kind))
    else if p in byId then Some((byId[p].req.path, byId[p].req.kind))
    else None
  }

  /** The complaint about an explicit parent, if any: unknown, or not the natural parent. */
  function ParentError(rows: Rows, byId: map<Id, Item>, a: Item, p: Id): Option<BulkError> {
    var found := FindParent(rows, byId, p);
    if found.None? then Some(NoSuchParent(a.req.path))
    else if found.value.1.Level() >= a.req.kind.Level() || Some(found.value.0) != ParentPathOf(a.req.path, a.req.kind) then
      Some(NotTheNaturalParent(a.req.path))
    else None
  }

  /** An omitted parent is the batch row, else the live row, that has the natural parent's path. */
  function DeriveParent(rows: Rows, byPath: map<string, Item>, liveByPath: map<string, Id>, a: Item): Option<Id>
    requires forall path :: path in liveByPath ==> liveByPath[path] in rows
  {
    var parentPath := ParentPathOf(a.req.path, a.req.kind);
    if parentPath.None? then None
    else if parentPath.value in byPath && byPath[parentPath.value].req.kind.Level() < a.req.kind.Level() then
      Some(byPath[parentPath.value].id)
    else if parentPath.value in liveByPath && rows[liveByPath[parentPath.value]].kind.Level() < a.req.kind.Level() then
      Some(liveByPath[parentPath.value])
    else None
  }

  ghost predicate ById(batch: set<Item>, byId: map<Id, Item>) {
    && (forall b :: b in batch ==> b.id in byId && byId[b.id] == b)
    && (forall id :: id in byId ==> byId[id] in batch && byId[id].id == id)
  }

  ghost predicate ByPath(batch: set<Item>, byPath: map<string, Item>) {
    && (forall b :: b in batch ==> b.req.path in byPath && byPath[b.req.path] == b)
    && (forall path :: path in byPath ==> byPath[path] in batch && byPath[path].req.path == path)
  }

  ghost predicate LiveByPath(rows: Rows, liveByPath: map<string, Id>) {
    && (forall id :: Live(rows, id) ==> rows[id].path in liveByPath && liveByPath[rows[id].path] == id)
    && (forall path :: path in liveByPath ==> Live(rows, liveByPath[path]) && rows[liveByPath[path]].path == path)
  }

  lemma FindDecides(rows: Rows, batch: set<Item>, byId: map<Id, Item>, a: Item, p: Id)
    requires BatchOk(rows, batch) && ById(batch, byId) && a in batch && a.req.parentId == Some(p)
    ensures DirectlyRejected(rows, batch, a) <==> ParentError(rows, byId, a, p).Some?
  {
    hide GrammarError, ParentPathOf;
    assert forall b :: b in batch && b.id == p ==> b == byId[p] && !Live(rows, p);
  }

  lemma DeriveDecides(rows: Rows, batch: set<Item>, byPath: map<string, Item>, liveByPath: map<string, Id>, a: Item)
    requires BatchOk(rows, batch) && ByPath(batch, byPath) && LiveByPath(rows, liveByPath)
    requires a in batch && a.req.parentId.None?
    ensures WiredParent(rows, batch, a) == DeriveParent(rows, byPath, liveByPath, a)
  {
    hide GrammarError, ParentPathOf;
    var derived := DeriveParent(rows, byPath, liveByPath, a);
    forall p ensures InBatchParent(batch, a, p) ==> derived == Some(p) {
      if InBatchParent(batch, a, p) {
        var b :| b in batch && BatchParentOf(a, b) && b.id == p;
        assert byPath[b.req.path] == b;
      }
    }
    var path := ParentPathOf(a.req.path, a.req.kind);
    if path.Some? && path.value in byPath && byPath[path.value].req.kind.Level() < a.req.kind.Level() {
      assert InBatchParent(batch, a, byPath[path.value].id);
    } else {
      assert forall p :: !InBatchParent(batch, a, p);
      forall p | InTreeParent(rows, a, p) ensures derived == Some(p) {
        assert liveByPath[rows[p].path] == p;
      }
      assert derived.Some? ==> InTreeParent(rows, a, derived.value);
    }
  }

  ghost predicate NoTwins(accepted: seq<Item>) {
    forall a, b :: a in accepted && b in accepted && (a.id == b.id || a.req.path == b.req.path) ==> a == b
  }

  lemma BatchHasNoTwins(rows: Rows, accepted: seq<Item>)
    requires BatchOk(rows, ToSet(accepted))
    ensures NoTwins(accepted)
  {
    hide GrammarError;
  }

  method IndexByPath(accepted: seq<Item>) returns (byPath: map<string, Item>)
    requires NoTwins(accepted)
    ensures ByPath(ToSet(accepted), byPath)
  {
    byPath := map a | a in accepted :: a.req.path := a;
  }

  method IndexById(accepted: seq<Item>) returns (byId: map<Id, Item>)
    requires NoTwins(accepted)
    ensures ById(ToSet(accepted), byId)
  {
    byId := map a | a in accepted :: a.id := a;
  }

  method IndexLive(rows: Rows) returns (liveByPath: map<string, Id>)
    requires UniquePaths(rows)
    ensures LiveByPath(rows, liveByPath)
  {
    liveByPath := map id | id in rows && Live(rows, id) :: rows[id].path := id;
  }

  /** The ids of the directly rejected ones among the first n accepted rows. */
  ghost function RejectedAmong(rows: Rows, batch: set<Item>, accepted: seq<Item>, n: nat): set<Id>
    requires n <= |accepted|
  {
    set k | 0 <= k < n && DirectlyRejected(rows, batch, accepted[k]) :: accepted[k].id
  }

  lemma NoneRejectedYet(rows: Rows, batch: set<Item>, accepted: seq<Item>)
    ensures RejectedAmong(rows, batch, accepted, 0) == {}
  {
  }

  lemma RejectedAmongStep(rows: Rows, batch: set<Item>, accepted: seq<Item>, n: nat)
    requires n < |accepted| && Distinct(accepted)
    ensures accepted[n].id !in RejectedAmong(rows, batch, accepted, n)
    ensures RejectedAmong(rows, batch, accepted, n + 1) ==
            RejectedAmong(rows, batch, accepted, n) +
            (if DirectlyRejected(rows, batch, accepted[n]) then {accepted[n].id} else {})
  {
    hide DirectlyRejected;
  }

  /** Second pass: explicit parents are checked, omitted ones looked up in the batch, then the tree. */
  method WireParents(rows: Rows, accepted: seq<Item>)
    returns (parents: seq<Option<Id>>, rejected: set<Id>, errors: seq<BulkError>)
    requires UniquePaths(rows) && BatchOk(rows, ToSet(accepted)) && Distinct(accepted)
    ensures IsWired(rows, accepted, parents)
    ensures rejected == RejectedAmong(rows, ToSet(accepted), accepted, |accepted|)
    ensures |errors| == |rejected|
  {
    hide GrammarError, ParentPathOf, DirectlyRejected, WiredParent, RejectedAmong, ById, ByPath, LiveByPath,
         BatchOk, NoTwins, UniquePaths, Distinct;
    ghost var batch := ToSet(accepted);
    BatchHasNoTwins(rows, accepted);
    var inBatchByPath := IndexByPath(accepted);
    var inBatchById := IndexById(accepted);
    var dbParentByPath := IndexLive(rows);
    parents, rejected, errors := [], {}, [];
    NoneRejectedYet(rows, batch, accepted);
    for i := 0 to |accepted|
      invariant |parents| == i
      invariant forall k :: 0 <= k < i ==> parents[k] == WiredParent(rows, batch, accepted[k])
      invariant rejected == RejectedAmong(rows, batch, accepted, i)
      invariant |errors| == |rejected|
    {
      assert accepted[i] in batch;
      RejectedAmongStep(rows, batch, accepted, i);
      var parent, error := WireOne(rows, batch, inBatchByPath, inBatchById, dbParentByPath, accepted[i]);
      if error.Some? {
        errors := errors + [error.value];
        rejected := rejected + {accepted[i].id};
      }
      parents := parents + [parent];
    }
  }

  /** One row of the second pass. */
  method WireOne(rows: Rows, ghost batch: set<Item>, inBatchByPath: map<string, Item>, inBatchById: map<Id, Item>,
                 dbParentByPath: map<string, Id>, a: Item)
    returns (parent: Option<Id>, error: Option<BulkError>)
    requires UniquePaths(rows) && BatchOk(rows, batch) && a in batch
    requires ByPath(batch, inBatchByPath) && ById(batch, inBatchById) && LiveByPath(rows, dbParentByPath)
    ensures parent == WiredParent(rows, batch, a)
    ensures error.Some? <==> DirectlyRejected(rows, batch, a)
  {
    hide GrammarError, ParentPathOf, DirectlyRejected, WiredParent, ParentError, DeriveParent, ById, ByPath;
    parent, error := a.req.parentId, None;
    if a.req.parentId.Some? {
      ExplicitStays(rows, batch, a);
      FindDecides(rows, batch, inBatchById, a, a.req.parentId.value);
      error := ParentError(rows, inBatchById, a, a.req.parentId.value);
    } else {
      OmittedStays(rows, batch, a);
      DeriveDecides(rows, batch, inBatchByPath, dbParentByPath, a);
      parent := DeriveParent(rows, inBatchByPath, dbParentByPath, a);
    }
  }

  lemma ExplicitStays(rows: Rows, batch: set<Item>, a: Item)
    requires a.req.parentId.Some?
    ensures WiredParent(rows, batch, a) == a.req.parentId
  {
  }

  lemma OmittedStays(rows: Rows, batch: set<Item>, a: Item)
    requires a.req.parentId.None?
    ensures !DirectlyRejected(rows, batch, a)
  {
  }

  ghost predicate IsWired(rows: Rows, accepted: seq<Item>, parents: seq<Option<Id>>) {
    && |parents| == |accepted|
    && forall i :: 0 <= i < |accepted| ==> parents[i] == WiredParent(rows, ToSet(accepted), accepted[i])
  }

  /** The rows below a row of before, among the first n, are in after. */
  ghost predicate ChildrenIn(accepted: seq<Item>, parents: seq<Option<Id>>, n: nat, before: set<Id>, after: set<Id>)
    requires n <= |accepted| == |parents|
  {
    forall k :: 0 <= k < n && parents[k].Some? && parents[k].value in before ==> accepted[k].id in after
  }

  /** One pass of the fixpoint: a row whose parent is rejected by now is rejected too, and reported. */
  method RejectionPass(ghost rows: Rows, accepted: seq<Item>, parents: seq<Option<Id>>, before: set<Id>, reported: seq<BulkError>)
    returns (rejected: set<Id>, again: bool, errors: seq<BulkError>)
    requires BatchOk(rows, ToSet(accepted)) && IsWired(rows, accepted, parents)
    requires before <= Rejected(rows, ToSet(accepted))
    ensures before <= rejected <= Rejected(rows, ToSet(accepted))
    ensures again <==> |before| < |rejected|
    ensures again <==> before != rejected
    ensures |errors| - |reported| == |rejected| - |before|
    ensures |parents| == |accepted| && ChildrenIn(accepted, parents, |accepted|, before, rejected)
  {
    hide GrammarError, ParentPathOf, DirectlyRejected, WiredParent, Doomed, BatchOk, Rejected, ToSet;
    rejected, again, errors := before, false, reported;
    for i := 0 to |accepted|
      invariant before <= rejected <= Rejected(rows, ToSet(accepted))
      invariant again <==> |before| < |rejected|
      invariant again <==> before != rejected
      invariant |errors| - |reported| == |rejected| - |before|
      invariant ChildrenIn(accepted, parents, i, before, rejected)
    {
      var a := accepted[i];
      if a.id !in rejected && parents[i].Some? && parents[i].value in rejected {
        ChildIsRejected(rows, accepted, parents, i);
        errors := errors + [ParentRejected(a.req.path)];
        rejected := rejected + {a.id};
        again := true;
      }
    }
  }

  /** The fixpoint: passes are repeated until one finds nothing more; five always suffice. */
  method RejectChildren(ghost rows: Rows, accepted: seq<Item>, parents: seq<Option<Id>>, direct: set<Id>)
    returns (rejected: set<Id>, errors: seq<BulkError>, passes: nat)
    requires BatchOk(rows, ToSet(accepted)) && IsWired(rows, accepted, parents)
    requires direct == RejectedAmong(rows, ToSet(accepted), accepted, |accepted|)
    ensures rejected == Rejected(rows, ToSet(accepted))
    ensures |direct| + |errors| == |rejected|
    ensures passes <= 5 && passes <= |rejected|
  {
    StartComplete(rows, accepted);
    hide GrammarError, ParentPathOf, DirectlyRejected, WiredParent, Doomed, BatchOk, RejectedAmong, Rejected, ToSet, CompleteTo,
         IsWired, ChildrenIn;
    rejected, errors, passes := direct, [], 0;
    var again := |direct| > 0;
    while again
      invariant direct <= rejected <= Rejected(rows, ToSet(accepted))
      invariant CompleteTo(rows, ToSet(accepted), rejected, passes + 1)
      invariant again ==> passes <= 4 && passes < |rejected|
      invariant !again ==> passes <= 5 && passes <= |rejected| && Rejected(rows, ToSet(accepted)) <= rejected
      invariant |direct| + |errors| == |rejected|
      decreases 5 - passes
    {
      ghost var before := rejected;
      rejected, again, errors := RejectionPass(rows, accepted, parents, rejected, errors);
      passes := passes + 1;
      PassCompletes(rows, accepted, parents, before, rejected, passes);
    }
  }

  lemma StartComplete(rows: Rows, accepted: seq<Item>)
    requires BatchOk(rows, ToSet(accepted))
    ensures var batch, direct := ToSet(accepted), RejectedAmong(rows, ToSet(accepted), accepted, |accepted|);
            && direct <= Rejected(rows, batch)
            && CompleteTo(rows, batch, direct, 1)
            && (direct == {} ==> Rejected(rows, batch) == {})
  {
    hide GrammarError, ParentPathOf, DirectlyRejected, WiredParent;
    var batch := ToSet(accepted);
    var direct := RejectedAmong(rows, batch, accepted, |accepted|);
    forall a | a in batch && DirectlyRejected(rows, batch, a) ensures a.id in direct {
      var k :| 0 <= k < |accepted| && accepted[k] == a;
    }
    if direct == {} {
      assert RejectionClosed(rows, batch, {});
      RejectedIsLeast(rows, batch, {});
    }
  }

  lemma ChildIsRejected(rows: Rows, accepted: seq<Item>, parents: seq<Option<Id>>, i: nat)
    requires BatchOk(rows, ToSet(accepted)) && IsWired(rows, accepted, parents)
    requires i < |accepted| && parents[i].Some? && parents[i].value in Rejected(rows, ToSet(accepted))
    ensures accepted[i].id in Rejected(rows, ToSet(accepted))
  {
    hide GrammarError, ParentPathOf, DirectlyRejected, WiredParent, Doomed, BatchOk, Rejected;
    RejectedIsLeast(rows, ToSet(accepted), {});
    assert accepted[i] in ToSet(accepted);
  }

  /** Every rejected row of at most the given level has been found. */
  ghost predicate CompleteTo(rows: Rows, batch: set<Item>, s: set<Id>, level: nat) {
    forall a :: a in batch && Doomed(rows, batch, a) && a.req.kind.Level() <= level ==> a.id in s
  }

  /** One pass over all rows moves the frontier one level down the tree. */
  lemma PassCompletes(rows: Rows, accepted: seq<Item>, parents: seq<Option<Id>>, before: set<Id>, after: set<Id>, level: nat)
    requires BatchOk(rows, ToSet(accepted)) && IsWired(rows, accepted, parents)
    requires CompleteTo(rows, ToSet(accepted), before, level) && before <= after
    requires RejectedAmong(rows, ToSet(accepted), accepted, |accepted|) <= before
    requires ChildrenIn(accepted, parents, |accepted|, before, after)
    ensures CompleteTo(rows, ToSet(accepted), after, level + 1)
    ensures before == after ==> Rejected(rows, ToSet(accepted)) <= after
    ensures level >= 5 ==> Rejected(rows, ToSet(accepted)) <= before
  {
    hide GrammarError, ParentPathOf, DirectlyRejected, WiredParent, BatchOk;
    var batch := ToSet(accepted);
    forall a | a in batch
      ensures DirectlyRejected(rows, batch, a) ==> a.id in before
      ensures WiredParent(rows, batch, a).Some? && WiredParent(rows, batch, a).value in before ==> a.id in after
    {
      var k :| 0 <= k < |accepted| && accepted[k] == a;
    }
    forall a | a in batch && Doomed(rows, batch, a) && a.req.kind.Level() <= level + 1 ensures a.id in after {
      if !DirectlyRejected(rows, batch, a) {
        var b :| b in batch && b.req.kind.Level() < a.req.kind.Level()
                 && WiredParent(rows, batch, a) == Some(b.id) && Doomed(rows, batch, b);
        assert b.id in before;
      }
    }
    if before == after {
      RejectedIsLeast(rows, batch, after);
    }
  }

  ghost function IdsTo(accepted: seq<Item>, n: nat): set<Id>
    requires n <= |accepted|
  {
    set k | 0 <= k < n :: accepted[k].id
  }

  lemma {:induction false} IdsCount(accepted: seq<Item>, n: nat)
    requires n <= |accepted| && Distinct(accepted)
    ensures |IdsTo(accepted, n)| == n
  {
    if n > 0 {
      IdsCount(accepted, n - 1);
      IdsStep(accepted, n - 1);
    }
  }

  lemma IdsStep(accepted: seq<Item>, n: nat)
    requires n < |accepted| && Distinct(accepted)
    ensures accepted[n].id !in IdsTo(accepted, n)
    ensures IdsTo(accepted, n + 1) == IdsTo(accepted, n) + {accepted[n].id}
  {
  }

  lemma IdsNone(accepted: seq<Item>)
    ensures IdsTo(accepted, 0) == {}
  {
  }

  /** Build the surviving rows: all but the rejected ones, with the parents they are wired to. */
  method BuildRows(ghost rows: Rows, accepted: seq<Item>, parents: seq<Option<Id>>, rejected: set<Id>)
    returns (created: Rows)
    requires BatchOk(rows, ToSet(accepted)) && Distinct(accepted) && IsWired(rows, accepted, parents)
    requires rejected == Rejected(rows, ToSet(accepted))
    ensures IsCreated(rows, ToSet(accepted), created)
    ensures |created| + |rejected| == |accepted|
  {
    hide NewAsset, IsCreated, Rejected, ToSet, BatchOk, IdsTo, WiredParent;
    created := map[];
    IdsNone(accepted);
    for i := 0 to |accepted|
      invariant created.Keys == IdsTo(accepted, i) - rejected
      invariant forall k :: 0 <= k < i && accepted[k].id !in rejected ==>
                  accepted[k].id in created && created[accepted[k].id] == NewAsset(accepted[k], parents[k])
    {
      IdsStep(accepted, i);
      if accepted[i].id !in rejected {
        created := created[accepted[i].id := NewAsset(accepted[i], parents[i])];
      }
    }
    BuiltIsCreated(rows, accepted, parents, rejected, created);
    BuiltCount(rows, accepted, rejected, created);
  }

  lemma BuiltIsCreated(rows: Rows, accepted: seq<Item>, parents: seq<Option<Id>>, rejected: set<Id>, created: Rows)
    requires BatchOk(rows, ToSet(accepted)) && IsWired(rows, accepted, parents) && Distinct(accepted)
    requires rejected == Rejected(rows, ToSet(accepted))
    requires forall k :: 0 <= k < |accepted| && accepted[k].id !in rejected ==>
               accepted[k].id in created && created[accepted[k].id] == NewAsset(accepted[k], parents[k])
    requires created.Keys == IdsTo(accepted, |accepted|) - rejected
    ensures IsCreated(rows, ToSet(accepted), created)
  {
    hide GrammarError, ParentPathOf, WiredParent, Doomed, NewAsset;
    var batch := ToSet(accepted);
    forall a | a in batch && !Doomed(rows, batch, a)
      ensures a.id in created && created[a.id] == NewAsset(a, WiredParent(rows, batch, a))
    {
      var k :| 0 <= k < |accepted| && accepted[k] == a;
      assert forall b :: b in batch && b.id == a.id ==> b == a;
    }
    forall id | id in created ensures exists a :: a in batch && !Doomed(rows, batch, a) && a.id == id {
      var k :| 0 <= k < |accepted| && accepted[k].id == id;
      assert accepted[k] in batch;
    }
  }

  lemma BuiltCount(rows: Rows, accepted: seq<Item>, rejected: set<Id>, created: Rows)
    requires Distinct(accepted) && rejected == Rejected(rows, ToSet(accepted))
    requires created.Keys == IdsTo(accepted, |accepted|) - rejected
    ensures |created| + |rejected| == |accepted|
  {
    hide Doomed, Distinct;
    forall id | id in rejected ensures id in IdsTo(accepted, |accepted|) {
      var a :| a in ToSet(accepted) && a.id == id;
      var k :| 0 <= k < |accepted| && accepted[k] == a;
    }
    IdsCount(accepted, |accepted|);
    SetRemainder(created.Keys, IdsTo(accepted, |accepted|), rejected);
  }

  lemma SetRemainder(rest: set<Id>, all: set<Id>, part: set<Id>)
    requires part <= all && rest == all - part
    ensures |rest| + |part| == |all|
  {
    assert rest + part == all && rest * part == {};
  }

  /** The create half of a bulk request. */
  method CreateRows(rows: Rows, items: seq<Item>) returns (created: Rows, errors: seq<BulkError>)
    requires UniquePaths(rows) && FreshIds(rows, items)
    ensures IsCreated(rows, AcceptedBatch(rows, items), created)
    ensures |created| + |errors| == |items|
  {
    hide GrammarError, ParentPathOf, WiredParent, Doomed, BatchOk, IsCreated, AcceptedBatch, ToSet, IsWired, Rejected, RejectedAmong;
    var accepted, rowErrors := AcceptCreates(rows, items);
    var parents, direct, parentErrors := WireParents(rows, accepted);
    var rejected, childErrors, passes := RejectChildren(rows, accepted, parents, direct);
    created := BuildRows(rows, accepted, parents, rejected);
    errors := rowErrors + parentErrors + childErrors;
  }
}
