/**
 Rows of the asset table and the tree they form. The hierarchy is stored twice, as a path and as a
 parent id; TreeOk says that the two are in step.
 */
module AssetTree {
  import opened Text
  import opened AssetPaths

  type Id = nat

  datatype Asset = Asset(path: string, kind: Kind, name: string, parentId: Option<Id>, isDeleted: bool)

  type Rows = map<Id, Asset>

  predicate Live(rows: Rows, id: Id) {
    id in rows && !rows[id].isDeleted
  }

  ghost predicate PathTaken(rows: Rows, path: string) {
    exists id :: Live(rows, id) && rows[id].path == path
  }

  /** p is live, of a higher level, and its path is the natural parent of the given path. */
  predicate NaturalParentIs(rows: Rows, path: string, kind: Kind, p: Id) {
    && Live(rows, p)
    && rows[p].kind.Level() < kind.Level()
    && ParentPathOf(path, kind) == Some(rows[p].path)
  }

  ghost predicate Linked(rows: Rows, asset: Asset) {
    asset.parentId.Some? ==> NaturalParentIs(rows, asset.path, asset.kind, asset.parentId.value)
  }

  ghost predicate UniquePaths(rows: Rows) {
    forall i, j :: Live(rows, i) && Live(rows, j) && rows[i].path == rows[j].path ==> i == j
  }

  ghost predicate AllLinked(rows: Rows) {
    forall id :: Live(rows, id) ==> Linked(rows, rows[id])
  }

  ghost predicate WellNamed(rows: Rows) {
    forall id :: Live(rows, id) ==> GrammarError(rows[id].path, rows[id].kind).None?
  }

  ghost predicate TreeOk(rows: Rows) {
    UniquePaths(rows) && AllLinked(rows) && WellNamed(rows)
  }

  ghost predicate HasLiveChild(rows: Rows, p: Id) {
    exists id :: Live(rows, id) && rows[id].parentId == Some(p)
  }

  lemma NaturalParentUnique(rows: Rows, path: string, kind: Kind, p: Id, q: Id)
    requires UniquePaths(rows)
    requires NaturalParentIs(rows, path, kind, p) && NaturalParentIs(rows, path, kind, q)
    ensures p == q
  {
  }

  /** In a sound tree, the assets the grammar leaves without a possible parent are all roots. */
  lemma UnparentableIsRoot(rows: Rows, id: Id)
    requires TreeOk(rows) && Live(rows, id)
    requires (rows[id].kind.Device? && |Segments(rows[id].path)| == 5)
             || (rows[id].kind.Measurement? &&
                 (|Segments(rows[id].path)| == 6 || |Split(LastSegment(rows[id].path), '.')| > 2))
    ensures rows[id].parentId.None?
  {
    ParentableIff(rows[id].path, rows[id].kind);
    hide GrammarError, ParentPathOf;
    assert Linked(rows, rows[id]);
  }

  // Single create

  datatype CreateRequest = CreateRequest(path: string, kind: Kind, name: Option<string>, parentId: Option<Id>)

  ghost predicate CreateAccepted(rows: Rows, req: CreateRequest) {
    && GrammarError(req.path, req.kind).None?
    && !PathTaken(rows, req.path)
    && (req.parentId.Some? ==> NaturalParentIs(rows, req.path, req.kind, req.parentId.value))
  }

  /** The parent a row gets: the one asked for, else the natural parent when it is modelled. */
  ghost predicate ParentResolved(rows: Rows, req: CreateRequest, parentId: Option<Id>) {
    && (req.parentId.Some? ==> parentId == req.parentId)
    && (req.parentId.None? && parentId.Some? ==> NaturalParentIs(rows, req.path, req.kind, parentId.value))
    && (parentId.None? ==> forall p :: !NaturalParentIs(rows, req.path, req.kind, p))
  }

  function NameOf(req: CreateRequest): string {
    if req.name.Some? then req.name.value else LastSegment(req.path)
  }

  /** A row is called what the request says, else by the text behind the last slash of its path. */
  lemma NameIs(req: CreateRequest)
    ensures req.name.Some? ==> req.name == Some(NameOf(req))
    ensures req.name.None? ==> '/' !in NameOf(req) && (NameOf(req) == req.path || exists head: string :: req.path == head + ("/" + NameOf(req)))
  {
    if req.name.None? && '/' in req.path {
      var i := LastIndexOf(req.path, '/');
      assert req.path == req.path[..i] + ("/" + NameOf(req));
    }
  }

  lemma CreateKeepsTree(rows: Rows, req: CreateRequest, id: Id, asset: Asset)
    requires TreeOk(rows) && id !in rows && CreateAccepted(rows, req)
    requires asset.path == req.path && asset.kind == req.kind && ParentResolved(rows, req, asset.parentId)
    ensures TreeOk(rows[id := asset])
  {
    hide GrammarError, ParentPathOf;
    var rows' := rows[id := asset];
    assert forall k :: k != id ==> Live(rows', k) == Live(rows, k);
    forall k | Live(rows', k) ensures Linked(rows', rows'[k]) {
      if k != id {
        assert Linked(rows, rows[k]);
      }
    }
  }

  // Single delete

  /** Soft-deleting a node keeps the tree exactly when no live node names it as its parent. */
  lemma DeleteKeepsTreeIff(rows: Rows, id: Id)
    requires TreeOk(rows) && Live(rows, id)
    ensures TreeOk(rows[id := rows[id].(isDeleted := true)]) <==> !HasLiveChild(rows, id)
  {
    hide GrammarError, ParentPathOf;
    var rows' := rows[id := rows[id].(isDeleted := true)];
    assert forall k :: Live(rows', k) <==> k != id && Live(rows, k);
    if HasLiveChild(rows, id) {
      var c :| Live(rows, c) && rows[c].parentId == Some(id);
      assert Linked(rows, rows[c]);
      assert Live(rows', c) && !Linked(rows', rows'[c]);
    } else {
      forall k | Live(rows', k) ensures Linked(rows', rows'[k]) {
        assert Linked(rows, rows[k]);
      }
    }
  }
}
