/** Reading the tree: the walk to the root and the path-prefix descendants. */
module AssetWalk {
  import opened Text
  import opened AssetPaths
  import opened AssetTree

  /** A walk from a root down to its last node, each node the recorded and natural child of the one before. */
  ghost predicate RootWalk(rows: Rows, walk: seq<Id>) {
    && (forall i :: 0 <= i < |walk| ==> Live(rows, walk[i]))
    && (walk != [] ==> rows[walk[0]].parentId.None?)
    && ChildChain(rows, walk)
  }

  ghost predicate ChildChain(rows: Rows, walk: seq<Id>) {
    forall i :: 1 <= i < |walk| ==>
      walk[i] in rows && rows[walk[i]].parentId == Some(walk[i - 1])
      && NaturalParentIs(rows, rows[walk[i]].path, rows[walk[i]].kind, walk[i - 1])
  }

  /** The walk from the root to a node; it is never longer than the node's level. */
  method Hierarchy(rows: Rows, id: Id) returns (hierarchy: seq<Id>)
    requires TreeOk(rows)
    ensures !Live(rows, id) ==> hierarchy == []
    ensures Live(rows, id) ==> hierarchy != [] && hierarchy[|hierarchy| - 1] == id
                               && RootWalk(rows, hierarchy) && |hierarchy| <= rows[id].kind.Level()
  {
    hide GrammarError, ParentPathOf;
    hierarchy := [];
    var current := if Live(rows, id) then Some(id) else None;
    while current.Some?
      invariant !Live(rows, id) ==> current.None? && hierarchy == []
      invariant forall i :: 0 <= i < |hierarchy| ==> Live(rows, hierarchy[i])
      invariant ChildChain(rows, hierarchy)
      invariant hierarchy != [] ==> hierarchy[|hierarchy| - 1] == id && current == rows[hierarchy[0]].parentId
      invariant Live(rows, id) && hierarchy == [] ==> current == Some(id)
      invariant current.Some? ==> Live(rows, current.value)
      invariant hierarchy != [] ==> rows[hierarchy[0]].kind.Level() + |hierarchy| <= rows[id].kind.Level() + 1
      decreases if current.Some? then rows[current.value].kind.Level() else 0
    {
      var node := current.value;
      assert Linked(rows, rows[node]);
      ChainCons(rows, node, hierarchy);
      hierarchy := [node] + hierarchy;
      current := if rows[node].parentId.Some? && Live(rows, rows[node].parentId.value)
                 then rows[node].parentId else None;
    }
  }

  lemma ChainCons(rows: Rows, node: Id, walk: seq<Id>)
    requires Live(rows, node) && ChildChain(rows, walk)
    requires forall i :: 0 <= i < |walk| ==> Live(rows, walk[i])
    requires walk != [] ==> Live(rows, walk[0])
    requires walk != [] ==> rows[walk[0]].parentId == Some(node)
    requires walk != [] ==> Linked(rows, rows[walk[0]])
    ensures ChildChain(rows, [node] + walk)
  {
    hide ParentPathOf;
    var longer := [node] + walk;
    forall i | 1 <= i < |longer|
      ensures longer[i] in rows && rows[longer[i]].parentId == Some(longer[i - 1])
              && NaturalParentIs(rows, rows[longer[i]].path, rows[longer[i]].kind, longer[i - 1])
    {
      assert longer[i] == walk[i - 1];
      assert i > 1 ==> longer[i - 1] == walk[i - 2];
    }
  }

  /** x is a child of r, or a child of a node that is. */
  ghost predicate Below(rows: Rows, r: Id, x: Id)
    decreases if x in rows then rows[x].kind.Level() else 0
  {
    && Live(rows, x) && rows[x].parentId.Some?
    && var p := rows[x].parentId.value;
       Live(rows, p) && rows[p].kind.Level() < rows[x].kind.Level() && (p == r || Below(rows, r, p))
  }

  /** Live nodes whose path starts with the node's path and a slash. */
  function Descendants(rows: Rows, id: Id): set<Id>
    requires id in rows
  {
    set x | x in rows && Live(rows, x) && rows[id].path + "/" <= rows[x].path
  }

  lemma DottedCut(path: string)
    requires GrammarError(path, Measurement).None? && ParentPathOf(path, Measurement).Some?
    ensures path[|ParentPathOf(path, Measurement).value|] == '.'
  {
    AcceptedParts(path, Measurement);
    hide GrammarError;
    var i, last := LastIndexOf(path, '/'), LastSegment(path);
    var k :| 0 <= k < |last| && last[k] == '.';
    assert path[i + 1 + k] == '.';
  }

  /** A transitive child's path extends the node's path, past a slash unless it is a Measurement on the node itself. */
  lemma {:induction false} BelowExtends(rows: Rows, r: Id, x: Id)
    requires TreeOk(rows) && Live(rows, r) && Below(rows, r, x)
    ensures rows[r].path < rows[x].path
    ensures rows[x].path[|rows[r].path|] ==
            if rows[x].kind.Measurement? && rows[x].parentId == Some(r) then '.' else '/'
    decreases rows[x].kind.Level()
  {
    hide GrammarError, ParentPathOf;
    var p := rows[x].parentId.value;
    assert Linked(rows, rows[x]);
    ParentIsPrefix(rows[x].path, rows[x].kind);
    if rows[x].kind.Measurement? {
      DottedCut(rows[x].path);
    }
    if p != r {
      BelowExtends(rows, r, p);
    }
  }

  /**
   The prefix query finds every transitive child of a node, except exactly the Measurements attached
   to the node itself.
   */
  lemma DescendantsIff(rows: Rows, r: Id, x: Id)
    requires TreeOk(rows) && Live(rows, r) && Below(rows, r, x)
    ensures x in Descendants(rows, r) <==> !(rows[x].kind.Measurement? && rows[x].parentId == Some(r))
  {
    hide GrammarError, ParentPathOf;
    BelowExtends(rows, r, x);
    var up, path := rows[r].path, rows[x].path;
    assert path[..|up| + 1] == up + [path[|up|]];
  }

  /** A descendant is a live node whose path goes on behind a slash. */
  lemma DescendantIs(rows: Rows, r: Id, x: Id)
    requires r in rows
    ensures x in Descendants(rows, r) <==>
            x in rows && !rows[x].isDeleted && exists rest: string :: rows[x].path == rows[r].path + ("/" + rest)
  {
    if x in rows && rows[r].path + "/" <= rows[x].path {
      var rest := rows[x].path[|rows[r].path| + 1..];
      assert rows[x].path == rows[r].path + ("/" + rest);
    }
    if x in rows && exists rest: string :: rows[x].path == rows[r].path + ("/" + rest) {
      var rest: string :| rows[x].path == rows[r].path + ("/" + rest);
      assert rows[x].path == (rows[r].path + "/") + rest;
    }
  }

  /**
   The prefix query finds nothing else than transitive children of the node, and trees that
   hang below it by their path only, because the parent of their top is not modelled.
   */
  lemma {:induction false} DescendantSource(rows: Rows, r: Id, x: Id) returns (top: Id)
    requires TreeOk(rows) && Live(rows, r) && x in Descendants(rows, r)
    ensures Below(rows, r, x) ||
            (top in Descendants(rows, r) && rows[top].parentId.None? && (top == x || Below(rows, top, x)))
    decreases rows[x].kind.Level()
  {
    hide GrammarError;
    top := x;
    if rows[x].parentId.Some? {
      var p := rows[x].parentId.value;
      assert Linked(rows, rows[x]);
      NaturalParentInside(rows[r].path, rows[x].path, rows[x].kind);
      hide ParentPathOf;
      if rows[p].path == rows[r].path {
        assert p == r;
      } else {
        top := DescendantSource(rows, r, p);
      }
    }
  }

  /** The natural parent of a path below another is that other path, or below it too. */
  lemma NaturalParentInside(up: string, path: string, kind: Kind)
    requires up + "/" <= path && ParentPathOf(path, kind).Some?
    ensures ParentPathOf(path, kind).value == up || up + "/" <= ParentPathOf(path, kind).value
  {
    var p := ParentPathOf(path, kind).value;
    assert path[|up|] == '/';
    assert |p| >= |up|;
    assert p == path[..|p|];
    assert up == path[..|up|];
    if |p| > |up| {
      assert up + "/" == path[..|up| + 1];
      assert p[..|up| + 1] == path[..|up| + 1];
    }
  }
}
