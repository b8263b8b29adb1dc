/** The folder tree of displays: its bounded ancestor walk, moves in it, and who may edit. */
module Folders {
  import opened Text

  type Id = nat

  /** Each folder and the folder it lies in. */
  type Tree = map<Id, Option<Id>>

  const WALK_LIMIT := 64

  function ParentOf(tree: Tree, x: Option<Id>): Option<Id> {
    if x.Some? && x.value in tree then tree[x.value] else None
  }

  /** The k-th folder above x. */
  function Up(tree: Tree, x: Option<Id>, k: nat): Option<Id> {
    if k == 0 then x else ParentOf(tree, Up(tree, x, k - 1))
  }

  ghost predicate OnPath(tree: Tree, x: Option<Id>, id: Id) {
    exists k: nat :: Up(tree, x, k) == Some(id)
  }

  /** No folder lies in itself, however far up. */
  ghost predicate NoCycle(tree: Tree) {
    forall id: Id, k: nat :: k > 0 && id in tree ==> Up(tree, Some(id), k) != Some(id)
  }

  ghost predicate Closed(tree: Tree) {
    forall id :: id in tree && tree[id].Some? ==> tree[id].value in tree
  }

  /** The chain above x ends within the number of steps the walk takes. */
  ghost predicate Fits(tree: Tree, x: Option<Id>) {
    Up(tree, x, WALK_LIMIT).None?
  }

  lemma {:induction false} UpSum(tree: Tree, x: Option<Id>, j: nat, k: nat)
    ensures Up(tree, Up(tree, x, j), k) == Up(tree, x, j + k)
    decreases k
  {
    if k > 0 {
      UpSum(tree, x, j, k - 1);
    }
  }

  lemma {:induction false} UpEnds(tree: Tree, x: Option<Id>, j: nat, k: nat)
    requires Up(tree, x, j).None? && j <= k
    ensures Up(tree, x, k).None?
    decreases k
  {
    if j < k {
      UpEnds(tree, x, j, k - 1);
    }
  }

  // The walk

  method FolderChain(tree: Tree, folderId: Option<Id>) returns (chain: seq<Id>)
    ensures |chain| <= 64
    ensures forall i :: 0 <= i < |chain| ==> Up(tree, folderId, i) == Some(chain[i])
    ensures |chain| < 64 ==> Up(tree, folderId, |chain|).None?
  {
    chain := [];
    var current := folderId;
    var guard := 0;
    while current.Some? && guard < WALK_LIMIT
      invariant guard == |chain| <= WALK_LIMIT
      invariant current == Up(tree, folderId, guard)
      invariant forall i :: 0 <= i < |chain| ==> Up(tree, folderId, i) == Some(chain[i])
      decreases WALK_LIMIT - guard
    {
      guard := guard + 1;
      chain := chain + [current.value];
      current := ParentOf(tree, current);
    }
  }

  ghost predicate Walked(tree: Tree, x: Option<Id>, chain: seq<Id>) {
    && |chain| <= WALK_LIMIT
    && (forall i :: 0 <= i < |chain| ==> Up(tree, x, i) == Some(chain[i]))
    && (|chain| < WALK_LIMIT ==> Up(tree, x, |chain|).None?)
  }

  /** The walk sees exactly what lies at most 63 folders up; if the chain fits, exactly the ancestors. */
  lemma WalkSees(tree: Tree, x: Option<Id>, chain: seq<Id>, id: Id)
    requires Walked(tree, x, chain)
    ensures id in chain <==> exists k: nat :: k < 64 && Up(tree, x, k) == Some(id)
    ensures Fits(tree, x) ==> (id in chain <==> OnPath(tree, x, id))
  {
    forall k: nat | Up(tree, x, k) == Some(id) && (k < WALK_LIMIT || Fits(tree, x)) ensures id in chain {
      if k >= |chain| {
        if |chain| < WALK_LIMIT {
          UpEnds(tree, x, |chain|, k);
        } else {
          UpEnds(tree, x, WALK_LIMIT, k);
        }
      }
      assert k < |chain| ==> chain[k] == id;
    }
    if id in chain {
      var i: nat :| i < |chain| && chain[i] == id;
      assert Up(tree, x, i) == Some(id);
    }
  }

  // Moving and creating folders

  lemma {:induction false} UpElsewhere(tree: Tree, id: Id, p: Option<Id>, x: Option<Id>, k: nat)
    requires id in tree && forall j: nat :: j < k ==> Up(tree, x, j) != Some(id)
    ensures Up(tree[id := p], x, k) == Up(tree, x, k)
    decreases k
  {
    if k > 0 {
      UpElsewhere(tree, id, p, x, k - 1);
    }
  }

  /** Putting a folder into p makes a cycle exactly when the folder is p or lies above p. */
  lemma MoveKeepsIff(tree: Tree, id: Id, p: Option<Id>)
    requires NoCycle(tree) && id in tree
    ensures NoCycle(tree[id := p]) <==> !OnPath(tree, p, id)
  {
    var moved := tree[id := p];
    if OnPath(tree, p, id) {
      var k := FirstHit(tree, p, id);
      UpElsewhere(tree, id, p, p, k);
      UpFirst(moved, id, k);
    } else {
      forall x: Id, k: nat | k > 0 && x in moved ensures Up(moved, Some(x), k) != Some(x) {
        MovedAvoids(tree, id, p, x, k);
      }
    }
  }

  lemma {:induction false} FirstHitFrom(tree: Tree, x: Option<Id>, id: Id, n: nat) returns (k: nat)
    requires Up(tree, x, n) == Some(id)
    ensures k <= n && Up(tree, x, k) == Some(id) && forall j: nat :: j < k ==> Up(tree, x, j) != Some(id)
    decreases n
  {
    if j: nat :| j < n && Up(tree, x, j) == Some(id) {
      k := FirstHitFrom(tree, x, id, j);
    } else {
      k := n;
    }
  }

  lemma FirstHit(tree: Tree, x: Option<Id>, id: Id) returns (k: nat)
    requires OnPath(tree, x, id)
    ensures Up(tree, x, k) == Some(id) && forall j: nat :: j < k ==> Up(tree, x, j) != Some(id)
  {
    var n: nat :| Up(tree, x, n) == Some(id);
    k := FirstHitFrom(tree, x, id, n);
  }

  /** With the moved folder not above its new parent, no walk in the new tree comes back to its start. */
  lemma MovedAvoids(tree: Tree, id: Id, p: Option<Id>, x: Id, k: nat)
    requires NoCycle(tree) && id in tree && !OnPath(tree, p, id) && x in tree && k > 0
    ensures Up(tree[id := p], Some(x), k) != Some(x)
  {
    var moved := tree[id := p];
    if j: nat :| j < k && Up(moved, Some(x), j) == Some(id) {
      // Were the walk to come back to x, it would come back to the moved folder as well.
      UpSum(moved, Some(x), j, k);
      UpSum(moved, Some(x), k, j);
      UpFirst(moved, id, k - 1);
      UpElsewhere(tree, id, p, p, k - 1);
    } else {
      MovedSame(tree, id, p, moved, x, k);
    }
  }

  lemma UpFirst(tree: Tree, id: Id, k: nat)
    requires id in tree
    ensures Up(tree, Some(id), 1 + k) == Up(tree, tree[id], k)
  {
    UpSum(tree, Some(id), 1, k);
    assert Up(tree, Some(id), 0) == Some(id);
  }

  lemma {:induction false} MovedSame(tree: Tree, id: Id, p: Option<Id>, moved: Tree, x: Id, k: nat)
    requires id in tree && moved == tree[id := p] && forall j: nat :: j < k ==> Up(moved, Some(x), j) != Some(id)
    ensures Up(moved, Some(x), k) == Up(tree, Some(x), k)
    decreases k
  {
    if k > 0 {
      MovedSame(tree, id, p, moved, x, k - 1);
    }
  }

  /** A new folder, in a folder that exists or in none, never makes a cycle. */
  lemma CreateKeeps(tree: Tree, id: Id, p: Option<Id>)
    requires NoCycle(tree) && Closed(tree) && id !in tree && (p.Some? ==> p.value in tree)
    ensures NoCycle(tree[id := p]) && Closed(tree[id := p])
  {
    var grown := tree[id := p];
    forall x: Id, k: nat | k > 0 && x in grown ensures Up(grown, Some(x), k) != Some(x) {
      if x in tree {
        GrownSame(tree, id, p, Some(x), k);
      } else {
        UpFirst(grown, id, k - 1);
        GrownSame(tree, id, p, p, k - 1);
        UpInTree(tree, p, k - 1);
      }
    }
  }

  lemma {:induction false} GrownSame(tree: Tree, id: Id, p: Option<Id>, x: Option<Id>, k: nat)
    requires Closed(tree) && id !in tree && (x.Some? ==> x.value in tree)
    ensures Up(tree[id := p], x, k) == Up(tree, x, k)
    decreases k
  {
    if k > 0 {
      GrownSame(tree, id, p, x, k - 1);
      UpInTree(tree, x, k - 1);
    }
  }

  /** In a cycle-free tree of at most 64 folders every chain fits the walk. */
  lemma SmallTreeFits(tree: Tree, x: Option<Id>)
    requires NoCycle(tree) && Closed(tree) && |tree| <= 64 && (x.Some? ==> x.value in tree)
    ensures Fits(tree, x)
  {
    if Up(tree, x, WALK_LIMIT).Some? {
      AboveCount(tree, x, WALK_LIMIT + 1);
      SubsetSize(Above(tree, x, WALK_LIMIT + 1), tree.Keys);
    }
  }

  lemma SubsetSize(a: set<Id>, b: set<Id>)
    requires a <= b
    ensures |a| <= |b|
  {
    assert b == a + (b - a);
  }

  /** The first n folders of a chain. */
  ghost function Above(tree: Tree, x: Option<Id>, n: nat): set<Id> {
    if n == 0 then {}
    else Above(tree, x, n - 1) + (if Up(tree, x, n - 1).Some? then {Up(tree, x, n - 1).value} else {})
  }

  lemma {:induction false} AboveIs(tree: Tree, x: Option<Id>, n: nat, id: Id)
    requires id in Above(tree, x, n)
    ensures exists k: nat :: k < n && Up(tree, x, k) == Some(id)
  {
    if id in Above(tree, x, n - 1) {
      AboveIs(tree, x, n - 1, id);
    }
  }

  /** They are n different folders of the tree. */
  lemma {:induction false} AboveCount(tree: Tree, x: Option<Id>, n: nat)
    requires NoCycle(tree) && Closed(tree) && (x.Some? ==> x.value in tree)
    requires n > 0 ==> Up(tree, x, n - 1).Some?
    ensures |Above(tree, x, n)| == n && Above(tree, x, n) <= tree.Keys
  {
    if n > 0 {
      assert n > 1 ==> Up(tree, x, n - 2).Some?;
      AboveCount(tree, x, n - 1);
      UpInTree(tree, x, n - 1);
      TopIsNew(tree, x, n - 1);
    }
  }

  /** In a cycle-free tree the n-th folder of a chain is none of those before it. */
  lemma TopIsNew(tree: Tree, x: Option<Id>, n: nat)
    requires NoCycle(tree) && Up(tree, x, n).Some? && Up(tree, x, n).value in tree
    ensures Up(tree, x, n).value !in Above(tree, x, n)
  {
    hide Above;
    var top := Up(tree, x, n).value;
    if top in Above(tree, x, n) {
      AboveIs(tree, x, n, top);
      var k: nat :| k < n && Up(tree, x, k) == Some(top);
      UpSum(tree, x, k, n - k);
    }
  }

  lemma {:induction false} UpInTree(tree: Tree, x: Option<Id>, k: nat)
    requires Closed(tree) && (x.Some? ==> x.value in tree)
    ensures Up(tree, x, k).Some? ==> Up(tree, x, k).value in tree
    decreases k
  {
    if k > 0 {
      UpInTree(tree, x, k - 1);
    }
  }

  // The handlers

  datatype Reply = Ok | NotFound | Forbidden | OwnParent | OwnDescendant | NoSuchParent

  class Store {
    var tree: Tree

    ghost predicate Valid()
      reads this
    {
      NoCycle(tree) && Closed(tree)
    }

    constructor ()
      ensures Valid() && tree == map[]
    {
      tree := map[];
    }

    /** POST /folders; the database refuses a parent that does not exist. */
    method Create(newId: Id, parentId: Option<Id>) returns (reply: Reply)
      requires Valid() && newId !in tree
      modifies this
      ensures Valid()
      ensures reply == if parentId.Some? && parentId.value !in old(tree) then NoSuchParent else Ok
      ensures tree == if reply.Ok? then old(tree)[newId := parentId] else old(tree)
    {
      hide NoCycle;
      if parentId.Some? && parentId.value !in tree { return NoSuchParent; }
      CreateKeeps(tree, newId, parentId);
      tree := tree[newId := parentId];
      reply := Ok;
    }

    /** PUT /folders/{id}: the move is refused when the walk above the new parent meets the folder. */
    method Move(id: Id, parentId: Option<Id>, mayEdit: bool) returns (reply: Reply)
      requires Valid()
      modifies this
      ensures tree == if reply.Ok? then old(tree)[id := parentId] else old(tree)
      ensures reply.Ok? <==>
                && id in old(tree) && mayEdit
                && (parentId == old(tree)[id] ||
                    ((parentId.Some? ==> parentId.value in old(tree))
                     && forall k: nat :: k < 64 ==> Up(old(tree), parentId, k) != Some(id)))
      ensures reply.NotFound? <==> id !in old(tree)
      ensures reply.Forbidden? <==> id in old(tree) && !mayEdit
      ensures reply.OwnParent? <==> id in old(tree) && mayEdit && parentId != old(tree)[id] && parentId == Some(id)
      ensures Valid() <==> (reply.Ok? ==> !OnPath(old(tree), parentId, id))
      ensures Fits(old(tree), parentId) ==> Valid()
    {
      if id !in tree { return NotFound; }
      if !mayEdit { return Forbidden; }
      MoveKeepsIff(tree, id, parentId);
      SameParent(tree, id);
      if parentId != tree[id] {
        if parentId == Some(id) {
          assert Up(tree, parentId, 0) == Some(id);
          return OwnParent;
        }
        var chain := FolderChain(tree, parentId);
        WalkSees(tree, parentId, chain, id);
        if id in chain { return OwnDescendant; }
        if parentId.Some? && parentId.value !in tree { return NoSuchParent; }
      }
      tree := tree[id := parentId];
      reply := Ok;
    }
  }

  lemma SameParent(tree: Tree, id: Id)
    requires NoCycle(tree) && id in tree
    ensures !OnPath(tree, tree[id], id)
  {
    forall k: nat ensures Up(tree, tree[id], k) != Some(id) {
      UpFirst(tree, id, k);
    }
  }

  // Folders nested deeper than the walk

  /** Folders 0..n, each inside the one before. */
  function Ladder(n: nat): Tree {
    map i | i in Rungs(n) :: if i == 0 then None else Some(i - 1)
  }

  function Rungs(n: nat): (r: set<Id>)
    ensures forall i: Id :: i in r <==> i <= n
  {
    if n == 0 then {0} else Rungs(n - 1) + {n}
  }

  lemma {:induction false} LadderUp(n: nat, i: Id, k: nat)
    requires i <= n
    ensures Up(Ladder(n), Some(i), k) == if k <= i then Some(i - k) else None
    decreases k
  {
    if k > 0 {
      LadderUp(n, i, k - 1);
    }
  }

  /** Moving the top of 65 nested folders into the deepest passes the guard and makes a cycle. */
  lemma DeepMoveWitness(chain: seq<Id>)
    requires Walked(Ladder(64), Some(64), chain)
    ensures NoCycle(Ladder(64)) && Closed(Ladder(64))
    ensures 0 !in chain && !NoCycle(Ladder(64)[0 := Some(64)])
  {
    var tree := Ladder(64);
    forall id: Id, k: nat | k > 0 && id in tree ensures Up(tree, Some(id), k) != Some(id) {
      LadderUp(64, id, k);
    }
    forall k: nat | k < WALK_LIMIT ensures Up(tree, Some(64), k) != Some(0) {
      LadderUp(64, 64, k);
    }
    WalkSees(tree, Some(64), chain, 0);
    LadderUp(64, 64, 64);
    MoveKeepsIff(tree, 0, Some(64));
  }

  // Who may edit

  datatype Grant = Grant(access: string, principalType: string, principal: string, displayId: Option<Id>, folderId: Option<Id>)

  datatype Caller = Caller(name: string, role: string)

  datatype DisplayRef = DisplayRef(id: Id, ownerId: string, folderId: Option<Id>)

  predicate GrantsTo(g: Grant, caller: Caller) {
    && g.access == "edit"
    && ((g.principalType == "user" && g.principal == caller.name) || (g.principalType == "role" && g.principal == caller.role))
  }

  /** Admin, owner, or an edit grant on the display or on a folder it lies in, however deep. */
  ghost predicate MayEdit(tree: Tree, grants: set<Grant>, caller: Caller, display: DisplayRef) {
    || SameIgnoringCase(caller.role, "Admin")
    || SameIgnoringCase(display.ownerId, caller.name)
    || exists g :: g in grants && IsEditGrant(g, caller.name, caller.role) &&
                   (g.displayId == Some(display.id) || (g.folderId.Some? && OnPath(tree, display.folderId, g.folderId.value)))
  }

  ghost predicate SameIgnoringCase(a: string, b: string) {
    |a| == |b| && forall i :: 0 <= i < |a| ==> SameLetter(a[i], b[i])
  }

  /** A grant to edit, not just to read, for this user or for this role. */
  ghost predicate IsEditGrant(g: Grant, user: string, role: string) {
    && g.access == "edit"
    && (g.principalType == "user" ==> g.principal == user)
    && (g.principalType == "role" ==> g.principal == role)
    && g.principalType in {"user", "role"}
  }

  lemma GrantsToIff(g: Grant, caller: Caller)
    ensures GrantsTo(g, caller) <==> IsEditGrant(g, caller.name, caller.role)
  {
  }

  /**
   The edit decision; it is the intended one whenever the display's folder chain fits the walk.
   Nobody else than an admin or the owner edits without a grant to edit.
   */
  method CanEditDisplay(tree: Tree, grants: set<Grant>, caller: Caller, display: DisplayRef) returns (allowed: bool)
    ensures allowed ==> MayEdit(tree, grants, caller, display)
    ensures Fits(tree, display.folderId) ==> (allowed <==> MayEdit(tree, grants, caller, display))
    ensures (forall g :: g in grants ==> g.access != "edit") ==>
              (allowed <==> SameIgnoringCase(caller.role, "Admin") || SameIgnoringCase(display.ownerId, caller.name))
    ensures (exists g :: g in grants && IsEditGrant(g, caller.name, caller.role) && g.displayId == Some(display.id)) ==> allowed
  {
    IgnoreCaseIff(caller.role, "Admin");
    IgnoreCaseIff(display.ownerId, caller.name);
    forall g ensures GrantsTo(g, caller) <==> IsEditGrant(g, caller.name, caller.role) {
      GrantsToIff(g, caller);
    }
    hide EqualsIgnoreCase, GrantsTo, SameLetter;
    if EqualsIgnoreCase(caller.role, "Admin") { return true; }
    if EqualsIgnoreCase(display.ownerId, caller.name) { return true; }
    var folders := FolderChain(tree, display.folderId);
    forall id: Id ensures id in folders ==> OnPath(tree, display.folderId, id)
      ensures Fits(tree, display.folderId) ==> (id in folders <==> OnPath(tree, display.folderId, id))
    {
      WalkSees(tree, display.folderId, folders, id);
    }
    allowed := exists g :: g in grants && GrantsTo(g, caller) &&
                           (g.displayId == Some(display.id) || (g.folderId.Some? && g.folderId.value in folders));
  }
}
