/** Copying a display's items under fresh ids, keeping groups together. */
module ItemIds {
  import opened Text

  /** An item of a snapshot; whatever is not an object is kept as it is. */
  datatype Item = Object(id: Option<string>, groupId: Option<string>, rest: string) | Other(text: string)

  /** The two supplies of fresh names, for ids and for groups. */
  datatype Supply = Supply(ids: nat -> string, groups: nat -> string) {
    ghost predicate Fresh() {
      && (forall i, j :: i != j ==> ids(i) != ids(j))
      && (forall i, j :: i != j ==> groups(i) != groups(j))
    }
  }

  predicate Named(item: Item) {
    item.Object? && item.id.Some?
  }

  predicate Grouped(item: Item) {
    Named(item) && item.groupId.Some?
  }

  /** The copy renames nothing but the id and the group of named items. */
  ghost predicate Renamed(before: Item, after: Item) {
    if !Named(before) then after == before
    else Named(after) && after.rest == before.rest && after.groupId.Some? == before.groupId.Some?
  }

  /** Ids and groups of the copy are drawn from the supplies, distinct ids, and a group for a group. */
  ghost predicate Copied(supply: Supply, items: seq<Item>, copy: seq<Item>) {
    && |copy| == |items|
    && (forall i :: 0 <= i < |items| ==> Renamed(items[i], copy[i]))
    && (forall i :: 0 <= i < |items| && Named(items[i]) ==> exists k: nat :: copy[i].id == Some(supply.ids(k)))
    && (forall i :: 0 <= i < |items| && Grouped(items[i]) ==> exists k: nat :: copy[i].groupId == Some(supply.groups(k)))
    && (forall i, j :: 0 <= i < j < |items| && Named(items[i]) && Named(items[j]) ==> copy[i].id != copy[j].id)
    && (forall i, j :: 0 <= i < j < |items| && Grouped(items[i]) && Grouped(items[j]) ==>
          (copy[i].groupId == copy[j].groupId <==> items[i].groupId == items[j].groupId))
  }

  /** The groups renamed so far: each new name is one of the supply already drawn, and no two are the same. */
  ghost predicate GroupMapOk(supply: Supply, groupMap: map<string, string>, drawn: nat) {
    && (forall g :: g in groupMap ==> exists k: nat :: k < drawn && groupMap[g] == supply.groups(k))
    && (forall g, h :: g in groupMap && h in groupMap && g != h ==> groupMap[g] != groupMap[h])
  }

  ghost predicate PrefixCopied(supply: Supply, items: seq<Item>, copy: seq<Item>, n: nat, groupMap: map<string, string>, drawn: nat)
    requires n <= |items| == |copy|
  {
    && (forall i :: n <= i < |items| ==> copy[i] == items[i])
    && (forall i :: 0 <= i < n ==> Renamed(items[i], copy[i]))
    && (forall i :: 0 <= i < n && Named(items[i]) ==> exists k: nat :: k < drawn && copy[i].id == Some(supply.ids(k)))
    && (forall i, j :: 0 <= i < j < n && Named(items[i]) && Named(items[j]) ==> copy[i].id != copy[j].id)
    && (forall i :: 0 <= i < n && Grouped(items[i]) ==>
          items[i].groupId.value in groupMap && copy[i].groupId == Some(groupMap[items[i].groupId.value]))
  }

  /** Deep-copies the items in place: a fresh id each, and one fresh group per group. */
  method RegenerateItemIds(items: array<Item>, supply: Supply)
    requires supply.Fresh()
    modifies items
    ensures Copied(supply, old(items[..]), items[..])
  {
    ghost var before := items[..];
    var groupMap: map<string, string> := map[];
    var drawnIds, drawnGroups := 0, 0;
    for n := 0 to items.Length
      invariant |before| == items.Length && drawnIds <= n
      invariant PrefixCopied(supply, before, items[..], n, groupMap, drawnIds)
      invariant GroupMapOk(supply, groupMap, drawnGroups)
    {
      ghost var now := items[..];
      var item := items[n];
      if item.Object? && item.id.Some? {
        var newId := supply.ids(drawnIds);
        var groupId := item.groupId;
        ghost var oldMap := groupMap;
        if item.groupId.Some? {
          var g := item.groupId.value;
          if g !in groupMap {
            DrawGroup(supply, groupMap, drawnGroups, g);
            groupMap := groupMap[g := supply.groups(drawnGroups)];
            drawnGroups := drawnGroups + 1;
          }
          groupId := Some(groupMap[g]);
        }
        RenameOne(supply, before, now, n, oldMap, groupMap, drawnIds, groupId);
        items[n] := Object(Some(newId), groupId, item.rest);
        assert items[..] == now[n := Object(Some(newId), groupId, item.rest)];
        drawnIds := drawnIds + 1;
      } else {
        assert Renamed(before[n], now[n]);
      }
    }
    AllCopied(supply, before, items[..], groupMap, drawnIds, drawnGroups);
  }

  lemma DrawGroup(supply: Supply, groupMap: map<string, string>, drawn: nat, g: string)
    requires supply.Fresh() && GroupMapOk(supply, groupMap, drawn) && g !in groupMap
    ensures GroupMapOk(supply, groupMap[g := supply.groups(drawn)], drawn + 1)
  {
    var next := groupMap[g := supply.groups(drawn)];
    forall h | h in groupMap ensures groupMap[h] != supply.groups(drawn) {
      var k: nat :| k < drawn && groupMap[h] == supply.groups(k);
    }
    forall h | h in next ensures exists k: nat :: k < drawn + 1 && next[h] == supply.groups(k) {
      if h in groupMap && h != g {
        var k: nat :| k < drawn && groupMap[h] == supply.groups(k);
      }
    }
  }

  lemma RenameOne(supply: Supply, before: seq<Item>, now: seq<Item>, n: nat, oldMap: map<string, string>,
                  groupMap: map<string, string>, drawn: nat, groupId: Option<string>)
    requires supply.Fresh() && n < |before| == |now| && PrefixCopied(supply, before, now, n, oldMap, drawn)
    requires Named(before[n])
    requires forall g :: g in oldMap ==> g in groupMap && groupMap[g] == oldMap[g]
    requires if before[n].groupId.Some? then before[n].groupId.value in groupMap && groupId == Some(groupMap[before[n].groupId.value])
             else groupId.None?
    ensures PrefixCopied(supply, before, now[n := Object(Some(supply.ids(drawn)), groupId, now[n].rest)], n + 1, groupMap, drawn + 1)
  {
    var next := now[n := Object(Some(supply.ids(drawn)), groupId, now[n].rest)];
    forall i | 0 <= i < n && Named(before[i])
      ensures next[i].id != next[n].id && exists k: nat :: k < drawn + 1 && next[i].id == Some(supply.ids(k))
    {
      var k: nat :| k < drawn && now[i].id == Some(supply.ids(k));
    }
  }

  lemma AllCopied(supply: Supply, items: seq<Item>, copy: seq<Item>, groupMap: map<string, string>, ids: nat, groups: nat)
    requires |items| == |copy| && PrefixCopied(supply, items, copy, |items|, groupMap, ids) && GroupMapOk(supply, groupMap, groups)
    ensures Copied(supply, items, copy)
  {
    forall i | 0 <= i < |items| && Named(items[i]) ensures exists k: nat :: copy[i].id == Some(supply.ids(k)) {
      var k: nat :| k < ids && copy[i].id == Some(supply.ids(k));
    }
    forall i | 0 <= i < |items| && Grouped(items[i]) ensures exists k: nat :: copy[i].groupId == Some(supply.groups(k)) {
      var k: nat :| k < groups && groupMap[items[i].groupId.value] == supply.groups(k);
    }
  }

  /** A supply that avoids the names of the original gives a copy that shares no id and no group with it. */
  lemma CopyNeverAliases(supply: Supply, items: seq<Item>, copy: seq<Item>, i: nat, j: nat)
    requires Copied(supply, items, copy) && i < |items| && j < |items| && Named(items[i]) && items[j].Object?
    requires forall k: nat :: items[j].id != Some(supply.ids(k)) && items[j].groupId != Some(supply.groups(k))
    ensures Named(copy[i]) && copy[i].id != items[j].id
    ensures items[i].groupId.Some? ==> copy[i].groupId.Some? && copy[i].groupId != items[j].groupId
  {
    assert Renamed(items[i], copy[i]);
  }

  /** After a copy no named item shares its id with another, whatever ids the original used. */
  lemma CopyHasDistinctIds(supply: Supply, items: seq<Item>, copy: seq<Item>, i: nat, j: nat)
    requires Copied(supply, items, copy) && i < |items| && j < |items| && Named(copy[i]) && Named(copy[j]) && copy[i].id == copy[j].id
    ensures i == j
  {
    assert Renamed(items[i], copy[i]) && Renamed(items[j], copy[j]);
  }
}
