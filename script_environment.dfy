/**
 * The bookkeeping of a Lua script environment (src/lua/scripts/script_environment.cpp): the uid
 * table of items handed to scripts, the table of database results, the nested-callback guard, and
 * the temporary items registered per environment.
 *
 * What the environment asks of the game world and of the things themselves (whether a thing is
 * removed, an item's UNIQUEID attribute, `g_game()` lookups, an item's parent) is a `World` value
 * passed to the operations that consult it.
 */
module Scripts {
  import opened Common

  /** `ScriptEnvironment*`, `LuaScriptInterface*` and `DBResult_ptr` as opaque handles. */
  type EnvRef = nat
  type InterfaceRef = nat
  type DbResult = nat

  /** A `Thing*` that is a creature (named by its id) or an item. */
  datatype Thing = CreatureThing(creatureId: U32) | ItemThing(item: ItemRef)

  datatype World = World(
    removedItems: set<ItemRef>,          // items whose isRemoved() holds
    removedCreatures: set<U32>,          // creatures whose isRemoved() holds
    uniqueIdAttr: map<ItemRef, U32>,     // items carrying the UNIQUEID attribute, with its value
    uniqueItems: map<U16, ItemRef>,      // g_game().getUniqueItem
    creatures: set<U32>,                 // ids g_game().getCreatureByID finds
    virtualItems: set<ItemRef>,          // items whose parent is the virtual cylinder
    containers: set<ItemRef>)            // items whose getContainer() is not null

  predicate IsRemoved(w: World, t: Thing)
  {
    match t
    case CreatureThing(id) => id in w.removedCreatures
    case ItemThing(i) => i in w.removedItems
  }

  /** Uids from here up name creatures; uids up to `MaxU16` name unique items; those between are local. */
  const CreatureUidStart: int := 0x1000_0000

  /** The value `lastUID` is declared with: local uids start just above the unique-item range. */
  const InitialLastUid: U32 := 0xFFFF

  predicate IsLocalUid(uid: U32)
  {
    MaxU16 < uid < CreatureUidStart
  }

  /** One entry of the multimap `tempItems`, keyed by the environment that registered the item. */
  datatype TempEntry = TempEntry(env: EnvRef, item: ItemRef)

  /** A multimap iterates by key, and entries with equal keys in the order they were inserted. */
  predicate SortedByEnv(s: seq<TempEntry>)
  {
    forall i, j | 0 <= i < j < |s| :: s[i].env <= s[j].env
  }

  /** The items registered under `env`, in iteration order. */
  function ItemsOf(s: seq<TempEntry>, env: EnvRef): seq<ItemRef>
    decreases |s|
  {
    if s == [] then []
    else ItemsOf(s[..|s| - 1], env) + (if s[|s| - 1].env == env then [s[|s| - 1].item] else [])
  }

  /** The entries registered under any other environment than `env`, in iteration order. */
  function Without(s: seq<TempEntry>, env: EnvRef): (r: seq<TempEntry>)
    ensures |r| <= |s|
    ensures forall i | 0 <= i < |r| :: r[i].env != env
    decreases |s|
  {
    if s == [] then []
    else Without(s[..|s| - 1], env) + (if s[|s| - 1].env == env then [] else [s[|s| - 1]])
  }

  lemma ItemsOfSnoc(s: seq<TempEntry>, x: TempEntry, env: EnvRef)
    ensures ItemsOf(s + [x], env) == ItemsOf(s, env) + (if x.env == env then [x.item] else [])
  {
    assert (s + [x])[..|s|] == s;
  }

  lemma WithoutSnoc(s: seq<TempEntry>, x: TempEntry, env: EnvRef)
    ensures Without(s + [x], env) == Without(s, env) + (if x.env == env then [] else [x])
  {
    assert (s + [x])[..|s|] == s;
  }

  /** `Without` keeps exactly the entries of the other environments. */
  lemma {:induction false} WithoutMembers(s: seq<TempEntry>, env: EnvRef)
    ensures forall e :: e in Without(s, env) <==> e in s && e.env != env
    decreases |s|
  {
    if s != [] {
      var init := s[..|s| - 1];
      var last := s[|s| - 1];
      assert s == init + [last];
      WithoutMembers(init, env);
      WithoutSnoc(init, last, env);
    }
  }

  /** Dropping one environment's entries keeps the multimap ordered and leaves none of that environment. */
  lemma {:induction false} WithoutSorted(s: seq<TempEntry>, env: EnvRef)
    requires SortedByEnv(s)
    ensures SortedByEnv(Without(s, env))
    ensures ItemsOf(Without(s, env), env) == []
    decreases |s|
  {
    if s != [] {
      var init := s[..|s| - 1];
      var last := s[|s| - 1];
      assert s == init + [last];
      assert SortedByEnv(init) by {
        forall i, j | 0 <= i < j < |init| ensures init[i].env <= init[j].env {
          assert init[i] == s[i] && init[j] == s[j];
        }
      }
      WithoutSorted(init, env);
      WithoutSnoc(init, last, env);
      var w := Without(init, env);
      if last.env != env {
        ItemsOfSnoc(w, last, env);
        WithoutMembers(init, env);
        forall i | 0 <= i < |w| ensures w[i].env <= last.env {
          assert w[i] in init;
        }
        SortedSnoc(w, last);
      } else {
        assert w + [] == w;
      }
    }
  }

  /** `Without` leaves the items of every other environment as they were. */
  lemma {:induction false} WithoutKeepsOthers(s: seq<TempEntry>, env: EnvRef, other: EnvRef)
    requires other != env
    ensures ItemsOf(Without(s, env), other) == ItemsOf(s, other)
    decreases |s|
  {
    if s != [] {
      var init := s[..|s| - 1];
      var last := s[|s| - 1];
      assert s == init + [last];
      WithoutKeepsOthers(init, env, other);
      WithoutSnoc(init, last, env);
      ItemsOfSnoc(init, last, other);
      if last.env != env {
        ItemsOfSnoc(Without(init, env), last, other);
      } else {
        assert Without(init, env) + [] == Without(init, env);
      }
    }
  }

  /**
   * `tempItems.emplace(env, item)`: the entry goes after every entry whose key is not greater,
   * that is, last among the entries of its own environment.
   */
  function Emplace(s: seq<TempEntry>, e: TempEntry): (r: seq<TempEntry>)
    ensures |r| == |s| + 1
    decreases |s|
  {
    if s == [] || s[|s| - 1].env <= e.env then s + [e]
    else Emplace(s[..|s| - 1], e) + [s[|s| - 1]]
  }

  /** Appending an entry whose key is not below any key keeps the multimap ordered. */
  lemma SortedSnoc(s: seq<TempEntry>, x: TempEntry)
    requires SortedByEnv(s)
    requires forall i | 0 <= i < |s| :: s[i].env <= x.env
    ensures SortedByEnv(s + [x])
  {
    var r := s + [x];
    forall i, j | 0 <= i < j < |r| ensures r[i].env <= r[j].env {
      if j < |s| {
        assert r[i] == s[i] && r[j] == s[j];
      } else {
        assert r[i] == s[i] && r[j] == x;
      }
    }
  }

  /** `emplace` adds exactly the one entry. */
  lemma {:induction false} EmplaceMultiset(s: seq<TempEntry>, e: TempEntry)
    ensures multiset(Emplace(s, e)) == multiset(s) + multiset{e}
    decreases |s|
  {
    if !(s == [] || s[|s| - 1].env <= e.env) {
      var init := s[..|s| - 1];
      assert s == init + [s[|s| - 1]];
      EmplaceMultiset(init, e);
    }
  }

  /** `emplace` keeps the multimap ordered by key. */
  lemma {:induction false} EmplaceSorted(s: seq<TempEntry>, e: TempEntry)
    requires SortedByEnv(s)
    ensures SortedByEnv(Emplace(s, e))
    decreases |s|
  {
    if s == [] || s[|s| - 1].env <= e.env {
      forall i | 0 <= i < |s| ensures s[i].env <= e.env {
        assert s[i].env <= s[|s| - 1].env;
      }
      SortedSnoc(s, e);
    } else {
      var init := s[..|s| - 1];
      var last := s[|s| - 1];
      assert SortedByEnv(init) by {
        forall i, j | 0 <= i < j < |init| ensures init[i].env <= init[j].env {
          assert init[i] == s[i] && init[j] == s[j];
        }
      }
      EmplaceSorted(init, e);
      EmplaceMultiset(init, e);
      var r0 := Emplace(init, e);
      forall i | 0 <= i < |r0| ensures r0[i].env <= last.env {
        assert r0[i] in multiset(r0);
        if r0[i] != e {
          assert r0[i] in multiset(init);
          var k :| 0 <= k < |init| && init[k] == r0[i];
          assert s[k] == init[k];
        }
      }
      SortedSnoc(r0, last);
    }
  }

  /** An emplaced item is the last item of its environment, and no other environment's items move. */
  lemma {:induction false} EmplaceItems(s: seq<TempEntry>, e: TempEntry, env: EnvRef)
    ensures ItemsOf(Emplace(s, e), env) == ItemsOf(s, env) + (if env == e.env then [e.item] else [])
    decreases |s|
  {
    if s == [] || s[|s| - 1].env <= e.env {
      ItemsOfSnoc(s, e, env);
    } else {
      var init := s[..|s| - 1];
      var last := s[|s| - 1];
      assert s == init + [last];
      EmplaceItems(init, e, env);
      ItemsOfSnoc(Emplace(init, e), last, env);
      ItemsOfSnoc(init, last, env);
      if env == e.env {
        assert last.env != env;
        assert ItemsOf(s, env) == ItemsOf(init, env) + [];
      } else {
        var x := if last.env == env then [last.item] else [];
        assert ItemsOf(Emplace(s, e), env) == ItemsOf(init, env) + [] + x;
      }
    }
  }

  /** The items of `items` that sit in the virtual cylinder, in order: those `resetEnv` releases. */
  function InVirtualCylinder(items: seq<ItemRef>, w: World): (r: seq<ItemRef>)
    ensures forall i | i in r :: i in items && i in w.virtualItems
    ensures forall i | i in items && i in w.virtualItems :: i in r
    decreases |items|
  {
    if items == [] then []
    else InVirtualCylinder(items[..|items| - 1], w) + (if items[|items| - 1] in w.virtualItems then [items[|items| - 1]] else [])
  }

  lemma InVirtualCylinderSnoc(items: seq<ItemRef>, x: ItemRef, w: World)
    ensures InVirtualCylinder(items + [x], w) == InVirtualCylinder(items, w) + (if x in w.virtualItems then [x] else [])
  {
    assert (items + [x])[..|items|] == items;
  }

  /**
   * The loop of `resetEnv` over `tempItems`: the entries of every other environment, and the items
   * of `env` that sit in the virtual cylinder and are released.
   */
  method SplitOffEnv(s: seq<TempEntry>, env: EnvRef, w: World) returns (kept: seq<TempEntry>, ghost released: seq<ItemRef>)
    ensures kept == Without(s, env)
    ensures released == InVirtualCylinder(ItemsOf(s, env), w)
  {
    kept := [];
    released := [];
    var i := 0;
    while i < |s|
      invariant 0 <= i <= |s|
      invariant kept == Without(s[..i], env)
      invariant released == InVirtualCylinder(ItemsOf(s[..i], env), w)
    {
      var e := s[i];
      assert s[..i + 1] == s[..i] + [e];
      WithoutSnoc(s[..i], e, env);
      ItemsOfSnoc(s[..i], e, env);
      if e.env == env {
        InVirtualCylinderSnoc(ItemsOf(s[..i], env), e.item, w);
        if e.item in w.virtualItems {
          released := released + [e.item];
        }
      } else {
        assert ItemsOf(s[..i], env) + [] == ItemsOf(s[..i], env);
        kept := kept + [e];
      }
      i := i + 1;
    }
    assert s[..|s|] == s;
  }

  /** The position of the first entry holding `item`, the entry `removeTempItem` erases. */
  method FirstEntryOf(s: seq<TempEntry>, item: ItemRef) returns (r: Option<nat>)
    ensures r.None? ==> forall k | 0 <= k < |s| :: s[k].item != item
    ensures r.Some? ==> r.value < |s| && s[r.value].item == item
    ensures r.Some? ==> forall k | 0 <= k < r.value :: s[k].item != item
  {
    var i := 0;
    while i < |s|
      invariant 0 <= i <= |s|
      invariant forall k | 0 <= k < i :: s[k].item != item
    {
      if s[i].item == item {
        return Some(i);
      }
      i := i + 1;
    }
    return None;
  }

  /** The multimap `tempItems`, one object that every environment registers its temporary items in. */
  class TempItemTable {
    var entries: seq<TempEntry>

    ghost predicate Valid()
      reads this
    {
      SortedByEnv(entries)
    }

    constructor ()
      ensures Valid() && entries == []
    {
      entries := [];
    }
  }

  class ScriptEnvironment {
    /** The environment's own address, its key in `tempItems`. */
    const self: EnvRef
    const tempItems: TempItemTable
    var scriptId: I32
    var callbackId: I32
    var timerEvent: bool
    var scriptInterface: Option<InterfaceRef>
    var localMap: map<U32, ItemRef>
    var lastUID: U32
    var tempResults: map<U32, DbResult>
    var lastResultId: U32

    ghost predicate Valid()
      reads this, tempItems
    {
      tempItems.Valid()
    }

    /** The constructor resets the environment; the counters start at their declared values. */
    constructor (self: EnvRef, table: TempItemTable, w: World)
      requires table.Valid()
      modifies table
      ensures Valid() && this.self == self && tempItems == table
      ensures scriptId == 0 && callbackId == 0 && !timerEvent && scriptInterface == None
      ensures localMap == map[] && tempResults == map[]
      ensures lastUID == InitialLastUid && lastResultId == 0
      ensures table.entries == Without(old(table.entries), self)
    {
      this.self := self;
      tempItems := table;
      lastUID := InitialLastUid;
      lastResultId := 0;
      new;
      var _ := ResetEnv(w);
    }

    /**
     * `resetEnv`: clear the script context and both tables, and erase every temporary item this
     * environment registered, releasing those still in the virtual cylinder.
     */
    method ResetEnv(w: World) returns (ghost released: seq<ItemRef>)
      requires Valid()
      modifies this, tempItems
      ensures Valid()
      ensures scriptId == 0 && callbackId == 0 && !timerEvent && scriptInterface == None
      ensures localMap == map[] && tempResults == map[]
      ensures lastUID == old(lastUID) && lastResultId == old(lastResultId)
      ensures tempItems.entries == Without(old(tempItems.entries), self)
      ensures ItemsOf(tempItems.entries, self) == []
      ensures forall other | other != self :: ItemsOf(tempItems.entries, other) == ItemsOf(old(tempItems.entries), other)
      ensures released == InVirtualCylinder(ItemsOf(old(tempItems.entries), self), w)
    {
      scriptId := 0;
      callbackId := 0;
      timerEvent := false;
      scriptInterface := None;
      localMap := map[];
      tempResults := map[];

      var kept;
      kept, released := SplitOffEnv(tempItems.entries, self, w);
      WithoutSorted(old(tempItems.entries), self);
      forall other | other != self
        ensures ItemsOf(kept, other) == ItemsOf(old(tempItems.entries), other)
      {
        WithoutKeepsOthers(old(tempItems.entries), self, other);
      }
      tempItems.entries := kept;
    }

    /** `setCallbackId`: refuse a nested callback; otherwise record the callback and its interface. */
    method SetCallbackId(newCallbackId: I32, si: Option<InterfaceRef>) returns (ok: bool)
      modifies this`callbackId, this`scriptInterface
      ensures ok <==> old(callbackId) == 0
      ensures ok ==> callbackId == newCallbackId && scriptInterface == si
      ensures !ok ==> callbackId == old(callbackId) && scriptInterface == old(scriptInterface)
    {
      if callbackId != 0 {
        return false;
      }
      callbackId := newCallbackId;
      scriptInterface := si;
      return true;
    }

    /** The search loop of `addThing`: a uid under which `item` is already stored, if there is one. */
    method FindLocalUid(item: ItemRef) returns (r: Option<U32>)
      ensures r.Some? ==> r.value in localMap && localMap[r.value] == item
      ensures r.None? ==> item !in localMap.Values
    {
      var keys := localMap.Keys;
      while keys != {}
        invariant keys <= localMap.Keys
        invariant forall k | k in localMap && k !in keys :: localMap[k] != item
        decreases keys
      {
        var k :| k in keys;
        if localMap[k] == item {
          return Some(k);
        }
        keys := keys - {k};
      }
      return None;
    }

    /**
     * `addThing`: the uid a script uses for `thing`. Null and removed things get 0, creatures their
     * id, items with a UNIQUEID attribute that value; any other item keeps the uid it already has in
     * `localMap`, or is stored there under `++lastUID`.
     */
    method AddThing(thing: Option<Thing>, w: World) returns (uid: U32)
      modifies this`localMap, this`lastUID
      ensures thing.None? || IsRemoved(w, thing.value) ==>
        uid == 0 && localMap == old(localMap) && lastUID == old(lastUID)
      ensures thing.Some? && !IsRemoved(w, thing.value) && thing.value.CreatureThing? ==>
        uid == thing.value.creatureId && localMap == old(localMap) && lastUID == old(lastUID)
      ensures thing.Some? && !IsRemoved(w, thing.value) && thing.value.ItemThing? && thing.value.item in w.uniqueIdAttr ==>
        uid == w.uniqueIdAttr[thing.value.item] && localMap == old(localMap) && lastUID == old(lastUID)
      ensures thing.Some? && !IsRemoved(w, thing.value) && thing.value.ItemThing? && thing.value.item !in w.uniqueIdAttr ==>
        && uid in localMap && localMap[uid] == thing.value.item
        && (thing.value.item in old(localMap).Values ==>
              uid in old(localMap) && localMap == old(localMap) && lastUID == old(lastUID))
        && (thing.value.item !in old(localMap).Values ==>
              uid == Inc32(old(lastUID)) && lastUID == uid && localMap == old(localMap)[uid := thing.value.item])
        && (IsLocalUid(uid) ==> GetThingByUID(uid, w) == thing)
    {
      if thing.None? || IsRemoved(w, thing.value) {
        return 0;
      }
      match thing.value
      case CreatureThing(id) =>
        return id;
      case ItemThing(item) =>
        if item in w.uniqueIdAttr {
          return w.uniqueIdAttr[item];
        }
        var found := FindLocalUid(item);
        if found.Some? {
          return found.value;
        }
        lastUID := Inc32(lastUID);
        localMap := localMap[lastUID := item];
        return lastUID;
    }

    /** `insertItem`: store `item` under `uid` unless that uid is already taken. */
    method InsertItem(uid: U32, item: ItemRef)
      modifies this`localMap
      ensures uid in old(localMap) ==> localMap == old(localMap)
      ensures uid !in old(localMap) ==> localMap == old(localMap)[uid := item]
      ensures uid in localMap && (uid !in old(localMap) ==> localMap[uid] == item)
    {
      if uid !in localMap {
        localMap := localMap[uid := item];
      }
    }

    /**
     * `getThingByUID`: creature ids go to the creature lookup, uids up to 0xFFFF to the unique-item
     * lookup, and the rest to `localMap`; a removed item is never returned.
     */
    function GetThingByUID(uid: U32, w: World): (r: Option<Thing>)
      reads this
      ensures uid >= CreatureUidStart ==> r == (if uid in w.creatures then Some(CreatureThing(uid)) else None)
      ensures uid <= MaxU16 ==> (r.Some? <==> uid in w.uniqueItems && w.uniqueItems[uid] !in w.removedItems)
      ensures IsLocalUid(uid) ==> (r.Some? <==> uid in localMap && localMap[uid] !in w.removedItems)
      ensures r.Some? && r.value.ItemThing? ==> r.value.item !in w.removedItems
      ensures r.Some? && r.value.ItemThing? && uid <= MaxU16 ==> r.value.item == w.uniqueItems[uid]
      ensures r.Some? && r.value.ItemThing? && uid > MaxU16 ==> uid in localMap && r.value.item == localMap[uid]
    {
      if uid >= CreatureUidStart then
        if uid in w.creatures then Some(CreatureThing(uid)) else None
      else if uid <= MaxU16 then
        if uid in w.uniqueItems && w.uniqueItems[uid] !in w.removedItems then Some(ItemThing(w.uniqueItems[uid])) else None
      else if uid in localMap && localMap[uid] !in w.removedItems then Some(ItemThing(localMap[uid]))
      else None
    }

    /** `getItemByUID`: the thing with that uid if it is an item. */
    function GetItemByUID(uid: U32, w: World): (r: Option<ItemRef>)
      reads this
      ensures r.Some? <==> GetThingByUID(uid, w).Some? && GetThingByUID(uid, w).value.ItemThing?
      ensures r.Some? ==> GetThingByUID(uid, w) == Some(ItemThing(r.value))
    {
      match GetThingByUID(uid, w)
      case Some(ItemThing(i)) => Some(i)
      case _ => None
    }

    /** `getContainerByUID`: the item with that uid if it is a container. */
    function GetContainerByUID(uid: U32, w: World): (r: Option<ItemRef>)
      reads this
      ensures r.Some? <==> GetItemByUID(uid, w).Some? && GetItemByUID(uid, w).value in w.containers
      ensures r.Some? ==> r == GetItemByUID(uid, w)
    {
      var i := GetItemByUID(uid, w);
      if i.Some? && i.value in w.containers then i else None
    }

    /**
     * `removeItemByUID`: a uid up to 0xFFFF is forwarded to the game's unique-item table (the
     * result says so); any other uid is erased from `localMap` and no other key is touched.
     */
    method RemoveItemByUID(uid: U32) returns (forwardedToGame: bool)
      modifies this`localMap
      ensures forwardedToGame <==> uid <= MaxU16
      ensures forwardedToGame ==> localMap == old(localMap)
      ensures !forwardedToGame ==> localMap == old(localMap) - {uid}
    {
      if uid <= MaxU16 {
        return true;
      }
      if uid in localMap {
        localMap := localMap - {uid};
      }
      return false;
    }

    /** `addTempItem`: register `item` under this environment. */
    method AddTempItem(item: ItemRef)
      requires Valid()
      modifies tempItems
      ensures Valid()
      ensures tempItems.entries == Emplace(old(tempItems.entries), TempEntry(self, item))
      ensures ItemsOf(tempItems.entries, self) == ItemsOf(old(tempItems.entries), self) + [item]
    {
      EmplaceItems(tempItems.entries, TempEntry(self, item), self);
      EmplaceSorted(tempItems.entries, TempEntry(self, item));
      tempItems.entries := Emplace(tempItems.entries, TempEntry(self, item));
    }

    /**
     * `removeTempItem`: erase the first entry, in iteration order and under whichever environment,
     * that holds `item`; at most one entry goes.
     */
    method RemoveTempItem(item: ItemRef) returns (erased: Option<nat>)
      requires Valid()
      modifies tempItems
      ensures Valid()
      ensures erased.None? ==>
        tempItems.entries == old(tempItems.entries)
        && forall k | 0 <= k < |old(tempItems.entries)| :: old(tempItems.entries)[k].item != item
      ensures erased.Some? ==>
        && erased.value < |old(tempItems.entries)|
        && old(tempItems.entries)[erased.value].item == item
        && (forall k | 0 <= k < erased.value :: old(tempItems.entries)[k].item != item)
        && tempItems.entries == old(tempItems.entries)[..erased.value] + old(tempItems.entries)[erased.value + 1..]
    {
      var s := tempItems.entries;
      erased := FirstEntryOf(s, item);
      if erased.Some? {
        var i := erased.value;
        tempItems.entries := s[..i] + s[i + 1..];
      }
    }

    /** `addResult`: store `res` under `++lastResultId` and return that id. */
    method AddResult(res: DbResult) returns (id: U32)
      modifies this`tempResults, this`lastResultId
      ensures id == Inc32(old(lastResultId)) && lastResultId == id
      ensures tempResults == old(tempResults)[id := res]
      ensures GetResultByID(id) == Some(res)
      ensures (forall k | k in old(tempResults) :: k <= old(lastResultId)) && old(lastResultId) < MaxU32 ==>
        id !in old(tempResults) && forall k | k in tempResults :: k <= lastResultId
    {
      lastResultId := Inc32(lastResultId);
      tempResults := tempResults[lastResultId := res];
      id := lastResultId;
    }

    /** `removeResult`: erase the result with that id; true iff there was one. */
    method RemoveResult(id: U32) returns (ok: bool)
      modifies this`tempResults
      ensures ok <==> id in old(tempResults)
      ensures tempResults == old(tempResults) - {id}
      ensures GetResultByID(id) == None
    {
      if id !in tempResults {
        return false;
      }
      tempResults := tempResults - {id};
      return true;
    }

    /** `getResultByID`: the result stored under `id`, or null. */
    function GetResultByID(id: U32): (r: Option<DbResult>)
      reads this
      ensures r.Some? <==> id in tempResults
      ensures r.Some? ==> r.value == tempResults[id]
    {
      if id in tempResults then Some(tempResults[id]) else None
    }
  }

  /** Handing the same item to `addThing` twice yields one uid and stores it once. */
  method AddThingTwice(env: ScriptEnvironment, item: ItemRef, w: World)
    requires item !in w.removedItems && item !in w.uniqueIdAttr && item !in env.localMap.Values
    modifies env
  {
    var a := env.AddThing(Some(ItemThing(item)), w);
    var m := env.localMap;
    var b := env.AddThing(Some(ItemThing(item)), w);
    assert item in m.Values;
    assert env.localMap == m;
    assert forall k | k in m && m[k] == item :: k == a;
    assert a == b;
  }

  /** A second callback is refused while the first one's id is still set. */
  method NestedCallback(env: ScriptEnvironment, first: I32, second: I32, si: Option<InterfaceRef>)
    requires env.callbackId == 0 && first != 0
    modifies env
  {
    var ok := env.SetCallbackId(first, si);
    assert ok;
    ok := env.SetCallbackId(second, None);
    assert !ok && env.callbackId == first;
  }
}
