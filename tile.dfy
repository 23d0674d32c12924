/**
 * The item stack, flag word and lazily created lists of a map tile (src/items/tile.h).
 *
 * A `TileItemVector` is one vector of items whose first `downItemCount` entries are the "down"
 * items and the rest the "top" items. The header never checks that `downItemCount` stays within
 * the vector; `Valid()` states that requirement and the accessors that dereference need it.
 */
module Tiles {
  import opened Common

  class TileItemVector {
    var items: seq<ItemRef>
    var downItemCount: U32

    /** The down items fit in the vector, and the vector's size fits the `uint32_t` counts. */
    ghost predicate Valid()
      reads this
    {
      downItemCount <= |items| < U32Limit
    }

    constructor ()
      ensures Valid() && items == [] && downItemCount == 0
    {
      items := [];
      downItemCount := 0;
    }

    /** The range from `getBeginDownItem()` to `getEndDownItem()`. */
    function DownItems(): (r: seq<ItemRef>)
      reads this
      requires Valid()
      ensures |r| == DownItemCount()
      ensures forall i | 0 <= i < |r| :: r[i] == items[i]
    {
      items[..downItemCount]
    }

    /** The range from `getBeginTopItem()` (which is `getEndDownItem()`) to `getEndTopItem()`. */
    function TopItems(): (r: seq<ItemRef>)
      reads this
      requires Valid()
      ensures |r| == TopItemCount()
      ensures DownItems() + r == items
    {
      items[downItemCount..]
    }

    /** `getDownItemCount`: together with the top items it accounts for the whole vector. */
    function DownItemCount(): (r: U32)
      reads this
      ensures Valid() ==> r + TopItemCount() == |items|
    {
      downItemCount
    }

    /**
     * `size() - downItemCount` computed in `size_t` and narrowed to `uint32_t`: the number of top
     * items while `Valid()` holds, and a wrapped-around value when `downItemCount` exceeds the size.
     */
    function TopItemCount(): (r: U32)
      reads this
      ensures downItemCount <= |items| < U32Limit ==> r == |items| - downItemCount
      ensures |items| < downItemCount ==> r == U32Limit - (downItemCount - |items|)
    {
      (|items| - downItemCount) % U32Limit
    }

    /** `getTopTopItem`: null when there are no top items, otherwise the last item of the vector. */
    function TopTopItem(): (r: Option<ItemRef>)
      reads this
      requires Valid()
      ensures r.None? <==> TopItems() == []
      ensures r.Some? ==> |items| > 0 && r.value == items[|items| - 1] && r.value == TopItems()[|TopItems()| - 1]
    {
      if TopItemCount() == 0 then None else Some(items[|items| - 1])
    }

    /** `getTopDownItem`: null when there are no down items, otherwise the first item of the vector. */
    function TopDownItem(): (r: Option<ItemRef>)
      reads this
      requires Valid()
      ensures r.None? <==> DownItems() == []
      ensures r.Some? ==> r.value == items[0] && r.value == DownItems()[0]
    {
      if downItemCount == 0 then None else Some(items[0])
    }

    /** `increaseDownItemCount`: one more down item, in `uint32_t` arithmetic; the items are untouched. */
    method IncreaseDownItemCount()
      modifies this`downItemCount
      ensures downItemCount == Inc32(old(downItemCount))
      ensures old(downItemCount) < MaxU32 ==> downItemCount == old(downItemCount) + 1
      ensures old(Valid()) && old(downItemCount) < |items| ==> Valid()
    {
      downItemCount := Inc32(downItemCount);
    }

    /**
     * `decreaseDownItemCount`: one fewer down item in `uint32_t` arithmetic, so 0 wraps to the
     * largest value; the items are untouched. Callers erase the item first, so the count may exceed
     * the size by one on entry.
     */
    method DecreaseDownItemCount()
      modifies this`downItemCount
      ensures old(downItemCount) > 0 ==> downItemCount == old(downItemCount) - 1
      ensures old(downItemCount) == 0 ==> downItemCount == MaxU32
      ensures 0 < old(downItemCount) <= |items| + 1 && |items| < U32Limit ==> Valid()
    {
      downItemCount := (downItemCount - 1) % U32Limit;
    }

    /** `insert` of the underlying vector, at position `index`. */
    method Insert(index: nat, item: ItemRef)
      requires index <= |items|
      modifies this`items
      ensures items == old(items[..index]) + [item] + old(items[index..])
    {
      items := items[..index] + [item] + items[index..];
    }

    /** `erase` of the underlying vector, at position `index`. */
    method Erase(index: nat)
      requires index < |items|
      modifies this`items
      ensures items == old(items[..index]) + old(items[index + 1..])
    {
      items := items[..index] + items[index + 1..];
    }

    /** `push_back` of the underlying vector: the item becomes the last top item. */
    method PushBack(item: ItemRef)
      modifies this`items
      ensures items == old(items) + [item]
      ensures old(Valid()) && |items| < U32Limit ==> Valid() && DownItems() == old(DownItems()) && TopItems() == old(TopItems()) + [item]
    {
      items := items + [item];
    }
  }

  /** Adding a down item the way tiles do it: insert at the front, then count it. */
  method AddDownItem(v: TileItemVector, item: ItemRef)
    requires v.Valid() && |v.items| + 1 < U32Limit
    modifies v
    ensures v.Valid()
    ensures v.DownItems() == [item] + old(v.DownItems()) && v.TopItems() == old(v.TopItems())
    ensures v.TopDownItem() == Some(item)
  {
    v.Insert(0, item);
    v.IncreaseDownItemCount();
  }

  /** Removing the down item at `index`: erase it, then uncount it. */
  method RemoveDownItem(v: TileItemVector, index: nat)
    requires v.Valid() && index < v.downItemCount
    modifies v
    ensures v.Valid()
    ensures v.DownItems() == old(v.DownItems()[..index]) + old(v.DownItems()[index + 1..])
    ensures v.TopItems() == old(v.TopItems())
  {
    v.Erase(index);
    v.DecreaseDownItemCount();
  }

  /** The zone flags of `tileflags_t`. */
  const TileStateProtectionZone: bv32 := 0x80
  const TileStateNoPvpZone: bv32 := 0x100
  const TileStateNoLogout: bv32 := 0x200
  const TileStatePvpZone: bv32 := 0x400
  const ZoneFlags: bv32 := TileStateProtectionZone | TileStateNoPvpZone | TileStateNoLogout | TileStatePvpZone

  datatype ZoneType = ZoneProtection | ZoneNoPvp | ZoneNoLogout | ZonePvp | ZoneNormal

  /** A mask of two flag sets meets a flag word iff one of them does. */
  lemma EitherBitSet(flags: bv32, a: bv32, b: bv32)
    ensures flags & (a | b) != 0 <==> flags & a != 0 || flags & b != 0
  {
    assert flags & (a | b) == (flags & a) | (flags & b);
  }

  /** `setFlag` turns the given bits on and no other bit moves. */
  lemma SetFlagBits(flags: bv32, flag: bv32, other: bv32)
    requires other & flag == 0
    ensures flag != 0 ==> (flags | flag) & flag != 0
    ensures (flags | flag) & other == flags & other
  {
  }

  /** `resetFlag` turns the given bits off and no other bit moves. */
  lemma ResetFlagBits(flags: bv32, flag: bv32, other: bv32)
    requires other & flag == 0
    ensures (flags & !flag) & flag == 0
    ensures (flags & !flag) & other == flags & other
  {
  }

  /** Resetting bits undoes setting them: only the bits that were already set elsewhere survive. */
  lemma ResetUndoesSet(flags: bv32, flag: bv32)
    ensures (flags | flag) & !flag == flags & !flag
  {
  }

  /** The creature list of a tile (`CreatureVector`). */
  class CreatureVector {
    var creatures: seq<CreatureRef>

    constructor ()
      ensures creatures == []
    {
      creatures := [];
    }
  }

  /** `DynamicTile` keeps both lists inline; `StaticTile` allocates them on first use. */
  datatype TileKind = Dynamic | Static

  class Tile {
    const kind: TileKind
    var flags: bv32
    var ground: Option<ItemRef>
    var itemList: TileItemVector?
    var creatureList: CreatureVector?

    ghost predicate Valid()
      reads this
    {
      kind == Dynamic ==> itemList != null && creatureList != null
    }

    constructor DynamicTile()
      ensures Valid() && kind == Dynamic && flags == 0 && ground == None
      ensures fresh(itemList) && fresh(creatureList)
      ensures itemList.items == [] && itemList.downItemCount == 0 && creatureList.creatures == []
    {
      kind := Dynamic;
      flags := 0;
      ground := None;
      itemList := new TileItemVector();
      creatureList := new CreatureVector();
    }

    constructor StaticTile()
      ensures Valid() && kind == Static && flags == 0 && ground == None
      ensures itemList == null && creatureList == null
    {
      kind := Static;
      flags := 0;
      ground := None;
      itemList := null;
      creatureList := null;
    }

    /** `hasFlag`: some bit of `flag` is set in the tile's flag word (the `hasBitSet` test). */
    function HasFlag(flag: bv32): (r: bool)
      reads this
      ensures r <==> flags & flag != 0
    {
      flags & flag != 0
    }

    method SetFlag(flag: bv32)
      modifies this`flags
      ensures flags == old(flags) | flag
      ensures flag != 0 ==> HasFlag(flag)
    {
      flags := flags | flag;
    }

    method ResetFlag(flag: bv32)
      modifies this`flags
      ensures flags == old(flags) & !flag
      ensures !HasFlag(flag)
    {
      flags := flags & !flag;
    }

    /** `getZone`: each zone is chosen iff its flag is set and no flag of higher priority is. */
    function GetZone(): (z: ZoneType)
      reads this
      ensures z == ZoneProtection <==> HasFlag(TileStateProtectionZone)
      ensures z == ZoneNoPvp <==> !HasFlag(TileStateProtectionZone) && HasFlag(TileStateNoPvpZone)
      ensures z == ZoneNoLogout <==>
        !HasFlag(TileStateProtectionZone | TileStateNoPvpZone) && HasFlag(TileStateNoLogout)
      ensures z == ZonePvp <==>
        !HasFlag(TileStateProtectionZone | TileStateNoPvpZone | TileStateNoLogout) && HasFlag(TileStatePvpZone)
      ensures z == ZoneNormal <==> !HasFlag(ZoneFlags)
    {
      EitherBitSet(flags, TileStateProtectionZone, TileStateNoPvpZone);
      EitherBitSet(flags, TileStateProtectionZone | TileStateNoPvpZone, TileStateNoLogout);
      EitherBitSet(flags, TileStateProtectionZone | TileStateNoPvpZone | TileStateNoLogout, TileStatePvpZone);
      if HasFlag(TileStateProtectionZone) then ZoneProtection
      else if HasFlag(TileStateNoPvpZone) then ZoneNoPvp
      else if HasFlag(TileStateNoLogout) then ZoneNoLogout
      else if HasFlag(TileStatePvpZone) then ZonePvp
      else ZoneNormal
    }

    function CreatureCount(): nat
      reads this, creatureList
    {
      if creatureList == null then 0 else |creatureList.creatures|
    }

    function ItemCount(): nat
      reads this, itemList
    {
      if itemList == null then 0 else |itemList.items|
    }

    /** `getThingCount`: creatures, items, and the ground when there is one. */
    function ThingCount(): (n: nat)
      reads this, itemList, creatureList
      ensures n == 0 <==> ground == None && CreatureCount() == 0 && ItemCount() == 0
      ensures n >= CreatureCount() + ItemCount()
    {
      CreatureCount() + ItemCount() + (if ground.Some? then 1 else 0)
    }

    method SetGround(item: Option<ItemRef>)
      modifies this`ground
      ensures ground == item
    {
      ground := item;
    }

    /** `makeItemList`: allocate an empty item list if there is none, and return the tile's list. */
    method MakeItemList() returns (list: TileItemVector)
      requires Valid()
      modifies this`itemList
      ensures Valid() && itemList == list
      ensures old(itemList) != null ==> list == old(itemList)
      ensures old(itemList) == null ==> fresh(list) && list.items == [] && list.downItemCount == 0
      ensures list.Valid() || old(itemList) != null
      ensures ThingCount() == old(ThingCount())
    {
      if itemList == null {
        itemList := new TileItemVector();
      }
      list := itemList;
    }

    /** `makeCreatures`: allocate an empty creature list if there is none, and return the tile's list. */
    method MakeCreatures() returns (list: CreatureVector)
      requires Valid()
      modifies this`creatureList
      ensures Valid() && creatureList == list
      ensures old(creatureList) != null ==> list == old(creatureList)
      ensures old(creatureList) == null ==> fresh(list) && list.creatures == []
      ensures ThingCount() == old(ThingCount())
    {
      if creatureList == null {
        creatureList := new CreatureVector();
      }
      list := creatureList;
    }
  }

  /** Making a list twice allocates once: the second call returns the first call's list and changes nothing. */
  method MakeListsTwice(t: Tile)
    requires t.Valid()
    modifies t
  {
    var a := t.MakeItemList();
    var b := t.MakeItemList();
    assert a == b;
    var c := t.MakeCreatures();
    var d := t.MakeCreatures();
    assert c == d;
  }

  /** Only the four zone bits decide a tile's zone. */
  lemma ZoneIgnoresOtherFlags(a: Tile, b: Tile)
    requires a.flags & ZoneFlags == b.flags & ZoneFlags
    ensures a.GetZone() == b.GetZone()
  {
    var x, y := a.flags, b.flags;
    assert x & TileStateProtectionZone == (x & ZoneFlags) & TileStateProtectionZone;
    assert y & TileStateProtectionZone == (y & ZoneFlags) & TileStateProtectionZone;
    assert x & TileStateNoPvpZone == (x & ZoneFlags) & TileStateNoPvpZone;
    assert y & TileStateNoPvpZone == (y & ZoneFlags) & TileStateNoPvpZone;
    assert x & TileStateNoLogout == (x & ZoneFlags) & TileStateNoLogout;
    assert y & TileStateNoLogout == (y & ZoneFlags) & TileStateNoLogout;
    assert x & TileStatePvpZone == (x & ZoneFlags) & TileStatePvpZone;
    assert y & TileStatePvpZone == (y & ZoneFlags) & TileStatePvpZone;
  }
}
