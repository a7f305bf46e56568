/**
 * `ActionSignature`: the entities an action needs, as an ordered list of
 * entries (an entity set and how many of its members are needed) with a
 * running total of the needed entities.
 */
module Signature {
  import opened Common
  import opened Links
  import opened Slots
  import opened State

  class ActionSignature {
    /** `entries`, in push order. */
    var entries: seq<SignatureEntry>
    /** `totalEntityCount` */
    var total: nat

    /** The running total is the sum of all entry sizes. */
    ghost predicate Valid()
      reads this
    {
      total == Sum(EntryCounts(entries))
    }

    constructor ()
      ensures Valid() && entries == [] && total == 0
    {
      entries, total := [], 0;
    }

    /** `pushEntry(entities, size)`: one more entry at the end; the total grows by `size`. */
    method PushEntry(s: SetRef, size: nat)
      requires Valid()
      modifies this
      ensures Valid()
      ensures entries == old(entries) + [SignatureEntry(s, size)] && total == old(total) + size
    {
      assert EntryCounts(entries + [SignatureEntry(s, size)]) == EntryCounts(entries) + [size];
      SumAppend(EntryCounts(entries), size);
      entries := entries + [SignatureEntry(s, size)];
      total := total + size;
    }

    /** `pushEntry(entity)`: an entry of size 1 for a new temporary set holding only `e`. */
    method PushEntity(e: EntityRef, world: World)
      requires Valid() && world.Valid() && e in world.entities
      modifies this, world`sets, world`containingSets, world`setActions, world`nextSet
      ensures Valid() && world.Valid()
      ensures entries == old(entries) + [SignatureEntry(old(world.nextSet), 1)] && total == old(total) + 1
      ensures world.Links() == WithMembers(WithSet(old(world.Links()), None), old(world.nextSet), [e])
      ensures world.setActions == old(world.setActions)[old(world.nextSet) := map[]]
    {
      var s := world.NewSet(None, [e]);
      PushEntry(s, 1);
    }

    /** `getTotalEntityCount` */
    function TotalEntityCount(): (r: nat)
      reads this
      requires Valid()
      ensures r == Sum(EntryCounts(entries))
    {
      total
    }

    /** `getEntryCount`: the number of pushes so far. */
    function EntryCount(): (r: nat)
      reads this
      ensures r == |EntryCounts(entries)|
    {
      |entries|
    }

    /** `getEntrySize`: the size given at the i-th push. */
    function EntrySize(i: nat): (r: nat)
      reads this
      requires i < |entries|
      ensures r == EntryCounts(entries)[i]
    {
      entries[i].count
    }

    /** `getEntryEntitySet`: the current members of the set given at the i-th push. */
    function EntryEntitySet(i: nat, world: World): (r: set<EntityRef>)
      reads this, world`sets
      requires Ready(world) && i < |entries|
      ensures r == SlotsIn(world)[i].allowed
    {
      world.sets[entries[i].entities].members
    }

    /** Every entry's set is a set of `world`. */
    ghost predicate Ready(world: World)
      reads this, world`sets
    {
      Valid() && forall i | 0 <= i < |entries| :: entries[i].entities in world.sets
    }

    /** The signature as slots of `world`. */
    function SlotsIn(world: World): seq<Slot>
      reads this, world`sets
      requires Ready(world)
    {
      SlotsOf(entries, world.sets)
    }
  }
}
