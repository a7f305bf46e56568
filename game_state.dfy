/** `GameState`: the lookup of entities by id. */
module Game {
  import opened Common
  import opened Links
  import opened State

  class GameState {
    /** The heap of entities the state creates its entities in. */
    const world: World
    /** `entities`: id to entity */
    var entities: map<string, EntityRef>

    /** Every registered entity exists and carries the id it is registered under. */
    ghost predicate Valid()
      reads this, world
    {
      world.Valid() && Registry(entities, world.entities)
    }

    constructor (world: World)
      requires world.Valid()
      ensures Valid() && this.world == world && entities == map[]
    {
      this.world := world;
      entities := map[];
    }

    /**
     * `createEntity`: a new entity with this id and no attributes,
     * registered under the id; an entity registered under it before is
     * replaced without a check.
     */
    method CreateEntity(id: string) returns (e: EntityRef)
      requires Valid()
      modifies this`entities, world
      ensures Valid()
      ensures e !in old(world.entities) && e in world.entities && world.entities[e].id == id
      ensures GetEntityById(id) == Some(e)
      ensures forall other | other != id :: GetEntityById(other) == old(GetEntityById(other))
      ensures entities == old(entities)[id := e]
      ensures e == old(world.nextEntity)
      ensures world.Links() == WithEntity(old(world.Links()), id)
      ensures world.entities == old(world.entities)[e := EntityData(id, {}, false, map[], map[], {})]
      ensures world.setActions == old(world.setActions)[old(world.nextSet) := map[]]
    {
      ghost var before := world.entities;
      e := world.NewEntity(id, []);
      assert Elements<string>([]) == {};
      RegistryGrows(entities, before, id, e, world.entities[e]);
      entities := entities[id := e];
    }

    /** `getEntityById`: null for an id never created. */
    function GetEntityById(id: string): (r: Option<EntityRef>)
      reads this, world
      requires Valid()
      ensures r.Some? <==> id in entities
      ensures r.Some? ==> r.value in world.entities && world.entities[r.value].id == id
    {
      if id in entities then Some(entities[id]) else None
    }
  }

  /** Every id leads to an existing entity with that id. */
  ghost predicate Registry(ids: map<string, EntityRef>, heap: map<EntityRef, EntityData>) {
    forall id | id in ids :: ids[id] in heap && heap[ids[id]].id == id
  }

  /** Registering a new entity under its own id keeps every id leading to an entity with that id. */
  lemma RegistryGrows(ids: map<string, EntityRef>, heap: map<EntityRef, EntityData>, id: string, e: EntityRef, d: EntityData)
    requires Registry(ids, heap) && e !in heap && d.id == id
    ensures Registry(ids[id := e], heap[e := d])
  {
  }
}
