/**
 * `GameLogic`: the registry of actions by id, first-success dispatch, and
 * the take / go / open / close executors that `loadGameState` registers.
 */
module Logic {
  import opened Common
  import opened Containment
  import opened Links
  import opened State
  import opened Signature

  /** The three entities the house executors close over. */
  datatype House = House(inside: EntityRef, outside: EntityRef, door: EntityRef)

  /**
   * The executors `loadGameState` registers; each is modelled by the
   * `GameLogic` method of the same name.
   */
  datatype Executor = Take | Go | GoHouse(house: House) | Open(house: House) | Close(house: House)

  /** `new Action(id, signature, executor)` */
  datatype Action = Action(id: string, signature: ActionSignature, executor: Executor)

  /** The actor stands inside or outside the house. */
  predicate AtHouse(loc: Option<EntityRef>, house: House) {
    loc == Some(house.inside) || loc == Some(house.outside)
  }

  /**
   * The guard of the house executor as written: Java binds `&&` tighter
   * than `||`, so standing outside passes it even without a target.
   */
  predicate HouseGuardAsWritten(target: Option<EntityRef>, loc: Option<EntityRef>, house: House) {
    (target.Some? && loc == Some(house.inside)) || loc == Some(house.outside)
  }

  /** The guard as evidently intended: a target, and the actor at the house. */
  predicate HouseGuard(target: Option<EntityRef>, loc: Option<EntityRef>, house: House) {
    target.Some? && AtHouse(loc, house)
  }

  /** Standing outside with no connection for the direction passes the guard as written. */
  lemma HouseGuardAsWrittenAdmitsNoTarget(house: House)
    ensures HouseGuardAsWritten(None, Some(house.outside), house)
    ensures !HouseGuard(None, Some(house.outside), house)
  {
  }

  /**
   * The intended guard never admits a missing target, and wherever there is
   * one it agrees with the guard as written.
   */
  lemma HouseGuardNeedsTarget(target: Option<EntityRef>, loc: Option<EntityRef>, house: House)
    ensures HouseGuard(target, loc, house) ==> target.Some?
    ensures target.Some? ==> (HouseGuard(target, loc, house) <==> HouseGuardAsWritten(target, loc, house))
  {
  }

  class GameLogic {
    /** The entities of the game state. */
    const world: World
    /** `player` */
    var player: Option<EntityRef>
    /** `playerActions`: the actions registered under each id, in registration order. */
    var playerActions: map<string, seq<Action>>

    /**
     * No action is registered yet. The Java constructor keeps only the
     * parser; `world` and `player` are what `loadGameState` assigns to
     * `gameState` and `player`.
     */
    constructor (world: World, player: Option<EntityRef>)
      ensures this.world == world && this.player == player && playerActions == map[]
    {
      this.world := world;
      this.player := player;
      playerActions := map[];
    }

    /** `createAction`: appends under `id`, creating the list when the id has none. */
    method CreateAction(id: string, signature: ActionSignature, executor: Executor)
      modifies this`playerActions
      ensures playerActions == Registered(old(playerActions), id, Action(id, signature, executor))
      ensures ActionsUnder(playerActions, id) == ActionsUnder(old(playerActions), id) + [Action(id, signature, executor)]
    {
      playerActions := Registered(playerActions, id, Action(id, signature, executor));
    }

    /**
     * `tryExecuteAction(id, actor, entities)`: tries the actions under `id`
     * in registration order and stops at the first that executes;
     * `attempt(a, actor, entities)` is what `a.tryExecute(actor, entities,
     * this)` returns. `tried` is the index of the winner, or the number of
     * actions when none executed.
     */
    method TryExecuteAction(id: string, actor: EntityRef, entities: Option<SetRef>,
                            attempt: (Action, EntityRef, Option<SetRef>) -> bool)
      returns (r: bool, ghost tried: nat)
      ensures var l := ActionsUnder(playerActions, id);
        r <==> exists k | 0 <= k < |l| :: attempt(l[k], actor, entities)
      ensures var l := ActionsUnder(playerActions, id);
        && tried <= |l|
        && (forall k | 0 <= k < tried :: !attempt(l[k], actor, entities))
        && (r ==> tried < |l| && attempt(l[tried], actor, entities))
        && (!r ==> tried == |l|)
    {
      r, tried := false, 0;
      if id in playerActions {
        var l := playerActions[id];
        assert l == ActionsUnder(playerActions, id);
        var i := 0;
        while i < |l|
          invariant i <= |l|
          invariant forall k | 0 <= k < i :: !attempt(l[k], actor, entities)
        {
          if attempt(l[i], actor, entities) {
            return true, i;
          }
          i := i + 1;
        }
        tried := |l|;
      }
    }

    /** `tryExecuteAction(id, actor)`: the same dispatch with no entities. */
    method TryExecuteActionAlone(id: string, actor: EntityRef, attempt: (Action, EntityRef, Option<SetRef>) -> bool)
      returns (r: bool)
      ensures r <==> exists a | a in ActionsUnder(playerActions, id) :: attempt(a, actor, None)
    {
      ghost var tried;
      r, tried := TryExecuteAction(id, actor, None, attempt);
      ghost var l := ActionsUnder(playerActions, id);
      assert r ==> l[tried] in l;
      assert forall a | a in l :: exists k | 0 <= k < |l| :: l[k] == a;
    }

    /**
     * The take executor: when actor and collectible share a location the
     * collectible moves into the actor; a refused move is caught and the
     * executor then fails.
     */
    method Take(actor: EntityRef, collectible: EntityRef) returns (r: bool)
      requires world.Valid() && actor in world.entities && collectible in world.entities
      modifies world`location, world`sets, world`containingSets
      ensures world.Valid()
      ensures r <==> old(world.location[actor]) == old(world.location[collectible]) && actor != collectible
      ensures r ==> world.location == old(world.location)[collectible := Some(actor)]
      ensures r ==>
        && Movable(old(world.Links()), collectible, Some(actor))
        && Relinked(old(world.Links()), world.Links(), collectible, Some(actor))
      ensures !r ==> world.Links() == old(world.Links())
    {
      if world.location[actor] == world.location[collectible] {
        assert Acyclic(world.Links().location);
        SiblingNotAncestor(world.location, actor, collectible);
        var m := world.SetLocation(collectible, Some(actor));
        if m.Done? {
          return true;
        }
      }
      return false;
    }

    /**
     * The generic go executor: the actor's location's connected entity for
     * the direction (`connected`, as `getConnectedEntity` answers) becomes
     * the PLAYER's location, unless `setLocation` refuses; it always succeeds.
     */
    method Go(actor: EntityRef, direction: EntityRef, connected: (EntityRef, EntityRef) -> Option<EntityRef>)
      returns (r: bool)
      requires world.Valid() && actor in world.entities && world.location[actor].Some?
      requires OptIn(connected(world.location[actor].value, direction), world.entities.Keys)
      requires connected(world.location[actor].value, direction).Some? ==> player.Some? && player.value in world.entities
      modifies world`location, world`sets, world`containingSets
      ensures world.Valid() && r
      ensures var to := connected(old(world.location[actor]).value, direction);
        if to.Some? && RelinkAllowed(old(world.location), player.value, to)
        then Movable(old(world.Links()), player.value, to) && Relinked(old(world.Links()), world.Links(), player.value, to)
        else world.Links() == old(world.Links())
    {
      var newLocation := connected(world.location[actor].value, direction);
      if newLocation.Some? {
        var m := world.SetLocation(player.value, newLocation);
      }
      return true;
    }

    /** Through the door: the actor moves to `target` only when the door is open. */
    method PassDoor(actor: EntityRef, target: Option<EntityRef>, door: EntityRef)
      requires world.Valid() && actor in world.entities && door in world.entities && OptIn(target, world.entities.Keys)
      modifies world`location, world`sets, world`containingSets
      ensures world.Valid()
      ensures if world.Flag(door, "open") && RelinkAllowed(old(world.location), actor, target)
        then Movable(old(world.Links()), actor, target) && Relinked(old(world.Links()), world.Links(), actor, target)
        else world.Links() == old(world.Links())
    {
      if world.Flag(door, "open") {
        var m := world.SetLocation(actor, target);
      }
    }

    /**
     * The house go executor as written: once the guard passes it tries the
     * door and succeeds, otherwise it fails. With the actor outside, no
     * connection and the door open, the actor is detached from every location.
     */
    method GoHouseAsWritten(actor: EntityRef, direction: EntityRef, connected: (EntityRef, EntityRef) -> Option<EntityRef>, house: House)
      returns (r: bool)
      requires world.Valid() && actor in world.entities && world.location[actor].Some? && house.door in world.entities
      requires OptIn(connected(world.location[actor].value, direction), world.entities.Keys)
      modifies world`location, world`sets, world`containingSets
      ensures world.Valid()
      ensures r <==> HouseGuardAsWritten(connected(old(world.location[actor]).value, direction), old(world.location[actor]), house)
      ensures !r ==> world.Links() == old(world.Links())
      ensures var to := connected(old(world.location[actor]).value, direction);
        r ==> if world.Flag(house.door, "open") && RelinkAllowed(old(world.location), actor, to)
              then Movable(old(world.Links()), actor, to) && Relinked(old(world.Links()), world.Links(), actor, to)
              else world.Links() == old(world.Links())
      ensures old(world.location[actor]) == Some(house.outside) && connected(house.outside, direction).None? && world.Flag(house.door, "open")
        ==> r && world.location[actor].None?
    {
      var newLocation := connected(world.location[actor].value, direction);
      if HouseGuardAsWritten(newLocation, world.location[actor], house) {
        PassDoor(actor, newLocation, house.door);
        return true;
      }
      return false;
    }

    /** The house go executor with the intended guard: the actor is never detached. */
    method GoHouse(actor: EntityRef, direction: EntityRef, connected: (EntityRef, EntityRef) -> Option<EntityRef>, house: House)
      returns (r: bool)
      requires world.Valid() && actor in world.entities && world.location[actor].Some? && house.door in world.entities
      requires OptIn(connected(world.location[actor].value, direction), world.entities.Keys)
      modifies world`location, world`sets, world`containingSets
      ensures world.Valid()
      ensures r <==> HouseGuard(connected(old(world.location[actor]).value, direction), old(world.location[actor]), house)
      ensures !r ==> world.Links() == old(world.Links())
      ensures var to := connected(old(world.location[actor]).value, direction);
        r ==> if world.Flag(house.door, "open") && RelinkAllowed(old(world.location), actor, to)
              then Movable(old(world.Links()), actor, to) && Relinked(old(world.Links()), world.Links(), actor, to)
              else world.Links() == old(world.Links())
      ensures world.location[actor].Some?
    {
      var newLocation := connected(world.location[actor].value, direction);
      if newLocation.Some? && AtHouse(world.location[actor], house) {
        PassDoor(actor, newLocation, house.door);
        return true;
      }
      return false;
    }

    /** The open executor: at the house the door's open flag is set (if not yet) and it succeeds. */
    method Open(actor: EntityRef, door: EntityRef, house: House) returns (r: bool)
      requires world.Valid() && actor in world.entities && door in world.entities
      modifies world`entities
      ensures world.Valid()
      ensures r <==> AtHouse(old(world.location[actor]), house)
      ensures r ==> world.Flag(door, "open")
      ensures !r || old(world.Flag(door, "open")) ==> world.entities == old(world.entities)
      ensures forall other | other != "open" :: world.Flag(door, other) == old(world.Flag(door, other))
      ensures world.entities == old(world.entities)[door := old(world.entities[door]).(flags := world.entities[door].flags)]
    {
      if AtHouse(world.location[actor], house) {
        if !world.Flag(door, "open") {
          world.SetFlag(door, "open", true);
        }
        return true;
      }
      return false;
    }

    /** The close executor: at the house the door's open flag is cleared (if set) and it succeeds. */
    method Close(actor: EntityRef, door: EntityRef, house: House) returns (r: bool)
      requires world.Valid() && actor in world.entities && door in world.entities
      modifies world`entities
      ensures world.Valid()
      ensures r <==> AtHouse(old(world.location[actor]), house)
      ensures r ==> !world.Flag(door, "open")
      ensures !r || !old(world.Flag(door, "open")) ==> world.entities == old(world.entities)
      ensures forall other | other != "open" :: world.Flag(door, other) == old(world.Flag(door, other))
      ensures world.entities == old(world.entities)[door := old(world.entities[door]).(flags := world.entities[door].flags)]
    {
      if AtHouse(world.location[actor], house) {
        if world.Flag(door, "open") {
          world.SetFlag(door, "open", false);
        }
        return true;
      }
      return false;
    }
  }
}
