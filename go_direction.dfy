/** The `GoDirection` action: moves the player along a named connection of its location. */
module Actions {
  import opened Common
  import opened Containment
  import opened Links
  import opened State
  import opened Logic

  /** What `execute` reports; each case is one of its messages. */
  datatype GoOutcome =
    | PlayerNull        // go.player.null
    | LocationNull      // go.player.location.null
    | UnknownDirection  // go.direction.unknown
    | Closed            // go.location.closed
    | Success           // go.success
    | Circular          // go.locationCircular

  class GoDirection {
    const directionId: string

    constructor (directionId: string)
      ensures this.directionId == directionId
    {
      this.directionId := directionId;
    }

    /**
     * `execute`: without a player or a player location, without a
     * connection or a target for the direction, or through a closed gate
     * nothing moves; otherwise the player moves to the target unless
     * `setLocation` refuses, which leaves everything as it was.
     */
    method Execute(logic: GameLogic) returns (o: GoOutcome)
      requires logic.world.Valid() && OptIn(logic.player, logic.world.entities.Keys)
      modifies logic.world`location, logic.world`sets, logic.world`containingSets
      ensures logic.world.Valid()
      ensures logic.player.None? <==> o == PlayerNull
      ensures logic.player.Some? ==> (o == LocationNull <==> old(logic.world.location[logic.player.value]).None?)
      ensures o != Success ==> logic.world.Links() == old(logic.world.Links())
      ensures o.UnknownDirection? || o.Closed? || o.Success? || o.Circular? ==>
        && logic.player.Some? && old(logic.world.location[logic.player.value]).Some?
        && var c := old(logic.world.GetConnection(logic.world.location[logic.player.value].value, directionId));
        && (o.UnknownDirection? <==> c.None? || c.value.to.None?)
        && (!o.UnknownDirection? ==>
              && (o.Closed? <==> c.value.associated.Some? && old(logic.world.entities[c.value.associated.value].closed))
              && (!o.Closed? ==>
                    && (o.Success? <==> RelinkAllowed(old(logic.world.location), logic.player.value, c.value.to))
                    && (o.Success? ==>
                          && Movable(old(logic.world.Links()), logic.player.value, c.value.to)
                          && Relinked(old(logic.world.Links()), logic.world.Links(), logic.player.value, c.value.to))))
    {
      var world := logic.world;
      if logic.player.None? {
        return PlayerNull;
      }
      var p := logic.player.value;
      assert EntityOk(world.Links(), p);
      var location := world.location[p];
      if location.None? {
        return LocationNull;
      }
      var connection := world.GetConnection(location.value, directionId);
      if connection.None? || connection.value.to.None? {
        return UnknownDirection;
      }
      assert ConnectionsOk(world.entities[location.value], world.entities.Keys);
      var gate := connection.value.associated;
      if gate.Some? && world.entities[gate.value].closed {
        return Closed;
      }
      var m := world.SetLocation(p, connection.value.to);
      if m.Done? {
        return Success;
      }
      return Circular;
    }
  }
}
