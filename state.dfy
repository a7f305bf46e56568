/**
 * The entity graph: `Entity`, `EntitySet` and `PlayerAction` objects.
 *
 * Entities and entity sets point at each other (an entity owns its contents
 * set; a persistent set is indexed from each of its members), so their
 * fields live together in one heap object, `World`: every Java field becomes
 * a map from the handle of the object that holds it to the field's value,
 * and every Java method on an entity or a set becomes a `World` method that
 * takes the receiver's handle. `Valid` is the invariant the Java classes keep
 * between calls: the location of an entity and the contents set of that
 * location agree, every persistent set is indexed from its members, and no
 * entity (transitively) contains itself.
 */
module State {
  import opened Common
  import opened Containment
  import opened Links
  import opened Slots
  import opened Greedy

  /** A connection to another entity, possibly gated by an associated entity (a door). */
  datatype Connection = Connection(to: Option<EntityRef>, associated: Option<EntityRef>)

  /** Why `setLocation` throws its `CircularLocationException`. */
  datatype Refusal = SelfLocation | CircularLocation

  /** The outcome of `setLocation`: it returns normally or throws. */
  datatype Moved = Done | Refused(reason: Refusal)

  /**
   * The fields of an entity other than its links: its id, attributes,
   * `closed` flag, connections, player actions and boolean attributes.
   */
  datatype EntityData = EntityData(
    id: string,
    attributes: set<string>,
    closed: bool,
    connections: map<string, Connection>,
    playerActions: map<string, seq<PlayerAction>>,
    /** The boolean attributes that are true (`getBoolAttribute`/`setAttribute`). */
    flags: set<string>)

  /** One entry of a player action's signature: `count` entities from set `entities`. */
  datatype SignatureEntry = SignatureEntry(entities: SetRef, count: nat)

  /** The actions of set `s` under `id`; none for an unknown set or id. */
  function SetActionsOf(setActions: map<SetRef, map<string, seq<PlayerAction>>>, s: SetRef, id: string): seq<PlayerAction> {
    if s in setActions then ActionsUnder(setActions[s], id) else []
  }

  /** The actions of the sets in `setOrder` under `id`, set after set. */
  function SetCandidates(setActions: map<SetRef, map<string, seq<PlayerAction>>>, setOrder: seq<SetRef>, id: string): seq<PlayerAction>
    decreases |setOrder|
  {
    if setOrder == [] then []
    else SetCandidates(setActions, setOrder[..|setOrder| - 1], id) + SetActionsOf(setActions, setOrder[|setOrder| - 1], id)
  }

  /** The actions of the first j sets come first. */
  lemma {:induction false} SetCandidatesPrefix(setActions: map<SetRef, map<string, seq<PlayerAction>>>, setOrder: seq<SetRef>,
                                               id: string, j: nat)
    requires j <= |setOrder|
    ensures SetCandidates(setActions, setOrder[..j], id) <= SetCandidates(setActions, setOrder, id)
    decreases |setOrder| - j
  {
    if j < |setOrder| {
      SetCandidatesPrefix(setActions, setOrder, id, j + 1);
      assert setOrder[..j + 1][..j] == setOrder[..j];
    } else {
      assert setOrder[..j] == setOrder;
    }
  }

  /**
   * The actions `tryExecutePlayerAction` tries, in order: the entity's own
   * actions under `id`, then those of every persistent set holding it, in
   * the order `setOrder` in which its index hands them out.
   */
  function Candidates(own: map<string, seq<PlayerAction>>, setActions: map<SetRef, map<string, seq<PlayerAction>>>,
                      id: string, setOrder: seq<SetRef>): seq<PlayerAction>
  {
    ActionsUnder(own, id) + SetCandidates(setActions, setOrder, id)
  }

  /** `attrs` with `a` flipped: removed when present, added when absent. */
  function Toggled(attrs: set<string>, a: string): (r: set<string>)
    ensures a in r <==> a !in attrs
    ensures forall x | x != a :: x in r <==> x in attrs
  {
    if a in attrs then attrs - {a} else attrs + {a}
  }

  /** `attrs` with `a` replaced by `b` if `a` is present, else `b` by `a` if `b` is present. */
  function Switched(attrs: set<string>, a: string, b: string): (r: set<string>)
    ensures a in attrs ==> b in r && (a != b ==> a !in r)
    ensures a !in attrs && b in attrs ==> a in r && b !in r
    ensures a !in attrs && b !in attrs ==> r == attrs
    ensures forall x | x != a && x != b :: x in r <==> x in attrs
  {
    if a in attrs then attrs - {a} + {b}
    else if b in attrs then attrs - {b} + {a}
    else attrs
  }

  /** Toggling twice restores the attributes. */
  lemma ToggleTwice(attrs: set<string>, a: string)
    ensures Toggled(Toggled(attrs, a), a) == attrs
  {
    if a in attrs {
      assert Toggled(attrs, a) == attrs - {a};
    }
  }

  /** Switching twice restores the attributes unless both were present. */
  lemma SwitchTwice(attrs: set<string>, a: string, b: string)
    requires !(a in attrs && b in attrs)
    ensures Switched(Switched(attrs, a, b), a, b) == attrs
  {
    if a in attrs {
      assert Switched(attrs, a, b) == attrs - {a} + {b};
    } else if b in attrs {
      assert Switched(attrs, a, b) == attrs - {b} + {a};
    }
  }

  /** `x`, if not null, is one of `dom`. */
  predicate OptIn(x: Option<EntityRef>, dom: set<EntityRef>) {
    x.Some? ==> x.value in dom
  }

  /** Every connection of an entity leads to, and is gated by, entities of `dom` (or null). */
  ghost predicate ConnectionsOk(d: EntityData, dom: set<EntityRef>) {
    forall dir | dir in d.connections :: OptIn(d.connections[dir].to, dom) && OptIn(d.connections[dir].associated, dom)
  }

  /** The connection of entity `x` for `dir` in `m`, or None. */
  function ConnectionOf(m: map<EntityRef, EntityData>, x: EntityRef, dir: string): Option<Connection> {
    if x in m && dir in m[x].connections then Some(m[x].connections[dir]) else None
  }

  /** `m` with `e`'s entry for `dir` set to `c` (`connections.put`). */
  function WithConnection(m: map<EntityRef, EntityData>, e: EntityRef, dir: string, c: Connection): (r: map<EntityRef, EntityData>)
    requires e in m
    ensures r.Keys == m.Keys
    ensures ConnectionOf(r, e, dir) == Some(c)
    ensures forall x, d | x != e || d != dir :: ConnectionOf(r, x, d) == ConnectionOf(m, x, d)
    ensures forall x | x in m :: r[x] == m[x].(connections := r[x].connections)
  {
    m[e := m[e].(connections := m[e].connections[dir := c])]
  }

  /** `m` without `e`'s entry for `dir` (`connections.remove`). */
  function WithoutConnection(m: map<EntityRef, EntityData>, e: EntityRef, dir: string): (r: map<EntityRef, EntityData>)
    requires e in m
    ensures r.Keys == m.Keys
    ensures ConnectionOf(r, e, dir) == None
    ensures forall x, d | x != e || d != dir :: ConnectionOf(r, x, d) == ConnectionOf(m, x, d)
    ensures forall x | x in m :: r[x] == m[x].(connections := r[x].connections)
  {
    m[e := m[e].(connections := m[e].connections - {dir})]
  }

  /** If `e` has an entry for `dir`, it leads to an entity of `m`. */
  predicate BackLinked(m: map<EntityRef, EntityData>, e: EntityRef, dir: string) {
    match ConnectionOf(m, e, dir)
    case None => true
    case Some(c) => c.to.Some? && c.to.value in m
  }

  /**
   * `removeBidirectionalConnection` on `m`: `e`'s entry for `dirThere` goes
   * and, only when there was one, so does the `dirBack` entry of the entity
   * it led to; nothing else changes.
   */
  function WithoutBidirectional(m: map<EntityRef, EntityData>, e: EntityRef, dirThere: string, dirBack: string): (r: map<EntityRef, EntityData>)
    requires e in m && BackLinked(m, e, dirThere)
    ensures r.Keys == m.Keys
    ensures ConnectionOf(r, e, dirThere) == None
    ensures ConnectionOf(m, e, dirThere) == None ==> r == m
    ensures ConnectionOf(m, e, dirThere).Some? ==> ConnectionOf(r, ConnectionOf(m, e, dirThere).value.to.value, dirBack) == None
    ensures forall x, d | ConnectionOf(r, x, d) != ConnectionOf(m, x, d) ::
      (x == e && d == dirThere) || (ConnectionOf(m, e, dirThere).Some? && Some(x) == ConnectionOf(m, e, dirThere).value.to && d == dirBack)
  {
    match ConnectionOf(m, e, dirThere)
    case None => m
    case Some(c) => WithoutConnection(WithoutConnection(m, e, dirThere), c.to.value, dirBack)
  }

  /** Every entity's connections lead to entities of the map. */
  ghost predicate AllConnected(m: map<EntityRef, EntityData>) {
    forall e | e in m :: ConnectionsOk(m[e], m.Keys)
  }

  /** Replacing an entity's fields by ones whose connections lead to entities keeps them all connected. */
  lemma ConnectedUpdate(m: map<EntityRef, EntityData>, e: EntityRef, d: EntityData)
    requires AllConnected(m) && ConnectionsOk(d, m.Keys + {e})
    ensures AllConnected(m[e := d])
  {
    var m' := m[e := d];
    assert m'.Keys == m.Keys + {e};
    forall x | x in m' ensures ConnectionsOk(m'[x], m'.Keys) {
      if x != e {
        assert ConnectionsOk(m[x], m.Keys);
      }
    }
  }

  /** Some enumeration of `xs`: the order in which a Java hash set happens to hand out its elements. */
  method Enumerate(xs: set<EntityRef>) returns (s: seq<EntityRef>)
    ensures Enumerates(s, xs)
  {
    s := [];
    var rest := xs;
    while rest != {}
      invariant Distinct(s) && (forall i :: 0 <= i < |s| ==> s[i] in xs && s[i] !in rest)
      invariant rest <= xs && forall x | x in xs && x !in rest :: x in s
      decreases rest
    {
      var x :| x in rest;
      s := s + [x];
      rest := rest - {x};
    }
  }

  /**
   * The objects of the game's world: entities and entity sets. The links
   * between them are the fields of a `Links.Graph`; every method that changes
   * links states its new links as a `Links` function of the old ones, and
   * `Valid` is `Links.Coherent` plus the facts about the other fields.
   */
  class World {
    /** Entity handle to the entity's fields other than its links. */
    var entities: map<EntityRef, EntityData>
    /** `Entity.location` */
    var location: LocationMap
    /** `Entity.contents` */
    var contents: map<EntityRef, SetRef>
    /** `Entity.containingPersistentSets` */
    var containingSets: map<EntityRef, set<SetRef>>
    /** Set handle to the set's name and members. */
    var sets: map<SetRef, SetData>
    /** `EntitySet.playerActions` */
    var setActions: map<SetRef, map<string, seq<PlayerAction>>>
    /** Handles not yet allocated. */
    var nextEntity: nat
    var nextSet: nat

    /** The links between entities and sets. */
    function Links(): Graph
      reads this`location, this`contents, this`containingSets, this`sets, this`nextEntity, this`nextSet
    {
      Graph(location, contents, containingSets, sets, nextEntity, nextSet)
    }

    /** Every entity and every set has all of its fields. */
    ghost predicate Complete()
      reads this`entities, this`contents, this`sets, this`setActions
    {
      entities.Keys == contents.Keys && setActions.Keys == sets.Keys
    }

    /** Connections lead to entities. */
    ghost predicate Connected()
      reads this`entities
    {
      AllConnected(entities)
    }

    ghost predicate Valid()
      reads this
    {
      Complete() && Connected() && Coherent(Links())
    }

    constructor ()
      ensures Valid() && entities == map[] && sets == map[]
    {
      entities, location, contents, containingSets := map[], map[], map[], map[];
      sets, setActions := map[], map[];
      nextEntity, nextSet := 0, 0;
      new;
      forall x: EntityRef ensures Rooted(location, x) {
        assert Climb(location, x, 1) == None;
      }
    }

    // -------------------------------------------------------------------------
    // EntitySet

    /** `add` for one entity. */
    method AddOne(s: SetRef, e: EntityRef)
      requires s in sets && e in containingSets
      modifies this`sets, this`containingSets
      ensures Links() == WithMember(old(Links()), s, e)
    {
      var added := e !in sets[s].members;
      sets := sets[s := sets[s].(members := sets[s].members + {e})];
      if added && sets[s].name.Some? {
        containingSets := containingSets[e := containingSets[e] + {s}];
      }
      if !added {
        assert sets[s] == old(sets[s]);
        assert sets == old(sets);
      }
    }

    /** `remove` for one entity. */
    method RemoveOne(s: SetRef, e: EntityRef)
      requires s in sets && e in containingSets
      modifies this`sets, this`containingSets
      ensures Links() == WithoutMember(old(Links()), s, e)
    {
      var removed := e in sets[s].members;
      sets := sets[s := sets[s].(members := sets[s].members - {e})];
      if removed && sets[s].name.Some? {
        containingSets := containingSets[e := containingSets[e] - {s}];
      }
      if !removed {
        assert sets[s] == old(sets[s]);
        assert sets == old(sets);
      }
    }

    /** `EntitySet.add(es...)` (see `Links.WithMembersKeeps` for the invariant). */
    method Add(s: SetRef, es: seq<EntityRef>)
      requires s in sets && forall x | x in es :: x in containingSets
      modifies this`sets, this`containingSets
      ensures Links() == WithMembers(old(Links()), s, es)
    {
      var i := 0;
      while i < |es|
        invariant 0 <= i <= |es| && s in sets && containingSets.Keys == old(containingSets).Keys
        invariant Links() == WithMembers(old(Links()), s, es[..i])
      {
        assert es[..i + 1][..i] == es[..i];
        AddOne(s, es[i]);
        i := i + 1;
      }
      assert es[..i] == es;
    }

    /** `EntitySet.remove(es...)` (see `Links.WithoutMembersKeeps` for the invariant). */
    method Remove(s: SetRef, es: seq<EntityRef>)
      requires s in sets && forall x | x in es :: x in containingSets
      modifies this`sets, this`containingSets
      ensures Links() == WithoutMembers(old(Links()), s, es)
    {
      var i := 0;
      while i < |es|
        invariant 0 <= i <= |es| && s in sets && containingSets.Keys == old(containingSets).Keys
        invariant Links() == WithoutMembers(old(Links()), s, es[..i])
      {
        assert es[..i + 1][..i] == es[..i];
        RemoveOne(s, es[i]);
        i := i + 1;
      }
      assert es[..i] == es;
    }

    /**
     * The `EntitySet` constructor (`createTemporary` when `name` is None,
     * `createPersistent` otherwise): a new set holding exactly `es`.
     */
    method NewSet(name: Option<string>, es: seq<EntityRef>) returns (s: SetRef)
      requires Valid() && forall x | x in es :: x in entities
      modifies this`sets, this`containingSets, this`setActions, this`nextSet
      ensures Valid()
      ensures s == old(nextSet) && s !in old(sets)
      ensures Links() == WithMembers(WithSet(old(Links()), name), s, es)
      ensures setActions == old(setActions)[s := map[]]
    {
      s := nextSet;
      sets := sets[s := SetData(name, {})];
      setActions := setActions[s := map[]];
      nextSet := nextSet + 1;
      ghost var g := Links();
      assert g == WithSet(old(Links()), name);
      WithSetKeeps(old(Links()), name);
      Add(s, es);
      WithMembersKeeps(g, s, es);
    }

    // -------------------------------------------------------------------------
    // Entity

    /**
     * `new Entity(id, attrs...)`: an entity located nowhere, with the given
     * attributes, open, without connections or actions, and owning a new
     * persistent contents set named `id::contents`.
     */
    method NewEntity(id: string, attrs: seq<string>) returns (e: EntityRef)
      requires Valid()
      modifies this
      ensures Valid()
      ensures e == old(nextEntity) && e !in old(entities)
      ensures Links() == WithEntity(old(Links()), id)
      ensures entities == old(entities)[e := EntityData(id, Elements(attrs), false, map[], map[], {})]
      ensures setActions == old(setActions)[old(nextSet) := map[]]
    {
      ghost var g := Links();
      var s := NewSet(Some(ContentsName(id)), []);
      assert Links() == WithSet(g, Some(ContentsName(id)));
      e := Own(s, EntityData(id, Elements(attrs), false, map[], map[], {}), g);
    }

    /** The second half of `new Entity`: entity `nextEntity` with fields `d` and contents `s`, the set just made. */
    method Own(s: SetRef, d: EntityData, ghost g: Graph) returns (e: EntityRef)
      requires Coherent(g) && Links() == WithSet(g, Some(ContentsName(d.id))) && s == g.nextSet
      requires Complete() && Connected() && d.connections == map[]
      modifies this`location, this`contents, this`containingSets, this`entities, this`nextEntity
      ensures Valid()
      ensures e == old(nextEntity) && e !in old(entities)
      ensures Links() == WithEntity(g, d.id)
      ensures entities == old(entities)[e := d]
    {
      e := nextEntity;
      assert EntityOk(g, e) ==> e < nextEntity;
      assert ConnectionsOk(d, entities.Keys + {e});
      ConnectedUpdate(entities, e, d);
      location := location[e := None];
      contents := contents[e := s];
      containingSets := containingSets[e := {}];
      entities := entities[e := d];
      nextEntity := nextEntity + 1;
      assert Links() == WithEntity(g, d.id);
      OwnedValid(g, d.id);
    }

    /** The state `Own` leaves behind satisfies the invariant. */
    lemma OwnedValid(g: Graph, id: string)
      requires Coherent(g) && Links() == WithEntity(g, id) && Complete() && Connected()
      ensures Valid()
    {
      WithEntityKeeps(g, id);
    }

    /**
     * `setLocation`: refused, with nothing changed, when `target` is `t` itself
     * or something `t` (transitively) contains; a no-op when `t` is already
     * there; otherwise `t` leaves its old location's contents and joins
     * `target`'s.
     */
    method SetLocation(t: EntityRef, target: Option<EntityRef>) returns (m: Moved)
      requires Valid() && t in entities && OptIn(target, entities.Keys)
      modifies this`location, this`sets, this`containingSets
      ensures Valid()
      ensures m == Refused(SelfLocation) <==> target == Some(t)
      ensures m.Refused? <==> !RelinkAllowed(old(location), t, target)
      ensures m.Refused? || old(location[t]) == target ==> Links() == old(Links())
      ensures m.Done? ==> location == old(location)[t := target]
      ensures Movable(old(Links()), t, target)
      ensures m.Done? && old(location[t]) != target ==> Links() == Relocated(old(Links()), t, target)
      ensures m.Done? ==> Relinked(old(Links()), Links(), t, target)
    {
      ghost var g := Links();
      assert EntityOk(g, t);
      if target.Some? {
        assert EntityOk(g, target.value);
      }
      if location[t].Some? {
        assert EntityOk(g, location[t].value);
      }
      if target == Some(t) {
        return Refused(SelfLocation);
      }
      if Contains(Links(), t, target, true) {
        ContainsIsAncestor(g, t, target.value);
        return Refused(CircularLocation);
      }
      if target.Some? {
        ContainsIsAncestor(g, t, target.value);
      }
      m := Done;
      if location[t] != target {
        Relink(t, target);
        CoherentRelinkFacts(g, t, target);
        RelocatedEffect(g, t, target);
      } else {
        RelinkedInPlace(g, t);
      }
    }

    /** The successful branch of `setLocation`, once both checks have passed and the location changes. */
    method Relink(t: EntityRef, target: Option<EntityRef>)
      requires Valid() && t in entities && OptIn(target, entities.Keys)
      requires location[t] != target && RelinkAllowed(location, t, target)
      modifies this`location, this`sets, this`containingSets
      ensures Valid()
      ensures Movable(old(Links()), t, target) && Links() == Relocated(old(Links()), t, target)
    {
      ghost var g := Links();
      CoherentRelinkFacts(g, t, target);
      var h := Relocated(Links(), t, target);
      location, sets, containingSets := h.location, h.sets, h.containing;
      RelinkedValid(g, t, target);
    }

    /** The state `Relink` leaves behind satisfies the invariant. */
    lemma RelinkedValid(g: Graph, t: EntityRef, target: Option<EntityRef>)
      requires Coherent(g) && t in g.contents && (target.Some? ==> target.value in g.contents)
      requires g.location[t] != target && RelinkAllowed(g.location, t, target)
      requires entities.Keys == g.contents.Keys && setActions.Keys == g.sets.Keys && AllConnected(entities)
      requires Movable(g, t, target) && Links() == Relocated(g, t, target)
      ensures Valid()
    {
      RelocatedKeeps(g, t, target);
    }

    // -------------------------------------------------------------------------
    // Entity attributes and the closed flag

    /** Replaces the fields of `e` other than its links; its connections must lead to entities. */
    method Update(e: EntityRef, d: EntityData)
      requires Valid() && e in entities && ConnectionsOk(d, entities.Keys)
      modifies this`entities
      ensures Valid() && entities == old(entities)[e := d]
    {
      assert entities.Keys + {e} == entities.Keys;
      ConnectedUpdate(entities, e, d);
      entities := entities[e := d];
      assert Links() == old(Links());
    }

    /** `addAttribute`: true iff the attribute was absent. */
    method AddAttribute(e: EntityRef, a: string) returns (added: bool)
      requires Valid() && e in entities
      modifies this`entities
      ensures Valid()
      ensures added <==> a !in old(entities[e].attributes)
      ensures entities == old(entities)[e := old(entities[e]).(attributes := old(entities[e].attributes) + {a})]
    {
      added := a !in entities[e].attributes;
      assert ConnectionsOk(entities[e], entities.Keys);
      Update(e, entities[e].(attributes := entities[e].attributes + {a}));
    }

    /** `removeAttribute`: true iff the attribute was present. */
    method RemoveAttribute(e: EntityRef, a: string) returns (removed: bool)
      requires Valid() && e in entities
      modifies this`entities
      ensures Valid()
      ensures removed <==> a in old(entities[e].attributes)
      ensures entities == old(entities)[e := old(entities[e]).(attributes := old(entities[e].attributes) - {a})]
    {
      removed := a in entities[e].attributes;
      assert ConnectionsOk(entities[e], entities.Keys);
      Update(e, entities[e].(attributes := entities[e].attributes - {a}));
    }

    /** `toggleAttribute`: remove the attribute, and add it when the removal found nothing. */
    method ToggleAttribute(e: EntityRef, a: string)
      requires Valid() && e in entities
      modifies this`entities
      ensures Valid()
      ensures entities == old(entities)[e := old(entities[e]).(attributes := Toggled(old(entities[e].attributes), a))]
    {
      assert ConnectionsOk(entities[e], entities.Keys);
      Update(e, entities[e].(attributes := Toggled(entities[e].attributes, a)));
    }

    /** `switchAttribute`: replace `a` by `b`, or else `b` by `a`. */
    method SwitchAttribute(e: EntityRef, a: string, b: string)
      requires Valid() && e in entities
      modifies this`entities
      ensures Valid()
      ensures entities == old(entities)[e := old(entities[e]).(attributes := Switched(old(entities[e].attributes), a, b))]
    {
      assert ConnectionsOk(entities[e], entities.Keys);
      Update(e, entities[e].(attributes := Switched(entities[e].attributes, a, b)));
    }

    /** `setClosed` */
    method SetClosed(e: EntityRef, closed: bool)
      requires Valid() && e in entities
      modifies this`entities
      ensures Valid()
      ensures entities == old(entities)[e := old(entities[e]).(closed := closed)]
    {
      assert ConnectionsOk(entities[e], entities.Keys);
      Update(e, entities[e].(closed := closed));
    }

    /** The boolean attribute `name` of `e` (`getBoolAttribute`); false until set. */
    function Flag(e: EntityRef, name: string): bool
      reads this`entities
      requires e in entities
    {
      name in entities[e].flags
    }

    /** `setAttribute(name, value)` for a boolean attribute. */
    method SetFlag(e: EntityRef, name: string, value: bool)
      requires Valid() && e in entities
      modifies this`entities
      ensures Valid()
      ensures Flag(e, name) == value
      ensures forall other | other != name :: Flag(e, other) == old(Flag(e, other))
      ensures entities == old(entities)[e := old(entities[e]).(flags := entities[e].flags)]
    {
      var flags := if value then entities[e].flags + {name} else entities[e].flags - {name};
      assert ConnectionsOk(entities[e], entities.Keys);
      Update(e, entities[e].(flags := flags));
    }

    // -------------------------------------------------------------------------
    // Entity connections

    /** `getConnection`: the connection for `dir`, or None (`null`). */
    function GetConnection(e: EntityRef, dir: string): (r: Option<Connection>)
      reads this`entities
      ensures r.Some? ==> e in entities
      ensures AllConnected(entities) && r.Some? ==> OptIn(r.value.to, entities.Keys) && OptIn(r.value.associated, entities.Keys)
    {
      ConnectionOf(entities, e, dir)
    }

    /** `connectUnidirectional`: the entry for `dir` now leads to `to`, gated by `via`. */
    method ConnectUnidirectional(e: EntityRef, dir: string, to: Option<EntityRef>, via: Option<EntityRef>)
      requires Valid() && e in entities && OptIn(to, entities.Keys) && OptIn(via, entities.Keys)
      modifies this`entities
      ensures Valid()
      ensures entities == WithConnection(old(entities), e, dir, Connection(to, via))
    {
      assert ConnectionsOk(entities[e], entities.Keys);
      Update(e, entities[e].(connections := entities[e].connections[dir := Connection(to, via)]));
    }

    /**
     * `connectBidirectional`: `e` leads to `to` through `dirThere` and `to`
     * back to `e` through `dirBack`, both gated by `via`. The second entry is
     * written last, so it wins when both name the same entry of one entity.
     * A null `to` gets the forward entry, and then the method fails with a
     * `NullPointerException` (`thrown`) before writing the back entry.
     */
    method ConnectBidirectional(e: EntityRef, dirThere: string, via: Option<EntityRef>, dirBack: string, to: Option<EntityRef>)
      returns (thrown: bool)
      requires Valid() && e in entities && OptIn(to, entities.Keys) && OptIn(via, entities.Keys)
      modifies this`entities
      ensures Valid()
      ensures thrown <==> to.None?
      ensures thrown ==> entities == WithConnection(old(entities), e, dirThere, Connection(None, via))
      ensures !thrown ==> entities == WithConnection(WithConnection(old(entities), e, dirThere, Connection(to, via)),
                                                     to.value, dirBack, Connection(Some(e), via))
      ensures !thrown ==> GetConnection(to.value, dirBack) == Some(Connection(Some(e), via))
      ensures !thrown && (e != to.value || dirThere != dirBack) ==> GetConnection(e, dirThere) == Some(Connection(to, via))
    {
      ConnectUnidirectional(e, dirThere, to, via);
      if to.None? {
        return true;
      }
      ConnectUnidirectional(to.value, dirBack, Some(e), via);
      thrown := false;
    }

    /** `removeSingleConnection` */
    method RemoveSingleConnection(e: EntityRef, dir: string)
      requires Valid() && e in entities
      modifies this`entities
      ensures Valid()
      ensures entities == WithoutConnection(old(entities), e, dir)
    {
      assert ConnectionsOk(entities[e], entities.Keys);
      Update(e, entities[e].(connections := entities[e].connections - {dir}));
    }

    /**
     * `removeBidirectionalConnection`: removes the entry for `dirThere` and,
     * only if there was one, the entry for `dirBack` of the entity it led to.
     * An entry that led to null is removed as well, and the method then fails
     * with a `NullPointerException` (`thrown`) before touching anything else.
     */
    method RemoveBidirectionalConnection(e: EntityRef, dirThere: string, dirBack: string) returns (thrown: bool)
      requires Valid() && e in entities
      modifies this`entities
      ensures Valid()
      ensures thrown <==> old(GetConnection(e, dirThere)).Some? && old(GetConnection(e, dirThere)).value.to.None?
      ensures thrown ==> entities == WithoutConnection(old(entities), e, dirThere)
      ensures !thrown ==> BackLinked(old(entities), e, dirThere)
      ensures !thrown ==> entities == WithoutBidirectional(old(entities), e, dirThere, dirBack)
    {
      thrown := false;
      var c := GetConnection(e, dirThere);
      ghost var m := entities;
      assert ConnectionsOk(entities[e], entities.Keys);
      RemoveSingleConnection(e, dirThere);
      if c.Some? {
        if c.value.to.None? {
          return true;
        }
        RemoveSingleConnection(c.value.to.value, dirBack);
        assert entities == WithoutConnection(WithoutConnection(m, e, dirThere), c.value.to.value, dirBack);
      } else {
        assert m[e].connections - {dirThere} == m[e].connections;
        assert entities[e] == m[e];
        assert entities == m;
      }
    }

    // -------------------------------------------------------------------------
    // EntitySet queries

    /** `getSize` (see `Links.WithMemberSize`). */
    function Size(s: SetRef): (r: nat)
      reads this`sets
      requires s in sets
      ensures r == 0 <==> sets[s].members == {}
    {
      |sets[s].members|
    }

    /** `collapse`: None on an empty set, the member of a singleton, some member otherwise. */
    method Collapse(s: SetRef) returns (r: Option<EntityRef>)
      requires s in sets
      ensures r.None? <==> sets[s].members == {}
      ensures r.Some? ==> r.value in sets[s].members
      ensures |sets[s].members| == 1 ==> sets[s].members == {r.value}
    {
      var members := sets[s].members;
      if members == {} {
        return None;
      }
      var x :| x in members;
      r := Some(x);
      if |members| == 1 {
        assert |members - {x}| == 0;
        assert members == {x};
      }
    }

    /** The stream `filter` of `getFiltered`: the entities of `xs` that `keep` accepts, in order. */
    static method Filtered(xs: seq<EntityRef>, keep: EntityRef -> bool) returns (kept: seq<EntityRef>)
      ensures forall x :: x in kept <==> x in xs && keep(x)
    {
      kept := [];
      var i := 0;
      while i < |xs|
        invariant 0 <= i <= |xs|
        invariant forall x :: x in kept <==> x in xs[..i] && keep(x)
      {
        assert xs[..i + 1] == xs[..i] + [xs[i]];
        if keep(xs[i]) {
          kept := kept + [xs[i]];
        }
        i := i + 1;
      }
      assert xs[..i] == xs;
    }

    /** `getFiltered`: a new temporary set of the members `keep` accepts. */
    method GetFiltered(s: SetRef, keep: EntityRef -> bool) returns (f: SetRef)
      requires Valid() && s in sets
      modifies this`sets, this`containingSets, this`setActions, this`nextSet
      ensures Valid()
      ensures f == old(nextSet) && f !in old(sets) && f in sets && sets[f].name == None
      ensures forall x :: x in sets[f].members <==> x in old(sets[s].members) && keep(x)
      ensures forall t | t in old(sets) :: t in sets && sets[t] == old(sets[t])
      ensures containingSets == old(containingSets) && location == old(location) && contents == old(contents)
      ensures sets.Keys == old(sets).Keys + {f} && nextSet == old(nextSet) + 1
      ensures setActions == old(setActions)[f := map[]]
    {
      ghost var g := Links();
      assert SetOk(g, s);
      var xs := Enumerate(sets[s].members);
      var kept := Filtered(xs, keep);
      f := NewSet(None, kept);
      FreshSetMembers(g, None, kept);
    }

    // -------------------------------------------------------------------------
    // Player actions

    /** `EntitySet.getPlayerActions`: the actions of set `s` under `id`, in registration order. */
    function SetActionsUnder(s: SetRef, id: string): (r: seq<PlayerAction>)
      reads this`setActions
      ensures s !in setActions || id !in setActions[s] ==> r == []
      ensures s in setActions && id in setActions[s] ==> r == setActions[s][id]
    {
      SetActionsOf(setActions, s, id)
    }

    /** `EntitySet.pushPlayerAction`: a new action needing one entity of `s`, appended under `id`. */
    method PushSetAction(s: SetRef, id: string, executor: seq<EntityRef> -> bool) returns (a: PlayerAction)
      requires Valid() && s in sets
      modifies this`setActions
      ensures Valid() && fresh(a) && a.Valid()
      ensures a.id == id && a.executor == executor && a.entries == [SignatureEntry(s, 1)] && a.total == 1
      ensures setActions == old(setActions)[s := Registered(old(setActions[s]), id, a)]
      ensures SetActionsUnder(s, id) == old(SetActionsUnder(s, id)) + [a]
      ensures forall t, other | t != s || other != id :: SetActionsUnder(t, other) == old(SetActionsUnder(t, other))
    {
      a := new PlayerAction(id, executor);
      a.PushVaryingNeededEntities(s, 1);
      setActions := setActions[s := Registered(setActions[s], id, a)];
    }

    /**
     * `Entity.pushPlayerAction`: a new action needing `e` itself (through a
     * new temporary set holding `e`), appended under `id`.
     */
    method PushPlayerAction(e: EntityRef, id: string, executor: seq<EntityRef> -> bool) returns (a: PlayerAction)
      requires Valid() && e in entities
      modifies this`entities, this`sets, this`containingSets, this`setActions, this`nextSet
      ensures Valid() && fresh(a) && a.Valid()
      ensures a.id == id && a.executor == executor && a.entries == [SignatureEntry(old(nextSet), 1)] && a.total == 1
      ensures Links() == WithMembers(WithSet(old(Links()), None), old(nextSet), [e])
      ensures setActions == old(setActions)[old(nextSet) := map[]]
      ensures entities == old(entities)[e := old(entities[e]).(playerActions := Registered(old(entities[e].playerActions), id, a))]
    {
      a := new PlayerAction(id, executor);
      a.PushNeededEntity(e, this);
      assert ConnectionsOk(entities[e], entities.Keys);
      Update(e, entities[e].(playerActions := Registered(entities[e].playerActions, id, a)));
    }

    /** The private `tryExecutePlayerAction(actions, ...)`: the first success wins. */
    method TryActions(actions: seq<PlayerAction>, e: EntityRef, secondary: Option<SetRef>, order: seq<EntityRef>)
      returns (r: bool)
      requires Secondary(secondary, order)
      requires forall a | a in actions :: a.Ready(this)
      ensures r <==> exists a | a in actions :: a.Succeeds(Some(e), order, this)
    {
      var i := 0;
      while i < |actions|
        invariant 0 <= i <= |actions|
        invariant forall j | 0 <= j < i :: !actions[j].Succeeds(Some(e), order, this)
      {
        r := actions[i].TryExecute(Some(e), secondary, order, this);
        if r {
          return;
        }
        i := i + 1;
      }
      r := false;
    }

    /** `secondary` is a set of the world and `order` enumerates it; no set, no entities. */
    ghost predicate Secondary(secondary: Option<SetRef>, order: seq<EntityRef>)
      reads this`sets
    {
      match secondary
      case None => order == []
      case Some(s) => s in sets && Enumerates(order, sets[s].members)
    }

    /**
     * Both `tryExecutePlayerAction` overloads (the second passes no
     * secondary set): own actions first, then each containing set's; true
     * iff one of them executed with success. `actions` names the candidate
     * list of the call.
     */
    method TryExecutePlayerAction(e: EntityRef, id: string, secondary: Option<SetRef>, order: seq<EntityRef>,
                                  setOrder: seq<SetRef>, ghost actions: seq<PlayerAction>) returns (r: bool)
      requires e in entities && e in containingSets && Enumerates(setOrder, containingSets[e])
      requires Secondary(secondary, order)
      requires actions == Candidates(entities[e].playerActions, setActions, id, setOrder)
      requires forall a | a in actions :: a.Ready(this)
      ensures r <==> exists a | a in actions :: a.Succeeds(Some(e), order, this)
    {
      var own := ActionsUnder(entities[e].playerActions, id);
      r := TryActions(own, e, secondary, order);
      if r {
        return;
      }
      var j := 0;
      while j < |setOrder|
        invariant 0 <= j <= |setOrder|
        invariant forall a | a in SetCandidates(setActions, setOrder[..j], id) :: a in actions && a.Ready(this) && !a.Succeeds(Some(e), order, this)
      {
        ghost var done := SetCandidates(setActions, setOrder[..j], id);
        var next := SetActionsUnder(setOrder[j], id);
        assert setOrder[..j + 1][..j] == setOrder[..j];
        assert SetCandidates(setActions, setOrder[..j + 1], id) == done + next;
        SetCandidatesPrefix(setActions, setOrder, id, j + 1);
        forall a | a in next ensures a in actions && a.Ready(this) {
          assert a in done + next;
        }
        r := TryActions(next, e, secondary, order);
        if r {
          return;
        }
        forall a | a in SetCandidates(setActions, setOrder[..j + 1], id) ensures a in actions && a.Ready(this) && !a.Succeeds(Some(e), order, this) {
          assert a in done || a in next;
        }
        j := j + 1;
      }
      assert setOrder[..j] == setOrder;
    }
  }

  // ---------------------------------------------------------------------------
  // PlayerAction

  /** The count of every signature entry. */
  function EntryCounts(entries: seq<SignatureEntry>): (r: seq<nat>)
    ensures |r| == |entries| && forall i | 0 <= i < |entries| :: r[i] == entries[i].count
  {
    seq(|entries|, i requires 0 <= i < |entries| => entries[i].count)
  }

  /** A signature's entries as slots: each entry's set members (as they are now) and count. */
  function SlotsOf(entries: seq<SignatureEntry>, sets: map<SetRef, SetData>): (r: seq<Slot>)
    requires forall i | 0 <= i < |entries| :: entries[i].entities in sets
    ensures |r| == |entries|
    ensures forall i | 0 <= i < |entries| :: r[i] == Slot(sets[entries[i].entities].members, entries[i].count)
    ensures Counts(r) == EntryCounts(entries)
  {
    var r := seq(|entries|, i requires 0 <= i < |entries| => Slot(sets[entries[i].entities].members, entries[i].count));
    assert Counts(r) == EntryCounts(entries);
    r
  }

  /**
   * A player action: an id, an executor and a signature of slots, each
   * asking for `count` entities of a set.
   */
  class PlayerAction {
    const id: string
    /** The executor's verdict on the entities it is handed (`PlayerActionExecutor`). */
    const executor: seq<EntityRef> -> bool
    /** `signatureEntries` */
    var entries: seq<SignatureEntry>
    /** `neededEntitiesTotalCount` */
    var total: nat

    /** The total is the sum of the counts, and the first slot asks for at least one entity. */
    ghost predicate Valid()
      reads this
    {
      total == Sum(EntryCounts(entries)) && (|entries| == 0 || entries[0].count >= 1)
    }

    constructor (id: string, executor: seq<EntityRef> -> bool)
      ensures Valid() && this.id == id && this.executor == executor && entries == [] && total == 0
    {
      this.id, this.executor := id, executor;
      entries, total := [], 0;
    }

    /** `pushVaryingNeededEntites`: a slot for `count` entities of `s`; the total grows by `count`. */
    method PushVaryingNeededEntities(s: SetRef, count: nat)
      requires Valid() && (|entries| > 0 || count >= 1)
      modifies this`entries, this`total
      ensures Valid()
      ensures entries == old(entries) + [SignatureEntry(s, count)] && total == old(total) + count
    {
      assert EntryCounts(entries + [SignatureEntry(s, count)]) == EntryCounts(entries) + [count];
      SumAppend(EntryCounts(entries), count);
      entries := entries + [SignatureEntry(s, count)];
      total := total + count;
    }

    /** `pushNeededEntity`: a slot for exactly `e`, through a new temporary set holding `e`. */
    method PushNeededEntity(e: EntityRef, world: World)
      requires Valid() && world.Valid() && e in world.entities
      modifies this`entries, this`total, world`sets, world`containingSets, world`setActions, world`nextSet
      ensures Valid() && world.Valid()
      ensures entries == old(entries) + [SignatureEntry(old(world.nextSet), 1)] && total == old(total) + 1
      ensures world.Links() == WithMembers(WithSet(old(world.Links()), None), old(world.nextSet), [e])
      ensures world.setActions == old(world.setActions)[old(world.nextSet) := map[]]
    {
      var s := world.NewSet(None, [e]);
      PushVaryingNeededEntities(s, 1);
    }

    /** Every slot's set is a set of `world`. */
    ghost predicate Ready(world: World)
      reads this, world`sets
    {
      Valid() && forall i | 0 <= i < |entries| :: entries[i].entities in world.sets
    }

    /** The signature as slots of `world`. */
    function SlotsIn(world: World): seq<Slot>
      reads this`entries, world`sets
      requires forall i | 0 <= i < |entries| :: entries[i].entities in world.sets
    {
      SlotsOf(entries, world.sets)
    }

    /** `tryExecute` returns true on these entities. */
    ghost predicate Succeeds(primary: Option<EntityRef>, order: seq<EntityRef>, world: World)
      reads this, world`sets
      requires Ready(world)
    {
      Outcome(SlotsIn(world), primary, order, executor)
    }

    /**
     * One pass of `tryExecute`'s inner loop: `e` goes to the next free
     * position of the first slot, in slot order, that has room and accepts it.
     */
    method Place(counts: array<nat>, cells: array<Option<EntityRef>>, e: EntityRef, world: World)
      requires Ready(world)
      requires WellFormed(SlotsIn(world), Placement(counts[..], cells[..]))
      modifies counts, cells
      ensures Placement(counts[..], cells[..]) == PlaceOne(SlotsIn(world), old(Placement(counts[..], cells[..])), e)
    {
      ghost var slots := SlotsIn(world);
      ghost var pl := Placement(counts[..], cells[..]);
      var idx := 0;
      var i := 0;
      while i < |entries|
        invariant 0 <= i <= |entries| && idx == Offset(slots, i)
        invariant counts[..] == pl.counts && cells[..] == pl.cells
        invariant FirstFit(slots, pl.counts, e, 0) == FirstFit(slots, pl.counts, e, i)
      {
        var entry := entries[i];
        if counts[i] != entry.count && e in world.sets[entry.entities].members {
          OffsetBounds(slots, i);
          cells[idx + counts[i]] := Some(e);
          counts[i] := counts[i] + 1;
          return;
        }
        OffsetBounds(slots, i);
        idx := idx + entry.count;
        i := i + 1;
      }
    }

    /**
     * `tryExecute`: false when the number of supplied entities is not the
     * total, when the primary entity is not accepted by the first slot, or
     * when the greedy placement leaves a position empty; otherwise the
     * executor's verdict on the placed entities.
     */
    method TryExecute(primary: Option<EntityRef>, secondary: Option<SetRef>, order: seq<EntityRef>, world: World)
      returns (r: bool)
      requires Ready(world) && world.Secondary(secondary, order)
      ensures r == Outcome(SlotsIn(world), primary, order, executor)
    {
      var size := 0;
      if secondary.Some? {
        EnumerationLength(order, world.sets[secondary.value].members);
        size := world.Size(secondary.value);
      }
      if (if primary.Some? then 1 else 0) + size != total {
        return false;
      }
      if primary.Some? && (|entries| == 0 || primary.value !in world.sets[entries[0].entities].members) {
        return false;
      }
      var cells := Fill(primary, order, world);
      var filled := AllFilled(cells);
      if !filled {
        return false;
      }
      r := executor(Values(cells[..]));
    }

    /** The arrays of `tryExecute` after the primary entity and then every secondary one were placed. */
    method Fill(primary: Option<EntityRef>, order: seq<EntityRef>, world: World) returns (cells: array<Option<EntityRef>>)
      requires Ready(world)
      requires primary.Some? ==> |entries| > 0 && primary.value in world.sets[entries[0].entities].members
      ensures cells[..] == PlaceAll(SlotsIn(world), Start(SlotsIn(world), primary), order).cells
    {
      ghost var slots := SlotsIn(world);
      ghost var start := Start(slots, primary);
      var counts;
      counts, cells := Seed(primary, world);
      var k := 0;
      while k < |order|
        invariant 0 <= k <= |order|
        invariant Placement(counts[..], cells[..]) == PlaceAll(slots, start, order[..k])
      {
        PlaceAllNext(slots, start, order, k);
        Place(counts, cells, order[k], world);
        k := k + 1;
      }
      assert order[..k] == order;
    }

    /** The fresh arrays of `tryExecute`, with the primary entity, if any, in the first position. */
    method Seed(primary: Option<EntityRef>, world: World) returns (counts: array<nat>, cells: array<Option<EntityRef>>)
      requires Ready(world)
      requires primary.Some? ==> |entries| > 0 && primary.value in world.sets[entries[0].entities].members
      ensures fresh(counts) && fresh(cells)
      ensures Placement(counts[..], cells[..]) == Start(SlotsIn(world), primary)
    {
      ghost var slots := SlotsIn(world);
      counts := new nat[|entries|](_ => 0);
      cells := new Option<EntityRef>[total](_ => None);
      if primary.Some? {
        PositionSetsAt(slots, 0, 0);
        cells[counts[0]] := primary;
        counts[0] := counts[0] + 1;
      }
    }
  }

  /** No position of `cells` is empty. */
  method AllFilled(cells: array<Option<EntityRef>>) returns (b: bool)
    ensures b <==> forall q | 0 <= q < cells.Length :: cells[q].Some?
  {
    var p := 0;
    while p < cells.Length
      invariant 0 <= p <= cells.Length
      invariant forall q | 0 <= q < p :: cells[q].Some?
    {
      if cells[p].None? {
        return false;
      }
      p := p + 1;
    }
    return true;
  }
}
