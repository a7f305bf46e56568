/**
 * The links between entities and entity sets, as one value: where each
 * entity is, which persistent set holds its contents, which persistent sets
 * contain it, and the members of every set. `Coherent` is the invariant the
 * Java classes keep between calls; the functions here are the updates that
 * `Entity` and `EntitySet` make to these links, each with a lemma saying
 * that it keeps the invariant.
 */
module Links {
  import opened Common
  import opened Containment

  /** The name and members of an entity set; a set without a name is temporary. */
  datatype SetData = SetData(name: Option<string>, members: set<EntityRef>)

  /**
   * `Entity.location`, `Entity.contents` and `Entity.containingPersistentSets`
   * of every entity, the data of every set, and the next free handles.
   */
  datatype Graph = Graph(
    location: LocationMap,
    contents: map<EntityRef, SetRef>,
    containing: map<EntityRef, set<SetRef>>,
    sets: map<SetRef, SetData>,
    nextEntity: nat,
    nextSet: nat)

  // ---------------------------------------------------------------------------
  // The invariant, one object or one pair at a time

  /** `e` is an entity, located in an entity or nowhere, owning a named contents set. */
  ghost predicate EntityOk(g: Graph, e: EntityRef) {
    && e in g.location && e in g.containing && e in g.contents
    && (g.location[e].Some? ==> g.location[e].value in g.contents)
    && g.contents[e] in g.sets && g.sets[g.contents[e]].name.Some?
    && g.containing[e] <= g.sets.Keys
  }

  /** `s` is a set whose members are entities. */
  ghost predicate SetOk(g: Graph, s: SetRef) {
    s in g.sets && g.sets[s].members <= g.contents.Keys
  }

  /** A named set `s` is in `e`'s index of containing sets exactly when `e` is a member. */
  ghost predicate IndexedAt(g: Graph, e: EntityRef, s: SetRef) {
    && s in g.sets && e in g.containing
    && ((g.sets[s].name.Some? && e in g.sets[s].members) <==> s in g.containing[e])
  }

  /** `e` is located in `p` exactly when `e` is in `p`'s contents. */
  ghost predicate SymmetricAt(g: Graph, e: EntityRef, p: EntityRef) {
    && e in g.location && p in g.contents && g.contents[p] in g.sets
    && (g.location[e] == Some(p) <==> e in g.sets[g.contents[p]].members)
  }

  /** Every entity has all three fields, handles are below the next free ones, contents sets are not shared. */
  ghost predicate Shaped(g: Graph) {
    && g.location.Keys == g.contents.Keys && g.containing.Keys == g.contents.Keys
    && (forall e | e in g.contents :: e < g.nextEntity)
    && (forall s | s in g.sets :: s < g.nextSet)
    && (forall e, f | e in g.contents && f in g.contents && e != f :: g.contents[e] != g.contents[f])
  }

  ghost predicate Located(g: Graph) {
    forall e {:trigger EntityOk(g, e)} | e in g.contents :: EntityOk(g, e)
  }

  ghost predicate Populated(g: Graph) {
    forall s {:trigger SetOk(g, s)} | s in g.sets :: SetOk(g, s)
  }

  ghost predicate Indexed(g: Graph) {
    forall e, s {:trigger IndexedAt(g, e, s)} | e in g.contents && s in g.sets :: IndexedAt(g, e, s)
  }

  ghost predicate Symmetric(g: Graph) {
    forall e, p {:trigger SymmetricAt(g, e, p)} | e in g.contents && p in g.contents :: SymmetricAt(g, e, p)
  }

  /** The invariant: the facts above, and no entity contains itself. */
  ghost predicate Coherent(g: Graph) {
    Shaped(g) && Located(g) && Populated(g) && Indexed(g) && Symmetric(g) && Acyclic(g.location)
  }

  /** `s` is some entity's contents set. */
  ghost predicate IsContentsSet(g: Graph, s: SetRef) {
    exists e | e in g.contents :: g.contents[e] == s
  }

  // ---------------------------------------------------------------------------
  // EntitySet.add and EntitySet.remove, one entity at a time

  /** `add` of one entity: a named set enters the entity's index only when the entity is new to it. */
  function WithMember(g: Graph, s: SetRef, e: EntityRef): (r: Graph)
    requires s in g.sets && e in g.containing
    ensures r.location == g.location && r.contents == g.contents
    ensures r.nextEntity == g.nextEntity && r.nextSet == g.nextSet
    ensures r.sets == g.sets[s := g.sets[s].(members := g.sets[s].members + {e})]
    ensures r.containing.Keys == g.containing.Keys
    ensures forall x | x in g.containing && x != e :: r.containing[x] == g.containing[x]
    ensures s in r.containing[e] <==> s in g.containing[e] || (g.sets[s].name.Some? && e !in g.sets[s].members)
    ensures forall t | t != s :: t in r.containing[e] <==> t in g.containing[e]
    ensures e in g.sets[s].members ==> r == g
    ensures g.sets[s].name.None? ==> r.containing == g.containing
  {
    if e in g.sets[s].members then
      assert g.sets[s].(members := g.sets[s].members + {e}) == g.sets[s];
      g
    else
      var r := g.(sets := g.sets[s := g.sets[s].(members := g.sets[s].members + {e})]);
      if g.sets[s].name.Some? then r.(containing := g.containing[e := g.containing[e] + {s}]) else r
  }

  /** `remove` of one entity: a named set leaves the entity's index only when the entity was a member. */
  function WithoutMember(g: Graph, s: SetRef, e: EntityRef): (r: Graph)
    requires s in g.sets && e in g.containing
    ensures r.location == g.location && r.contents == g.contents
    ensures r.nextEntity == g.nextEntity && r.nextSet == g.nextSet
    ensures r.sets == g.sets[s := g.sets[s].(members := g.sets[s].members - {e})]
    ensures r.containing.Keys == g.containing.Keys
    ensures forall x | x in g.containing && x != e :: r.containing[x] == g.containing[x]
    ensures s in r.containing[e] <==> s in g.containing[e] && !(g.sets[s].name.Some? && e in g.sets[s].members)
    ensures forall t | t != s :: t in r.containing[e] <==> t in g.containing[e]
    ensures e !in g.sets[s].members ==> r == g
    ensures g.sets[s].name.None? ==> r.containing == g.containing
  {
    if e !in g.sets[s].members then
      assert g.sets[s].(members := g.sets[s].members - {e}) == g.sets[s];
      g
    else
      var r := g.(sets := g.sets[s := g.sets[s].(members := g.sets[s].members - {e})]);
      if g.sets[s].name.Some? then r.(containing := g.containing[e := g.containing[e] - {s}]) else r
  }

  /**
   * What adding or removing `e` in set `s` changes: the members of `s` other
   * than `e`, the names and the other sets stay, and of the index only `e`'s
   * entry for `s` may change.
   */
  ghost predicate MembershipChange(g: Graph, r: Graph, s: SetRef, e: EntityRef) {
    && s in g.sets && e in g.contents && e in g.containing
    && r.location == g.location && r.contents == g.contents
    && r.nextEntity == g.nextEntity && r.nextSet == g.nextSet
    && r.sets.Keys == g.sets.Keys && r.containing.Keys == g.containing.Keys
    && (forall t | t in g.sets :: r.sets[t].name == g.sets[t].name)
    && (forall t | t in g.sets && t != s :: r.sets[t] == g.sets[t])
    && r.sets[s].members - {e} == g.sets[s].members - {e}
    && (forall x | x in g.containing && x != e :: r.containing[x] == g.containing[x])
    && (forall t | t != s :: t in r.containing[e] <==> t in g.containing[e])
  }

  lemma MembershipChangeLocated(g: Graph, r: Graph, s: SetRef, e: EntityRef)
    requires Shaped(g) && Located(g) && MembershipChange(g, r, s, e)
    ensures Located(r)
  {
    forall x | x in r.contents ensures EntityOk(r, x) {
      assert EntityOk(g, x);
    }
  }

  lemma MembershipChangePopulated(g: Graph, r: Graph, s: SetRef, e: EntityRef)
    requires Populated(g) && MembershipChange(g, r, s, e)
    ensures Populated(r)
  {
    forall t | t in r.sets ensures SetOk(r, t) {
      assert SetOk(g, t);
      forall y | y in r.sets[t].members ensures y in r.contents {
        if t == s && y != e {
          assert y in r.sets[s].members - {e};
        }
      }
    }
  }

  lemma MembershipChangeIndexed(g: Graph, r: Graph, s: SetRef, e: EntityRef)
    requires Shaped(g) && Indexed(g) && MembershipChange(g, r, s, e) && IndexedAt(r, e, s)
    ensures Indexed(r)
  {
    forall x, t | x in r.contents && t in r.sets ensures IndexedAt(r, x, t) {
      assert IndexedAt(g, x, t);
      if x != e && t == s {
        assert x in r.sets[s].members - {e} <==> x in g.sets[s].members - {e};
      }
    }
  }

  lemma MembershipChangeSymmetric(g: Graph, r: Graph, s: SetRef, e: EntityRef)
    requires Shaped(g) && Located(g) && Symmetric(g) && MembershipChange(g, r, s, e) && !IsContentsSet(g, s)
    ensures Symmetric(r)
  {
    forall x, q | x in r.contents && q in r.contents ensures SymmetricAt(r, x, q) {
      assert SymmetricAt(g, x, q) && EntityOk(g, q);
      assert r.contents[q] != s;
    }
  }

  /** Changing the members of a set that is no entity's contents keeps the invariant, given the index entry. */
  lemma MembershipChangeKeeps(g: Graph, r: Graph, s: SetRef, e: EntityRef)
    requires Coherent(g) && MembershipChange(g, r, s, e) && !IsContentsSet(g, s) && IndexedAt(r, e, s)
    requires r.containing[e] <= g.containing[e] + {s}
    ensures Coherent(r)
  {
    MembershipChangeLocated(g, r, s, e);
    MembershipChangePopulated(g, r, s, e);
    MembershipChangeIndexed(g, r, s, e);
    MembershipChangeSymmetric(g, r, s, e);
  }

  /** Adding an entity to a set that is no entity's contents keeps the invariant. */
  lemma WithMemberKeeps(g: Graph, s: SetRef, e: EntityRef)
    requires Coherent(g) && s in g.sets && !IsContentsSet(g, s) && e in g.contents
    ensures Coherent(WithMember(g, s, e))
  {
    assert IndexedAt(g, e, s);
    MembershipChangeKeeps(g, WithMember(g, s, e), s, e);
  }

  /** Removing an entity from a set that is no entity's contents keeps the invariant. */
  lemma WithoutMemberKeeps(g: Graph, s: SetRef, e: EntityRef)
    requires Coherent(g) && s in g.sets && !IsContentsSet(g, s) && e in g.contents
    ensures Coherent(WithoutMember(g, s, e))
  {
    assert IndexedAt(g, e, s);
    MembershipChangeKeeps(g, WithoutMember(g, s, e), s, e);
  }

  // ---------------------------------------------------------------------------
  // EntitySet.add and EntitySet.remove over an argument list

  /** `add(es...)`: the entities are added one after the other, in argument order. */
  function WithMembers(g: Graph, s: SetRef, es: seq<EntityRef>): (r: Graph)
    requires s in g.sets && forall x | x in es :: x in g.containing
    ensures r.location == g.location && r.contents == g.contents
    ensures r.nextEntity == g.nextEntity && r.nextSet == g.nextSet
    ensures r.sets.Keys == g.sets.Keys && r.containing.Keys == g.containing.Keys
    ensures r.sets[s].name == g.sets[s].name
    ensures forall x :: x in r.sets[s].members <==> x in g.sets[s].members || x in es
    ensures forall t | t in g.sets && t != s :: r.sets[t] == g.sets[t]
    ensures g.sets[s].name.None? ==> r.containing == g.containing
    decreases |es|
  {
    if es == [] then g
    else
      var last := |es| - 1;
      var h := WithMembers(g, s, es[..last]);
      WithMember(h, s, es[last])
  }

  /** `remove(es...)`: the entities are removed one after the other, in argument order. */
  function WithoutMembers(g: Graph, s: SetRef, es: seq<EntityRef>): (r: Graph)
    requires s in g.sets && forall x | x in es :: x in g.containing
    ensures r.location == g.location && r.contents == g.contents
    ensures r.nextEntity == g.nextEntity && r.nextSet == g.nextSet
    ensures r.sets.Keys == g.sets.Keys && r.containing.Keys == g.containing.Keys
    ensures r.sets[s].name == g.sets[s].name
    ensures forall x :: x in r.sets[s].members <==> x in g.sets[s].members && x !in es
    ensures forall t | t in g.sets && t != s :: r.sets[t] == g.sets[t]
    decreases |es|
  {
    if es == [] then g
    else
      var last := |es| - 1;
      var h := WithoutMembers(g, s, es[..last]);
      WithoutMember(h, s, es[last])
  }

  /** Adding entities to a set that is no entity's contents keeps the invariant. */
  lemma {:induction false} WithMembersKeeps(g: Graph, s: SetRef, es: seq<EntityRef>)
    requires Coherent(g) && s in g.sets && !IsContentsSet(g, s) && forall x | x in es :: x in g.contents
    ensures Coherent(WithMembers(g, s, es))
    decreases |es|
  {
    if es != [] {
      var last := |es| - 1;
      WithMembersKeeps(g, s, es[..last]);
      WithMemberKeeps(WithMembers(g, s, es[..last]), s, es[last]);
    }
  }

  /** Removing entities from a set that is no entity's contents keeps the invariant. */
  lemma {:induction false} WithoutMembersKeeps(g: Graph, s: SetRef, es: seq<EntityRef>)
    requires Coherent(g) && s in g.sets && !IsContentsSet(g, s) && forall x | x in es :: x in g.contents
    ensures Coherent(WithoutMembers(g, s, es))
    decreases |es|
  {
    if es != [] {
      var last := |es| - 1;
      WithoutMembersKeeps(g, s, es[..last]);
      WithoutMemberKeeps(WithoutMembers(g, s, es[..last]), s, es[last]);
    }
  }

  // ---------------------------------------------------------------------------
  // Creating sets and entities

  /** A new, empty set with handle `g.nextSet`. */
  function WithSet(g: Graph, name: Option<string>): (r: Graph)
    ensures r.sets == g.sets[g.nextSet := SetData(name, {})] && r.nextSet == g.nextSet + 1
    ensures r.location == g.location && r.contents == g.contents && r.containing == g.containing
    ensures r.nextEntity == g.nextEntity
  {
    g.(sets := g.sets[g.nextSet := SetData(name, {})], nextSet := g.nextSet + 1)
  }

  /**
   * A new set filled with `es` (the `EntitySet` constructor) holds exactly
   * `es`; no other set changes, and a temporary one touches no index.
   */
  lemma FreshSetMembers(g: Graph, name: Option<string>, es: seq<EntityRef>)
    requires forall x | x in es :: x in g.containing
    ensures var r := WithMembers(WithSet(g, name), g.nextSet, es);
      && g.nextSet in r.sets && r.sets[g.nextSet].name == name
      && (forall x :: x in r.sets[g.nextSet].members <==> x in es)
      && (forall t | t in g.sets && t != g.nextSet :: r.sets[t] == g.sets[t])
      && (name.None? ==> r.containing == g.containing)
  {
  }

  /** Adding a member grows a set by one, unless it was a member already. */
  lemma WithMemberSize(g: Graph, s: SetRef, e: EntityRef)
    requires s in g.sets && e in g.containing
    ensures |WithMember(g, s, e).sets[s].members| == |g.sets[s].members| + (if e in g.sets[s].members then 0 else 1)
  {
  }

  /** Every contents set is allocated, hence below the next free set handle. */
  lemma ContentsAllocated(g: Graph)
    requires Shaped(g) && Located(g)
    ensures forall x | x in g.contents :: g.contents[x] in g.sets && g.contents[x] < g.nextSet
  {
    forall x | x in g.contents ensures g.contents[x] in g.sets && g.contents[x] < g.nextSet {
      assert EntityOk(g, x);
    }
  }

  /** A new set is nobody's contents, and allocating it keeps the invariant. */
  lemma WithSetKeeps(g: Graph, name: Option<string>)
    requires Coherent(g)
    ensures Coherent(WithSet(g, name)) && !IsContentsSet(WithSet(g, name), g.nextSet)
  {
    var r := WithSet(g, name);
    ContentsAllocated(g);
    forall x | x in r.contents ensures EntityOk(r, x) {
      assert EntityOk(g, x);
    }
    forall t | t in r.sets ensures SetOk(r, t) {
      if t != g.nextSet {
        assert SetOk(g, t);
      }
    }
    forall x, t | x in r.contents && t in r.sets ensures IndexedAt(r, x, t) {
      assert EntityOk(g, x);
      if t != g.nextSet {
        assert IndexedAt(g, x, t);
      }
    }
    forall x, q | x in r.contents && q in r.contents ensures SymmetricAt(r, x, q) {
      assert SymmetricAt(g, x, q);
    }
  }

  /** The contents set of a new entity: a persistent set named after the entity. */
  function ContentsName(id: string): string {
    id + "::contents"
  }

  /**
   * `new Entity(id, ...)`: the entity `g.nextEntity`, located nowhere, in no
   * set, owning the new empty set `g.nextSet` as its contents.
   */
  function WithEntity(g: Graph, id: string): (r: Graph)
    ensures r.sets == g.sets[g.nextSet := SetData(Some(ContentsName(id)), {})] && r.nextSet == g.nextSet + 1
    ensures r.location == g.location[g.nextEntity := None]
    ensures r.contents == g.contents[g.nextEntity := g.nextSet]
    ensures r.containing == g.containing[g.nextEntity := {}]
    ensures r.nextEntity == g.nextEntity + 1
  {
    var h := WithSet(g, Some(ContentsName(id)));
    h.(location := h.location[g.nextEntity := None],
       contents := h.contents[g.nextEntity := g.nextSet],
       containing := h.containing[g.nextEntity := {}],
       nextEntity := g.nextEntity + 1)
  }

  lemma WithEntityLocated(g: Graph, id: string)
    requires Shaped(g) && Located(g)
    ensures Located(WithEntity(g, id))
  {
    var r := WithEntity(g, id);
    forall x | x in r.contents ensures EntityOk(r, x) {
      if x != g.nextEntity {
        assert EntityOk(g, x);
      }
    }
  }

  lemma WithEntityPopulated(g: Graph, id: string)
    requires Populated(g)
    ensures Populated(WithEntity(g, id))
  {
    var r := WithEntity(g, id);
    forall t | t in r.sets ensures SetOk(r, t) {
      if t != g.nextSet {
        assert SetOk(g, t);
      }
    }
  }

  lemma WithEntityIndexed(g: Graph, id: string)
    requires Shaped(g) && Located(g) && Populated(g) && Indexed(g)
    ensures Indexed(WithEntity(g, id))
  {
    var r := WithEntity(g, id);
    var e, c := g.nextEntity, g.nextSet;
    forall x, t | x in r.contents && t in r.sets ensures IndexedAt(r, x, t) {
      if x != e {
        assert EntityOk(g, x);
        if t != c {
          assert IndexedAt(g, x, t);
        }
      } else if t != c {
        assert SetOk(g, t);
      }
    }
  }

  lemma WithEntitySymmetric(g: Graph, id: string)
    requires Shaped(g) && Located(g) && Populated(g) && Symmetric(g)
    ensures Symmetric(WithEntity(g, id))
  {
    var r := WithEntity(g, id);
    var e := g.nextEntity;
    ContentsAllocated(g);
    forall x, q | x in r.contents && q in r.contents ensures SymmetricAt(r, x, q) {
      if x != e && q != e {
        assert SymmetricAt(g, x, q);
      } else if x != e {
        assert EntityOk(g, x);
      } else if q != e {
        assert SetOk(g, g.contents[q]);
      }
    }
  }

  /** Creating an entity keeps the invariant. */
  lemma WithEntityKeeps(g: Graph, id: string)
    requires Coherent(g)
    ensures Coherent(WithEntity(g, id))
  {
    ContentsAllocated(g);
    WithEntityLocated(g, id);
    WithEntityPopulated(g, id);
    WithEntityIndexed(g, id);
    WithEntitySymmetric(g, id);
    RelinkKeepsAcyclic(g.location, g.nextEntity, None);
  }

  // ---------------------------------------------------------------------------
  // Entity.setLocation, once both checks have passed and the location changes

  /** The contents set of `p`, when `p` is an entity. */
  function ContentsOf(g: Graph, p: Option<EntityRef>): Option<SetRef>
    requires p.Some? ==> p.value in g.contents
  {
    match p
    case None => None
    case Some(q) => Some(g.contents[q])
  }

  /** `t`, its location and `target` are entities whose contents sets exist. */
  ghost predicate Movable(g: Graph, t: EntityRef, target: Option<EntityRef>) {
    && t in g.location && t in g.containing
    && (g.location[t].Some? ==> g.location[t].value in g.contents && g.contents[g.location[t].value] in g.sets)
    && (target.Some? ==> target.value in g.contents && g.contents[target.value] in g.sets)
  }

  /**
   * The successful branch of `setLocation`: `t` leaves the contents of its old
   * location, its location becomes `target`, and it joins `target`'s contents.
   */
  function Relocated(g: Graph, t: EntityRef, target: Option<EntityRef>): (r: Graph)
    requires Movable(g, t, target)
    ensures r.contents == g.contents && r.sets.Keys == g.sets.Keys
  {
    var left := match g.location[t]
      case None => g
      case Some(o) => WithoutMember(g, g.contents[o], t);
    var moved := left.(location := left.location[t := target]);
    match target
    case None => moved
    case Some(n) => WithMember(moved, moved.contents[n], t)
  }

  /**
   * What a relink of `t` from its old location to `target` changes: the
   * location of `t`; `t`'s membership of the old and the new location's
   * contents, and those two entries of its index; nothing else.
   */
  ghost predicate Relinked(g: Graph, r: Graph, t: EntityRef, target: Option<EntityRef>)
    requires Movable(g, t, target)
  {
    var before, after := ContentsOf(g, g.location[t]), ContentsOf(g, target);
    && r.location == g.location[t := target] && r.contents == g.contents
    && r.nextEntity == g.nextEntity && r.nextSet == g.nextSet
    && r.sets.Keys == g.sets.Keys && r.containing.Keys == g.containing.Keys
    && (forall u | u in g.sets :: r.sets[u].name == g.sets[u].name)
    && (forall u, x | u in g.sets && x != t :: x in r.sets[u].members <==> x in g.sets[u].members)
    && (forall u | u in g.sets ::
          t in r.sets[u].members <==> Some(u) == after || (t in g.sets[u].members && Some(u) != before))
    && (forall x | x in g.containing && x != t :: r.containing[x] == g.containing[x])
    && (forall u ::
          u in r.containing[t] <==> Some(u) == after || (u in g.containing[t] && Some(u) != before))
  }

  /**
   * In a coherent graph, `t` is in its old location's contents and indexed
   * there, and is neither in a different target's contents nor indexed there.
   */
  ghost predicate RelinkFacts(g: Graph, t: EntityRef, target: Option<EntityRef>)
    requires Movable(g, t, target)
  {
    var before, after := ContentsOf(g, g.location[t]), ContentsOf(g, target);
    && (before.Some? ==> g.sets[before.value].name.Some? && t in g.sets[before.value].members && before.value in g.containing[t])
    && (after.Some? ==> g.sets[after.value].name.Some? && t !in g.sets[after.value].members && after.value !in g.containing[t])
    && (after.Some? ==> after != before)
  }

  lemma CoherentRelinkFacts(g: Graph, t: EntityRef, target: Option<EntityRef>)
    requires Coherent(g) && t in g.contents && (target.Some? ==> target.value in g.contents)
    requires g.location[t] != target
    ensures Movable(g, t, target) && RelinkFacts(g, t, target)
  {
    assert EntityOk(g, t);
    ContentsAllocated(g);
    if g.location[t].Some? {
      var o := g.location[t].value;
      assert EntityOk(g, o) && SymmetricAt(g, t, o) && IndexedAt(g, t, g.contents[o]);
    }
    if target.Some? {
      var n := target.value;
      assert EntityOk(g, n) && SymmetricAt(g, t, n) && IndexedAt(g, t, g.contents[n]);
    }
  }

  lemma RelocatedEffect(g: Graph, t: EntityRef, target: Option<EntityRef>)
    requires Movable(g, t, target) && RelinkFacts(g, t, target)
    ensures Relinked(g, Relocated(g, t, target), t, target)
  {
  }

  lemma RelinkedLocated(g: Graph, r: Graph, t: EntityRef, target: Option<EntityRef>)
    requires Shaped(g) && Located(g) && t in g.contents && (target.Some? ==> target.value in g.contents)
    requires EntityOk(g, t) && Movable(g, t, target) && Relinked(g, r, t, target)
    ensures Located(r)
  {
    ContentsAllocated(g);
    forall x | x in r.contents ensures EntityOk(r, x) {
      assert EntityOk(g, x);
    }
  }

  lemma RelinkedPopulated(g: Graph, r: Graph, t: EntityRef, target: Option<EntityRef>)
    requires Shaped(g) && Populated(g) && t in g.contents && (target.Some? ==> target.value in g.contents)
    requires EntityOk(g, t) && Movable(g, t, target) && Relinked(g, r, t, target)
    ensures Populated(r)
  {
    forall u | u in r.sets ensures SetOk(r, u) {
      assert SetOk(g, u);
    }
  }

  lemma RelinkedIndexed(g: Graph, r: Graph, t: EntityRef, target: Option<EntityRef>)
    requires Shaped(g) && Located(g) && Indexed(g) && t in g.contents && (target.Some? ==> target.value in g.contents)
    requires EntityOk(g, t) && Movable(g, t, target) && Relinked(g, r, t, target)
    ensures Indexed(r)
  {
    var before, after := ContentsOf(g, g.location[t]), ContentsOf(g, target);
    if after.Some? {
      assert EntityOk(g, target.value);
    }
    forall x, u | x in r.contents && u in r.sets ensures IndexedAt(r, x, u) {
      assert IndexedAt(g, x, u);
    }
  }

  lemma RelinkedSymmetric(g: Graph, r: Graph, t: EntityRef, target: Option<EntityRef>)
    requires Shaped(g) && Located(g) && Symmetric(g) && t in g.contents && (target.Some? ==> target.value in g.contents)
    requires EntityOk(g, t) && Movable(g, t, target) && Relinked(g, r, t, target)
    ensures Symmetric(r)
  {
    forall x, q | x in r.contents && q in r.contents ensures SymmetricAt(r, x, q) {
      assert SymmetricAt(g, x, q) && EntityOk(g, q);
    }
  }

  /** A relink that `setLocation` allows keeps the invariant. */
  lemma RelocatedKeeps(g: Graph, t: EntityRef, target: Option<EntityRef>)
    requires Coherent(g) && t in g.contents && (target.Some? ==> target.value in g.contents)
    requires g.location[t] != target && RelinkAllowed(g.location, t, target)
    ensures Movable(g, t, target) && Coherent(Relocated(g, t, target))
  {
    CoherentRelinkFacts(g, t, target);
    assert EntityOk(g, t);
    var r := Relocated(g, t, target);
    RelocatedEffect(g, t, target);
    RelinkedLocated(g, r, t, target);
    RelinkedPopulated(g, r, t, target);
    RelinkedIndexed(g, r, t, target);
    RelinkedSymmetric(g, r, t, target);
    RelinkKeepsAcyclic(g.location, t, target);
  }

  /** A `setLocation` to the current location is a relink that changes nothing. */
  lemma RelinkedInPlace(g: Graph, t: EntityRef)
    requires Coherent(g) && t in g.contents
    ensures Movable(g, t, g.location[t]) && Relinked(g, g, t, g.location[t])
  {
    assert EntityOk(g, t);
    assert g.location[t := g.location[t]] == g.location;
    if g.location[t].Some? {
      var q := g.location[t].value;
      assert EntityOk(g, q) && SymmetricAt(g, t, q) && IndexedAt(g, t, g.contents[q]);
    }
  }

  // ---------------------------------------------------------------------------
  // Entity.contains

  /** The members of `p`'s contents are exactly the entities located in `p`, each with fewer descendants. */
  lemma Children(g: Graph, p: EntityRef)
    requires Coherent(g) && p in g.contents
    ensures g.contents[p] in g.sets
    ensures forall x | x in g.sets[g.contents[p]].members ::
      x in g.contents && g.location[x] == Some(p) &&
      Descendants(g.location, g.contents.Keys, x) < Descendants(g.location, g.contents.Keys, p)
  {
    assert EntityOk(g, p) && SetOk(g, g.contents[p]);
    forall x | x in g.sets[g.contents[p]].members
      ensures x in g.contents && g.location[x] == Some(p)
      ensures Descendants(g.location, g.contents.Keys, x) < Descendants(g.location, g.contents.Keys, p)
    {
      assert SymmetricAt(g, x, p);
      DescendantsShrink(g.location, g.contents.Keys, p, x);
    }
  }

  /**
   * `p.contains(other, recursive)`: some member of `p`'s contents is `other`,
   * or (when recursive) contains `other`. A null `other` is contained nowhere.
   */
  function Contains(g: Graph, p: EntityRef, other: Option<EntityRef>, recursive: bool): (r: bool)
    requires Coherent(g) && p in g.contents
    ensures r ==> other.Some? && other.value in g.contents
    decreases Descendants(g.location, g.contents.Keys, p)
  {
    Children(g, p);
    exists x | x in g.sets[g.contents[p]].members ::
      Some(x) == other || (recursive && Contains(g, x, other, true))
  }

  /** Without recursion, `contains` asks whether `o` is located directly in `p`. */
  lemma ContainsDirect(g: Graph, p: EntityRef, o: EntityRef)
    requires Coherent(g) && p in g.contents
    ensures Contains(g, p, Some(o), false) <==> o in g.contents && g.location[o] == Some(p)
  {
    Children(g, p);
    if o in g.contents && g.location[o] == Some(p) {
      assert SymmetricAt(g, o, p);
    }
  }

  /** With recursion, `contains` asks whether `p` is a (transitive) location of `o`. */
  lemma {:induction false} ContainsIsAncestor(g: Graph, p: EntityRef, o: EntityRef)
    requires Coherent(g) && p in g.contents
    ensures Contains(g, p, Some(o), true) <==> IsAncestor(g.location, p, o)
    decreases Descendants(g.location, g.contents.Keys, p)
  {
    Children(g, p);
    var members := g.sets[g.contents[p]].members;
    if Contains(g, p, Some(o), true) {
      var x :| x in members && (Some(x) == Some(o) || Contains(g, x, Some(o), true));
      if x == o {
        assert Climb(g.location, o, 1) == Some(p);
      } else {
        ContainsIsAncestor(g, x, o);
        AncestorStep(g.location, p, x, o);
      }
    }
    if IsAncestor(g.location, p, o) {
      var k: nat :| 1 <= k && Climb(g.location, o, k) == Some(p);
      ClimbSplit(g.location, o, k - 1, 1);
      var c := Climb(g.location, o, k - 1).value;
      assert Parent(g.location, c) == Some(p);
      assert c in g.contents && SymmetricAt(g, c, p);
      assert c in members;
      if k == 1 {
        assert c == o;
      } else {
        assert IsAncestor(g.location, c, o);
        ContainsIsAncestor(g, c, o);
      }
    }
  }
}
