/**
 * The containment relation of the entity graph, seen from the parent pointers.
 *
 * Every entity has at most one location (its parent). A location map sends an
 * entity handle to its location, `None` standing for Java's `null`. This module
 * defines ancestry over such a map, the acyclicity invariant the game keeps,
 * and proves that re-parenting an entity under a target that is neither the
 * entity itself nor one of its descendants keeps the graph acyclic.
 */
module Containment {
  import opened Common

  type LocationMap = map<EntityRef, Option<EntityRef>>

  /** The location of `x`; an entity the map does not know has none. */
  function Parent(loc: LocationMap, x: EntityRef): Option<EntityRef> {
    if x in loc then loc[x] else None
  }

  /** The k-th location above `x`: `x` itself for k = 0, `None` once the chain ends. */
  function Climb(loc: LocationMap, x: EntityRef, k: nat): Option<EntityRef>
    decreases k
  {
    if k == 0 then Some(x)
    else match Parent(loc, x)
      case None => None
      case Some(p) => Climb(loc, p, k - 1)
  }

  /** `a` (transitively) contains `x`: it is met after one or more steps up from `x`. */
  ghost predicate IsAncestor(loc: LocationMap, a: EntityRef, x: EntityRef) {
    exists k: nat :: 1 <= k && Climb(loc, x, k) == Some(a)
  }

  /** Following locations upwards from `x` ends after finitely many steps. */
  ghost predicate Rooted(loc: LocationMap, x: EntityRef) {
    exists n: nat :: Climb(loc, x, n) == None
  }

  /** No chain of locations loops: every entity's chain of locations ends. */
  ghost predicate Acyclic(loc: LocationMap) {
    forall x: EntityRef :: Rooted(loc, x)
  }

  /** The entities of `dom` that `p` transitively contains. */
  ghost function Descendants(loc: LocationMap, dom: set<EntityRef>, p: EntityRef): set<EntityRef> {
    set x | x in dom && IsAncestor(loc, p, x)
  }

  /** Moving `t` to `target` (None detaches it) passes the two checks of `setLocation`. */
  ghost predicate RelinkAllowed(loc: LocationMap, t: EntityRef, target: Option<EntityRef>) {
    target.None? || (target.value != t && !IsAncestor(loc, t, target.value))
  }

  /** Climbing a + b steps is climbing a steps, then b more. */
  lemma {:induction false} ClimbSplit(loc: LocationMap, x: EntityRef, a: nat, b: nat)
    ensures Climb(loc, x, a + b) ==
            match Climb(loc, x, a)
            case None => None
            case Some(y) => Climb(loc, y, b)
    decreases a
  {
    if a > 0 {
      match Parent(loc, x)
      case None =>
      case Some(p) => ClimbSplit(loc, p, a - 1, b);
    }
  }

  /** Whatever contains `c` contains everything `c` contains. */
  lemma AncestorStep(loc: LocationMap, p: EntityRef, c: EntityRef, x: EntityRef)
    requires Parent(loc, c) == Some(p)
    requires IsAncestor(loc, c, x)
    ensures IsAncestor(loc, p, x)
  {
    var k: nat :| 1 <= k && Climb(loc, x, k) == Some(c);
    ClimbSplit(loc, x, k, 1);
    assert Climb(loc, x, k + 1) == Some(p);
  }

  /** A chain that returns to its start never ends. */
  lemma {:induction false} CycleNeverEnds(loc: LocationMap, x: EntityRef, k: nat, n: nat)
    requires 1 <= k && Climb(loc, x, k) == Some(x)
    ensures Climb(loc, x, n).Some?
    decreases n
  {
    if n < k {
      ClimbSplit(loc, x, n, k - n);
    } else {
      ClimbSplit(loc, x, k, n - k);
      CycleNeverEnds(loc, x, k, n - k);
    }
  }

  /** An entity whose chain ends does not contain itself. */
  lemma NoSelfAncestor(loc: LocationMap, x: EntityRef)
    requires Rooted(loc, x)
    ensures !IsAncestor(loc, x, x)
  {
    if IsAncestor(loc, x, x) {
      var k: nat :| 1 <= k && Climb(loc, x, k) == Some(x);
      var n: nat :| Climb(loc, x, n) == None;
      CycleNeverEnds(loc, x, k, n);
    }
  }

  /** In an acyclic graph a child's descendants are strictly fewer than its parent's. */
  lemma DescendantsShrink(loc: LocationMap, dom: set<EntityRef>, p: EntityRef, c: EntityRef)
    requires Acyclic(loc)
    requires c in dom && Parent(loc, c) == Some(p)
    ensures Descendants(loc, dom, c) < Descendants(loc, dom, p)
  {
    forall x | x in Descendants(loc, dom, c) ensures x in Descendants(loc, dom, p) {
      AncestorStep(loc, p, c, x);
    }
    assert Climb(loc, c, 1) == Some(p);
    assert c in Descendants(loc, dom, p);
    NoSelfAncestor(loc, c);
  }

  /** A chain that never meets `t` climbs the same way after `t` is moved. */
  lemma {:induction false} ClimbAvoidingMoved(loc: LocationMap, t: EntityRef, target: Option<EntityRef>,
                                              y: EntityRef, k: nat)
    requires forall j: nat :: Climb(loc, y, j) != Some(t)
    ensures Climb(loc[t := target], y, k) == Climb(loc, y, k)
    decreases k
  {
    if k > 0 {
      assert Climb(loc, y, 0) == Some(y);
      match Parent(loc, y)
      case None =>
      case Some(p) =>
        forall j: nat ensures Climb(loc, p, j) != Some(t) {
          assert Climb(loc, y, j + 1) == Climb(loc, p, j);
        }
        ClimbAvoidingMoved(loc, t, target, p, k - 1);
    }
  }

  /** Every entity whose chain ended before the move still has a chain that ends. */
  lemma {:induction false} RootedAfterRelink(loc: LocationMap, t: EntityRef, target: Option<EntityRef>,
                                             x: EntityRef, n: nat)
    requires Acyclic(loc) && RelinkAllowed(loc, t, target)
    requires Climb(loc, x, n) == None
    ensures Rooted(loc[t := target], x)
    decreases n
  {
    var moved := loc[t := target];
    if x == t {
      match target
      case None =>
        assert Climb(moved, x, 1) == None;
      case Some(g) =>
        assert Rooted(loc, g);
        var m: nat :| Climb(loc, g, m) == None;
        forall j: nat ensures Climb(loc, g, j) != Some(t) {
          if j == 0 {
            assert Climb(loc, g, j) == Some(g);
          }
        }
        ClimbAvoidingMoved(loc, t, target, g, m);
        assert Climb(moved, x, m + 1) == None;
    } else {
      match Parent(loc, x)
      case None =>
        assert Climb(moved, x, 1) == None;
      case Some(p) =>
        RootedAfterRelink(loc, t, target, p, n - 1);
        var m: nat :| Climb(moved, p, m) == None;
        assert Climb(moved, x, m + 1) == None;
    }
  }

  /** Re-parenting that `setLocation` allows keeps the containment graph acyclic. */
  lemma RelinkKeepsAcyclic(loc: LocationMap, t: EntityRef, target: Option<EntityRef>)
    requires Acyclic(loc) && RelinkAllowed(loc, t, target)
    ensures Acyclic(loc[t := target])
  {
    var moved := loc[t := target];
    forall x: EntityRef ensures Rooted(moved, x) {
      assert Rooted(loc, x);
      var n: nat :| Climb(loc, x, n) == None;
      RootedAfterRelink(loc, t, target, x, n);
    }
  }

  /** Self-containment is exactly what breaks acyclicity when `t` is placed in itself. */
  lemma SelfLocationIsCycle(loc: LocationMap, t: EntityRef)
    ensures !Acyclic(loc[t := Some(t)])
  {
    var moved := loc[t := Some(t)];
    assert Climb(moved, t, 1) == Some(t);
    assert IsAncestor(moved, t, t);
    if Acyclic(moved) {
      assert Rooted(moved, t);
      NoSelfAncestor(moved, t);
    }
  }

  /** Placing `t` inside one of its own descendants would create a cycle. */
  lemma DescendantLocationIsCycle(loc: LocationMap, t: EntityRef, g: EntityRef)
    requires IsAncestor(loc, t, g)
    ensures !Acyclic(loc[t := Some(g)])
  {
    var moved := loc[t := Some(g)];
    var k: nat :| 1 <= k && Climb(loc, g, k) == Some(t);
    // take the shortest climb from g to t: none of the earlier steps meets t
    var m := FirstHit(loc, g, t, k);
    assert forall j: nat :: j < m ==> Climb(loc, g, j) != Some(t);
    ClimbPrefixAvoidingMoved(loc, t, Some(g), g, m);
    assert Climb(moved, g, m) == Some(t);
    ClimbSplit(moved, t, 1, m);
    assert Climb(moved, t, 1 + m) == Some(t);
    if Acyclic(moved) {
      assert Rooted(moved, t);
      NoSelfAncestor(moved, t);
    }
  }

  /** The first step at which the climb from `g` meets `t`, given that step `k` does. */
  lemma {:induction false} FirstHit(loc: LocationMap, g: EntityRef, t: EntityRef, k: nat) returns (m: nat)
    requires Climb(loc, g, k) == Some(t)
    ensures m <= k && Climb(loc, g, m) == Some(t)
    ensures forall j: nat :: j < m ==> Climb(loc, g, j) != Some(t)
    decreases k
  {
    if exists j: nat :: j < k && Climb(loc, g, j) == Some(t) {
      var j: nat :| j < k && Climb(loc, g, j) == Some(t);
      m := FirstHit(loc, g, t, j);
    } else {
      m := k;
    }
  }

  /** A climb whose first m steps avoid `t` takes those steps unchanged after `t` moves. */
  lemma {:induction false} ClimbPrefixAvoidingMoved(loc: LocationMap, t: EntityRef, target: Option<EntityRef>,
                                                    y: EntityRef, m: nat)
    requires forall j: nat :: j < m ==> Climb(loc, y, j) != Some(t)
    ensures Climb(loc[t := target], y, m) == Climb(loc, y, m)
    decreases m
  {
    if m > 0 {
      assert Climb(loc, y, 0) == Some(y);
      match Parent(loc, y)
      case None =>
      case Some(p) =>
        forall j: nat | j < m - 1 ensures Climb(loc, p, j) != Some(t) {
          assert Climb(loc, y, j + 1) == Climb(loc, p, j);
        }
        ClimbPrefixAvoidingMoved(loc, t, target, p, m - 1);
    }
  }

  /** `setLocation`'s two checks are exactly the moves that keep the graph acyclic. */
  lemma RelinkAllowedIffAcyclic(loc: LocationMap, t: EntityRef, target: Option<EntityRef>)
    requires Acyclic(loc)
    ensures RelinkAllowed(loc, t, target) <==> Acyclic(loc[t := target])
  {
    if RelinkAllowed(loc, t, target) {
      RelinkKeepsAcyclic(loc, t, target);
    } else if target.value == t {
      SelfLocationIsCycle(loc, t);
    } else {
      DescendantLocationIsCycle(loc, t, target.value);
    }
  }

  /** Two entities in the same place: neither transitively contains the other. */
  lemma SiblingNotAncestor(loc: LocationMap, a: EntityRef, c: EntityRef)
    requires Acyclic(loc) && Parent(loc, a) == Parent(loc, c)
    ensures !IsAncestor(loc, c, a)
  {
    NoSelfAncestor(loc, c);
    forall k: nat | 1 <= k ensures Climb(loc, a, k) == Climb(loc, c, k) {
    }
  }
}
