/**
 * The greedy first-fit placement of `PlayerAction.tryExecute`, as values.
 *
 * `tryExecute` keeps two arrays: `entityCounts` (how many entities each slot
 * has received) and `entitiesToUse` (the entity of every position, `null`
 * while empty). The primary entity, if any, goes to position 0; then every
 * secondary entity, in the set's iteration order, goes to the first slot that
 * still has room and whose set accepts it, or is dropped when there is none.
 * This module defines that placement and proves that a greedy success is a
 * valid total assignment when the primary entity is not also a secondary
 * one, so the backtracking matcher would succeed too; the converse fails,
 * and a concrete input shows it.
 */
module Greedy {
  import opened Common
  import opened Slots

  /** The two arrays of `tryExecute`: `entityCounts` and `entitiesToUse`. */
  datatype Placement = Placement(counts: seq<nat>, cells: seq<Option<EntityRef>>)

  /** Array sizes match the signature and no slot holds more than its count. */
  ghost predicate WellFormed(slots: seq<Slot>, pl: Placement) {
    && |pl.counts| == |slots|
    && |pl.cells| == Total(slots)
    && forall i :: 0 <= i < |slots| ==> pl.counts[i] <= slots[i].count
  }

  /** The first slot (a `PlayerAction` always has one with a positive count first). */
  ghost predicate FirstSlotNonEmpty(slots: seq<Slot>) {
    |slots| == 0 || slots[0].count >= 1
  }

  /** The index of the first slot at or after `i` with room left whose set holds `e`; |slots| if none. */
  function FirstFit(slots: seq<Slot>, counts: seq<nat>, e: EntityRef, i: nat): (r: nat)
    requires |counts| == |slots| && i <= |slots|
    ensures i <= r <= |slots|
    ensures r < |slots| ==> counts[r] != slots[r].count && e in slots[r].allowed
    ensures forall j :: i <= j < r ==> counts[j] == slots[j].count || e !in slots[j].allowed
    decreases |slots| - i
  {
    if i == |slots| then |slots|
    else if counts[i] != slots[i].count && e in slots[i].allowed then i
    else FirstFit(slots, counts, e, i + 1)
  }

  /** One pass of the inner loop: `e` takes the next free position of its first fitting slot. */
  function PlaceOne(slots: seq<Slot>, pl: Placement, e: EntityRef): (r: Placement)
    requires WellFormed(slots, pl)
    ensures WellFormed(slots, r)
  {
    var i := FirstFit(slots, pl.counts, e, 0);
    if i == |slots| then pl
    else
      OffsetBounds(slots, i);
      Placement(pl.counts[i := pl.counts[i] + 1], pl.cells[Offset(slots, i) + pl.counts[i] := Some(e)])
  }

  /** The outer loop: the entities of `order` placed one after the other. */
  function PlaceAll(slots: seq<Slot>, pl: Placement, order: seq<EntityRef>): (r: Placement)
    requires WellFormed(slots, pl)
    ensures WellFormed(slots, r)
    decreases |order|
  {
    if order == [] then pl
    else PlaceOne(slots, PlaceAll(slots, pl, order[..|order| - 1]), order[|order| - 1])
  }

  /** Placing the first k + 1 entities is placing the first k, then entity k. */
  lemma PlaceAllNext(slots: seq<Slot>, pl: Placement, order: seq<EntityRef>, k: nat)
    requires WellFormed(slots, pl) && k < |order|
    ensures PlaceAll(slots, pl, order[..k + 1]) == PlaceOne(slots, PlaceAll(slots, pl, order[..k]), order[k])
  {
    assert order[..k + 1][..k] == order[..k];
  }

  /** Fresh arrays, with the primary entity, if any, at position 0 of slot 0. */
  function Start(slots: seq<Slot>, primary: Option<EntityRef>): (r: Placement)
    requires primary.Some? ==> |slots| > 0 && slots[0].count >= 1
    ensures WellFormed(slots, r)
  {
    var empty := Placement(Repeat(0, |slots|), Repeat(None, Total(slots)));
    match primary
    case None => empty
    case Some(p) =>
      PositionSetsAt(slots, 0, 0);
      Placement(empty.counts[0 := 1], empty.cells[0 := Some(p)])
  }

  /** The entities of filled positions. */
  function Values(cells: seq<Option<EntityRef>>): (m: seq<EntityRef>)
    requires forall p :: 0 <= p < |cells| ==> cells[p].Some?
    ensures |m| == |cells| && forall p :: 0 <= p < |cells| ==> cells[p] == Some(m[p])
  {
    seq(|cells|, p requires 0 <= p < |cells| => cells[p].value)
  }

  /**
   * The entities `tryExecute` hands to its executor, or None when it returns
   * false before calling it: the count check, the primary check, and the
   * check that no position stayed empty.
   */
  function Assignment(slots: seq<Slot>, primary: Option<EntityRef>, order: seq<EntityRef>): (r: Option<seq<EntityRef>>)
    requires FirstSlotNonEmpty(slots)
    ensures r.Some? ==> (if primary.Some? then 1 else 0) + |order| == Total(slots) == |r.value|
    ensures r.Some? && primary.Some? ==> |slots| > 0 && primary.value in slots[0].allowed
  {
    if (if primary.Some? then 1 else 0) + |order| != Total(slots) then None
    else if primary.Some? && (|slots| == 0 || primary.value !in slots[0].allowed) then None
    else
      var pl := PlaceAll(slots, Start(slots, primary), order);
      if exists p :: 0 <= p < |pl.cells| && pl.cells[p].None? then None
      else Some(Values(pl.cells))
  }

  /** The result of `tryExecute`: false when rejected, the executor's verdict otherwise. */
  function Outcome(slots: seq<Slot>, primary: Option<EntityRef>, order: seq<EntityRef>,
                   executor: seq<EntityRef> -> bool): (r: bool)
    requires FirstSlotNonEmpty(slots)
    ensures r ==> (if primary.Some? then 1 else 0) + |order| == Total(slots)
    ensures r && primary.Some? ==> |slots| > 0 && primary.value in slots[0].allowed
  {
    match Assignment(slots, primary, order)
    case None => false
    case Some(m) => executor(m)
  }

  /** The entities a call supplies: the primary one and the secondary ones. */
  function Supplied(primary: Option<EntityRef>, order: seq<EntityRef>): set<EntityRef> {
    (set x | x in order) + (if primary.Some? then {primary.value} else {})
  }

  // ---------------------------------------------------------------------------
  // What a placement looks like while the loops run

  /** The k-th position of slot i. */
  function CellAt(slots: seq<Slot>, pl: Placement, i: nat, k: nat): Option<EntityRef>
    requires WellFormed(slots, pl) && i < |slots| && k < slots[i].count
  {
    OffsetBounds(slots, i);
    pl.cells[Offset(slots, i) + k]
  }

  /** Slot i's filled positions are exactly its first counts[i] positions. */
  ghost predicate Layout(slots: seq<Slot>, pl: Placement)
    requires WellFormed(slots, pl)
  {
    forall i, k :: 0 <= i < |slots| && 0 <= k < slots[i].count ==>
      (CellAt(slots, pl, i, k).Some? <==> k < pl.counts[i])
  }

  /** Every filled position holds an entity of `placed` that its slot accepts. */
  ghost predicate CellsSound(slots: seq<Slot>, pl: Placement, placed: set<EntityRef>)
    requires WellFormed(slots, pl)
  {
    forall p :: 0 <= p < |pl.cells| && pl.cells[p].Some? ==>
      pl.cells[p].value in PositionSets(slots)[p] && pl.cells[p].value in placed
  }

  /** No entity occupies two positions. */
  ghost predicate CellsDistinct(pl: Placement) {
    forall p, q :: 0 <= p < q < |pl.cells| && pl.cells[p].Some? && pl.cells[q].Some? ==>
      pl.cells[p].value != pl.cells[q].value
  }

  /** Distinct (slot, index) pairs name distinct positions. */
  lemma PositionsDisjoint(slots: seq<Slot>, i: nat, k: nat, i2: nat, k2: nat)
    requires i < |slots| && k < slots[i].count && i2 < |slots| && k2 < slots[i2].count
    requires i != i2 || k != k2
    ensures Offset(slots, i) + k != Offset(slots, i2) + k2
  {
    OffsetBounds(slots, i);
    OffsetBounds(slots, i2);
    if i < i2 {
      SumToMonotone(Counts(slots), i + 1, i2);
    } else if i2 < i {
      SumToMonotone(Counts(slots), i2 + 1, i);
    }
  }

  /** The position an entity is written to by `PlaceOne` was empty and belongs to its slot. */
  lemma PlaceOneKeepsLayout(slots: seq<Slot>, pl: Placement, e: EntityRef)
    requires WellFormed(slots, pl) && Layout(slots, pl)
    ensures Layout(slots, PlaceOne(slots, pl, e))
  {
    var i := FirstFit(slots, pl.counts, e, 0);
    if i < |slots| {
      OffsetBounds(slots, i);
      var pos := Offset(slots, i) + pl.counts[i];
      var r := PlaceOne(slots, pl, e);
      assert r.cells == pl.cells[pos := Some(e)];
      assert r.counts == pl.counts[i := pl.counts[i] + 1];
      forall i2, k2 | 0 <= i2 < |slots| && 0 <= k2 < slots[i2].count
        ensures CellAt(slots, r, i2, k2).Some? <==> k2 < r.counts[i2]
      {
        OffsetBounds(slots, i2);
        if i2 != i || k2 != pl.counts[i] {
          PositionsDisjoint(slots, i, pl.counts[i], i2, k2);
          assert CellAt(slots, r, i2, k2) == CellAt(slots, pl, i2, k2);
        } else {
          assert CellAt(slots, r, i2, k2) == r.cells[pos];
        }
      }
    }
  }

  /** `PlaceOne` places a fresh entity soundly and without duplicating any entity. */
  lemma PlaceOneKeepsSound(slots: seq<Slot>, pl: Placement, e: EntityRef, placed: set<EntityRef>)
    requires WellFormed(slots, pl) && Layout(slots, pl)
    requires CellsSound(slots, pl, placed) && CellsDistinct(pl) && e !in placed
    ensures CellsSound(slots, PlaceOne(slots, pl, e), placed + {e})
    ensures CellsDistinct(PlaceOne(slots, pl, e))
  {
    var i := FirstFit(slots, pl.counts, e, 0);
    if i < |slots| {
      var pos := Offset(slots, i) + pl.counts[i];
      PositionSetsAt(slots, i, pl.counts[i]);
      assert CellAt(slots, pl, i, pl.counts[i]).None?;
      var r := PlaceOne(slots, pl, e);
      assert r.cells == pl.cells[pos := Some(e)];
      forall p | 0 <= p < |r.cells| && r.cells[p].Some?
        ensures r.cells[p].value in PositionSets(slots)[p] && r.cells[p].value in placed + {e}
      {
        if p != pos {
          assert r.cells[p] == pl.cells[p];
        }
      }
    }
  }

  /** The placement loop keeps the layout whatever the order of the entities. */
  lemma {:induction false} PlaceAllKeepsLayout(slots: seq<Slot>, pl: Placement, order: seq<EntityRef>)
    requires WellFormed(slots, pl) && Layout(slots, pl)
    ensures Layout(slots, PlaceAll(slots, pl, order))
    decreases |order|
  {
    if order != [] {
      var init := order[..|order| - 1];
      PlaceAllKeepsLayout(slots, pl, init);
      PlaceOneKeepsLayout(slots, PlaceAll(slots, pl, init), order[|order| - 1]);
    }
  }

  /** Placing distinct fresh entities keeps the placement sound and duplicate-free. */
  lemma {:induction false} PlaceAllKeepsSound(slots: seq<Slot>, pl: Placement, order: seq<EntityRef>,
                                              placed: set<EntityRef>)
    requires WellFormed(slots, pl) && Layout(slots, pl)
    requires CellsSound(slots, pl, placed) && CellsDistinct(pl)
    requires Distinct(order) && forall j :: 0 <= j < |order| ==> order[j] !in placed
    ensures CellsSound(slots, PlaceAll(slots, pl, order), placed + set x | x in order)
    ensures CellsDistinct(PlaceAll(slots, pl, order))
    decreases |order|
  {
    if order != [] {
      var init := order[..|order| - 1];
      var e := order[|order| - 1];
      PlaceAllKeepsSound(slots, pl, init, placed);
      PlaceAllKeepsLayout(slots, pl, init);
      assert e !in placed + set x | x in init;
      PlaceOneKeepsSound(slots, PlaceAll(slots, pl, init), e, placed + set x | x in init);
      assert placed + (set x | x in init) + {e} == placed + set x | x in order;
    }
  }

  /** The starting placement already has the shape the loops keep. */
  lemma StartInvariants(slots: seq<Slot>, primary: Option<EntityRef>)
    requires primary.Some? ==> |slots| > 0 && slots[0].count >= 1 && primary.value in slots[0].allowed
    ensures Layout(slots, Start(slots, primary))
    ensures CellsSound(slots, Start(slots, primary), if primary.Some? then {primary.value} else {})
    ensures CellsDistinct(Start(slots, primary))
  {
    var st := Start(slots, primary);
    forall i, k | 0 <= i < |slots| && 0 <= k < slots[i].count
      ensures CellAt(slots, st, i, k).Some? <==> k < st.counts[i]
    {
      OffsetBounds(slots, i);
      if primary.Some? && (i != 0 || k != 0) {
        PositionsDisjoint(slots, 0, 0, i, k);
      }
      if primary.Some? && i == 0 && k == 0 {
        assert Offset(slots, 0) == 0;
      }
    }
    if primary.Some? {
      PositionSetsAt(slots, 0, 0);
      assert Offset(slots, 0) == 0;
    }
  }

  /**
   * Each slot's entities sit in that slot's positions, filled from its first
   * position on, and no slot receives more entities than its count.
   */
  lemma GreedyLayout(slots: seq<Slot>, primary: Option<EntityRef>, order: seq<EntityRef>)
    requires primary.Some? ==> |slots| > 0 && slots[0].count >= 1 && primary.value in slots[0].allowed
    ensures var pl := PlaceAll(slots, Start(slots, primary), order);
      && (forall i :: 0 <= i < |slots| ==> pl.counts[i] <= slots[i].count)
      && Layout(slots, pl)
  {
    StartInvariants(slots, primary);
    PlaceAllKeepsLayout(slots, Start(slots, primary), order);
  }

  /** What a successful `Assignment` has established. */
  lemma AssignmentSome(slots: seq<Slot>, primary: Option<EntityRef>, order: seq<EntityRef>)
    requires FirstSlotNonEmpty(slots)
    requires Assignment(slots, primary, order).Some?
    ensures (if primary.Some? then 1 else 0) + |order| == Total(slots)
    ensures primary.Some? ==> |slots| > 0 && primary.value in slots[0].allowed
    ensures var pl := PlaceAll(slots, Start(slots, primary), order);
      && (forall p :: 0 <= p < |pl.cells| ==> pl.cells[p].Some?)
      && Assignment(slots, primary, order) == Some(Values(pl.cells))
  {
  }

  /** A sound, duplicate-free placement with every position filled by `placed`, all of it, fills. */
  lemma FullPlacementFills(slots: seq<Slot>, pl: Placement, placed: set<EntityRef>)
    requires WellFormed(slots, pl) && CellsSound(slots, pl, placed) && CellsDistinct(pl)
    requires forall p :: 0 <= p < |pl.cells| ==> pl.cells[p].Some?
    requires |pl.cells| == |placed|
    ensures Fills(PositionSets(slots), placed, Values(pl.cells))
  {
    var m := Values(pl.cells);
    forall p, q | 0 <= p < q < |m| ensures m[p] != m[q] {
      assert pl.cells[p] == Some(m[p]) && pl.cells[q] == Some(m[q]);
    }
    forall p | 0 <= p < |m| ensures m[p] in placed && m[p] in PositionSets(slots)[p] {
      assert pl.cells[p] == Some(m[p]);
    }
    DistinctFullCovers(m, placed);
  }

  /**
   * Soundness of the greedy matcher: when `tryExecute` reaches its executor,
   * the entities it passes are a valid total assignment of the supplied
   * entities (provided the primary entity is not also among the secondary ones).
   */
  lemma GreedySound(slots: seq<Slot>, primary: Option<EntityRef>, order: seq<EntityRef>, m: seq<EntityRef>)
    requires FirstSlotNonEmpty(slots)
    requires Distinct(order) && (primary.Some? ==> primary.value !in order)
    requires Assignment(slots, primary, order) == Some(m)
    ensures Fills(PositionSets(slots), Supplied(primary, order), m)
  {
    AssignmentSome(slots, primary, order);
    var start := Start(slots, primary);
    var placed0: set<EntityRef> := if primary.Some? then {primary.value} else {};
    StartInvariants(slots, primary);
    PlaceAllKeepsSound(slots, start, order, placed0);
    var pl := PlaceAll(slots, start, order);
    var supplied := Supplied(primary, order);
    assert placed0 + (set x | x in order) == supplied;
    DistinctCard(order);
    assert |supplied| == |pl.cells| by {
      if primary.Some? {
        assert supplied == (set x | x in order) + {primary.value};
      }
    }
    FullPlacementFills(slots, pl, supplied);
  }

  /**
   * Every greedy success whose primary entity is not also a secondary one is
   * matchable, so the backtracking matcher succeeds on it too.
   */
  lemma GreedyImpliesMatchable(slots: seq<Slot>, primary: Option<EntityRef>, order: seq<EntityRef>)
    requires FirstSlotNonEmpty(slots)
    requires Distinct(order) && (primary.Some? ==> primary.value !in order)
    requires Assignment(slots, primary, order).Some?
    ensures Matchable(PositionSets(slots), Supplied(primary, order))
  {
    GreedySound(slots, primary, order, Assignment(slots, primary, order).value);
  }

  /** Each secondary entity lands in the first slot, in slot order, that has room and accepts it. */
  lemma PlaceOneFirstFit(slots: seq<Slot>, pl: Placement, e: EntityRef, i: nat)
    requires WellFormed(slots, pl) && i < |slots|
    requires PlaceOne(slots, pl, e).counts[i] != pl.counts[i]
    ensures pl.counts[i] < slots[i].count && e in slots[i].allowed
    ensures forall j :: 0 <= j < i ==> pl.counts[j] == slots[j].count || e !in slots[j].allowed
    ensures PlaceOne(slots, pl, e).counts == pl.counts[i := pl.counts[i] + 1]
  {
  }

  /**
   * The converse fails: with slots ({1, 2}, 1) and ({1}, 1) and secondary
   * entities met in the order 1, 2, entity 1 takes the first slot and 2 fits
   * nowhere, so `tryExecute` gives up, although 2, 1 is a valid assignment.
   */
  lemma GreedyIncomplete()
    ensures var slots := [Slot({1, 2}, 1), Slot({1}, 1)];
      && Assignment(slots, None, [1, 2]).None?
      && Matchable(PositionSets(slots), Supplied(None, [1, 2]))
  {
    var slots := [Slot({1, 2}, 1), Slot({1}, 1)];
    GreedyDropsSecond(slots);
    TwoSlotPositions(slots);
    var supplied := Supplied(None, [1, 2]);
    assert supplied == {1, 2};
    var m := [2, 1];
    assert m[0] in supplied && m[1] in supplied;
    assert 1 in m && 2 in m;
    assert Fills(PositionSets(slots), supplied, m);
  }

  /** The placement of the incompleteness example: entity 2 finds no slot. */
  lemma GreedyDropsSecond(slots: seq<Slot>)
    requires slots == [Slot({1, 2}, 1), Slot({1}, 1)]
    ensures Assignment(slots, None, [1, 2]).None?
  {
    TwoSlotPositions(slots);
    var start := Start(slots, None);
    assert start == Placement([0, 0], [None, None]);
    assert FirstFit(slots, [0, 0], 1, 0) == 0;
    assert [1, 2][..1] == [1] && [1][..0] == [];
    var one := PlaceAll(slots, start, [1]);
    assert one == PlaceOne(slots, start, 1);
    assert one == Placement([1, 0], [Some(1), None]);
    assert FirstFit(slots, [1, 0], 2, 1) == 2;
    assert FirstFit(slots, [1, 0], 2, 0) == 2;
    var two := PlaceAll(slots, start, [1, 2]);
    assert two == PlaceOne(slots, one, 2);
    assert two.cells[1].None?;
  }

  /** Two slots of count 1: two positions, one per slot. */
  lemma TwoSlotPositions(slots: seq<Slot>)
    requires |slots| == 2 && slots[0].count == 1 && slots[1].count == 1
    ensures Total(slots) == 2
    ensures PositionSets(slots) == [slots[0].allowed, slots[1].allowed]
  {
    OffsetBounds(slots, 0);
    OffsetBounds(slots, 1);
    PositionSetsAt(slots, 0, 0);
    PositionSetsAt(slots, 1, 0);
    assert Offset(slots, 0) == 0;
    assert Offset(slots, 2) == Total(slots);
  }

  /**
   * The primary entity is not kept out of the secondary set: with two slots
   * accepting only entity 1, primary 1 and secondary {1} pass every check, and
   * the executor receives entity 1 twice.
   */
  lemma GreedyMayRepeatPrimary()
    ensures Assignment([Slot({1}, 1), Slot({1}, 1)], Some(1), [1]) == Some([1, 1])
  {
    var slots := [Slot({1}, 1), Slot({1}, 1)];
    TwoSlotPositions(slots);
    var start := Start(slots, Some(1));
    assert start == Placement([1, 0], [Some(1), None]);
    assert FirstFit(slots, [1, 0], 1, 1) == 1;
    assert FirstFit(slots, [1, 0], 1, 0) == 1;
    assert [1][..0] == [];
    var pl := PlaceAll(slots, start, [1]);
    assert pl == PlaceOne(slots, start, 1);
    assert Offset(slots, 1) == 1;
    assert pl == Placement([1, 1], [Some(1), Some(1)]);
    assert Values(pl.cells) == [1, 1];
  }
}
