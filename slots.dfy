/**
 * Action signatures as values: an ordered list of slots, each asking for
 * `count` entities out of an allowed set. Both matchers of the game (the
 * backtracking `ActionSignatureMatcher` and the greedy `PlayerAction`) lay the
 * slots out as consecutive positions; this module defines that layout and what
 * a valid total assignment of supplied entities to positions is.
 */
module Slots {
  import opened Common

  /** One signature entry: `count` entities are needed from `allowed`. */
  datatype Slot = Slot(allowed: set<EntityRef>, count: nat)

  /** Sum of the first `i` sizes. */
  function SumTo(sizes: seq<nat>, i: nat): nat
    requires i <= |sizes|
  {
    if i == 0 then 0 else SumTo(sizes, i - 1) + sizes[i - 1]
  }

  /** Sum of all sizes: the number of positions of a signature. */
  function Sum(sizes: seq<nat>): nat {
    SumTo(sizes, |sizes|)
  }

  /** Sums of a prefix do not depend on what follows it. */
  lemma {:induction false} SumToPrefix(sizes: seq<nat>, more: seq<nat>, i: nat)
    requires i <= |sizes|
    ensures SumTo(sizes + more, i) == SumTo(sizes, i)
  {
    if i > 0 {
      SumToPrefix(sizes, more, i - 1);
      assert (sizes + more)[i - 1] == sizes[i - 1];
    }
  }

  /** Appending an entry of size n adds n to the sum. */
  lemma SumAppend(sizes: seq<nat>, n: nat)
    ensures Sum(sizes + [n]) == Sum(sizes) + n
  {
    SumToPrefix(sizes, [n], |sizes|);
  }

  function Repeat<T>(x: T, n: nat): (r: seq<T>)
    ensures |r| == n && forall k :: 0 <= k < n ==> r[k] == x
  {
    seq(n, _ => x)
  }

  /**
   * The slot index of every position for the first `i` slots: slot j's index
   * written sizes[j] times, slot after slot.
   */
  function FlattenTo(sizes: seq<nat>, i: nat): (r: seq<nat>)
    requires i <= |sizes|
    ensures |r| == SumTo(sizes, i)
    ensures forall p :: 0 <= p < |r| ==> r[p] < i
    ensures forall p, q :: 0 <= p <= q < |r| ==> r[p] <= r[q]
  {
    if i == 0 then [] else FlattenTo(sizes, i - 1) + Repeat(i - 1, sizes[i - 1])
  }

  /** The slot index of every position of a signature with the given sizes. */
  function Flatten(sizes: seq<nat>): (r: seq<nat>)
    ensures |r| == Sum(sizes)
    ensures forall p :: 0 <= p < |r| ==> r[p] < |sizes|
    ensures forall p, q :: 0 <= p <= q < |r| ==> r[p] <= r[q]
  {
    FlattenTo(sizes, |sizes|)
  }

  lemma {:induction false} SumToMonotone(sizes: seq<nat>, i: nat, j: nat)
    requires i <= j <= |sizes|
    ensures SumTo(sizes, i) + (if i < j then sizes[i] else 0) <= SumTo(sizes, j)
    decreases j - i
  {
    if i < j {
      if i + 1 < j {
        SumToMonotone(sizes, i + 1, j);
      }
    }
  }

  /** Slot i occupies exactly the positions [SumTo(i), SumTo(i) + sizes[i]) of the first n slots. */
  lemma {:induction false} FlattenToRange(sizes: seq<nat>, n: nat, i: nat, p: nat)
    requires i < n <= |sizes| && p < SumTo(sizes, n)
    ensures FlattenTo(sizes, n)[p] == i <==> SumTo(sizes, i) <= p < SumTo(sizes, i) + sizes[i]
    decreases n
  {
    var prev := FlattenTo(sizes, n - 1);
    assert FlattenTo(sizes, n) == prev + Repeat(n - 1, sizes[n - 1]);
    if p < |prev| {
      assert FlattenTo(sizes, n)[p] == prev[p];
      if i < n - 1 {
        FlattenToRange(sizes, n - 1, i, p);
      } else {
        assert prev[p] < n - 1;
      }
    } else {
      assert FlattenTo(sizes, n)[p] == n - 1;
      if i < n - 1 {
        SumToMonotone(sizes, i, n - 1);
      }
    }
  }

  /**
   * The flattened signature is the layout the matcher builds: slot i
   * occupies exactly `sizes[i]` consecutive positions starting after all
   * earlier slots.
   */
  lemma FlattenRange(sizes: seq<nat>, i: nat, p: nat)
    requires i < |sizes| && p < Sum(sizes)
    ensures Flatten(sizes)[p] == i <==> SumTo(sizes, i) <= p < SumTo(sizes, i) + sizes[i]
  {
    FlattenToRange(sizes, |sizes|, i, p);
  }

  /** The count of every slot. */
  function Counts(slots: seq<Slot>): (r: seq<nat>)
    ensures |r| == |slots| && forall i :: 0 <= i < |slots| ==> r[i] == slots[i].count
  {
    seq(|slots|, i requires 0 <= i < |slots| => slots[i].count)
  }

  /** First position of slot i. */
  function Offset(slots: seq<Slot>, i: nat): nat
    requires i <= |slots|
  {
    SumTo(Counts(slots), i)
  }

  /** Number of positions: the number of entities a signature needs. */
  function Total(slots: seq<Slot>): nat {
    Sum(Counts(slots))
  }

  /** Slot i's positions lie inside the signature and before slot i + 1's. */
  lemma OffsetBounds(slots: seq<Slot>, i: nat)
    requires i < |slots|
    ensures Offset(slots, i) + slots[i].count == Offset(slots, i + 1)
    ensures Offset(slots, i + 1) <= Total(slots)
  {
    SumToMonotone(Counts(slots), i + 1, |slots|);
  }

  /** The allowed set of every position: slot i's set repeated `count` times, in slot order. */
  function PositionSets(slots: seq<Slot>): (r: seq<set<EntityRef>>)
    ensures |r| == Total(slots)
  {
    var f := Flatten(Counts(slots));
    seq(|f|, p requires 0 <= p < |f| => slots[f[p]].allowed)
  }

  /** The k-th position of slot i accepts exactly slot i's allowed set. */
  lemma PositionSetsAt(slots: seq<Slot>, i: nat, k: nat)
    requires i < |slots| && k < slots[i].count
    ensures Offset(slots, i) + k < Total(slots)
    ensures PositionSets(slots)[Offset(slots, i) + k] == slots[i].allowed
  {
    OffsetBounds(slots, i);
    FlattenRange(Counts(slots), i, Offset(slots, i) + k);
  }

  /**
   * `m` is a valid total assignment: it gives every position an entity its
   * allowed set accepts, uses no entity twice and uses every supplied entity.
   */
  ghost predicate Fills(allowed: seq<set<EntityRef>>, supplied: set<EntityRef>, m: seq<EntityRef>) {
    && |m| == |allowed|
    && (forall p :: 0 <= p < |m| ==> m[p] in allowed[p])
    && Distinct(m)
    && (forall p :: 0 <= p < |m| ==> m[p] in supplied)
    && (forall x | x in supplied :: x in m)
  }

  /** Some valid total assignment of `supplied` to the positions exists. */
  ghost predicate Matchable(allowed: seq<set<EntityRef>>, supplied: set<EntityRef>) {
    exists m :: Fills(allowed, supplied, m)
  }

  /** A valid assignment uses exactly as many entities as there are positions. */
  lemma FillsCount(allowed: seq<set<EntityRef>>, supplied: set<EntityRef>, m: seq<EntityRef>)
    requires Fills(allowed, supplied, m)
    ensures |supplied| == |allowed|
  {
    EnumerationLength(m, supplied);
  }

  /** A distinct sequence drawn from `xs` with |xs| elements uses all of `xs`. */
  lemma DistinctFullCovers(m: seq<EntityRef>, xs: set<EntityRef>)
    requires Distinct(m) && |m| == |xs|
    requires forall p :: 0 <= p < |m| ==> m[p] in xs
    ensures forall x | x in xs :: x in m
  {
    var elems := set x | x in m;
    DistinctCard(m);
    assert elems <= xs;
    if elems != xs {
      var y :| y in xs && y !in elems;
      SubsetCard(elems, xs - {y});
    }
  }

  lemma {:induction false} SubsetCard(a: set<EntityRef>, b: set<EntityRef>)
    requires a <= b
    ensures |a| <= |b|
    decreases |b|
  {
    if a != {} {
      var x :| x in a;
      SubsetCard(a - {x}, b - {x});
    }
  }
}
