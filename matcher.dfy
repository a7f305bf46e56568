/**
 * `ActionSignatureMatcher`: the signature's slots laid out as positions
 * (`signatureEntries[p]` is the entry index of position p) and a complete
 * backtracking search that gives every position a distinct supplied entity
 * its entry's set accepts.
 */
module Matcher {
  import opened Common
  import opened Links
  import opened Slots
  import opened Greedy
  import opened State
  import opened Signature

  /** `Arrays.fill(a, from, to, v)`: positions [from, to) become v, the rest is kept. */
  method FillRange(a: array<nat>, from: nat, to: nat, v: nat)
    requires from <= to <= a.Length
    modifies a
    ensures a[..] == old(a[..from]) + Repeat(v, to - from) + old(a[to..])
  {
    var k := from;
    while k < to
      invariant from <= k <= to
      invariant a[..] == old(a[..from]) + Repeat(v, k - from) + old(a[k..])
    {
      a[k] := v;
      k := k + 1;
    }
  }

  /**
   * `tail` completes positions idx.. of `allowed`: one entity per position,
   * accepted by the position, drawn from `pool`, no entity twice.
   */
  ghost predicate Completes(allowed: seq<set<EntityRef>>, idx: nat, pool: set<EntityRef>, tail: seq<Option<EntityRef>>)
    requires idx <= |allowed|
  {
    && |tail| == |allowed| - idx
    && (forall k :: 0 <= k < |tail| ==> tail[k].Some? && tail[k].value in pool && tail[k].value in allowed[idx + k])
    && Distinct(tail)
  }

  /** Positions idx.. can still be completed from `pool`. */
  ghost predicate Extensible(allowed: seq<set<EntityRef>>, idx: nat, pool: set<EntityRef>)
    requires idx <= |allowed|
  {
    exists tail :: Completes(allowed, idx, pool, tail)
  }

  /** Putting an accepted pool member in front of a completion of the rest completes from idx. */
  lemma CompletesCons(allowed: seq<set<EntityRef>>, idx: nat, pool: set<EntityRef>, e: EntityRef, tail: seq<Option<EntityRef>>)
    requires idx < |allowed| && e in pool && e in allowed[idx]
    requires Completes(allowed, idx + 1, pool - {e}, tail)
    ensures Completes(allowed, idx, pool, [Some(e)] + tail)
  {
    var t := [Some(e)] + tail;
    forall i, j | 0 <= i < j < |t| ensures t[i] != t[j] {
      if i > 0 {
        assert t[i] == tail[i - 1];
      }
    }
    forall k | 0 <= k < |t| ensures t[k].Some? && t[k].value in pool && t[k].value in allowed[idx + k] {
      if k > 0 {
        assert t[k] == tail[k - 1];
      }
    }
  }

  /**
   * The search step: positions idx.. can be completed exactly when some pool
   * member accepted at idx leaves positions idx + 1.. completable without it.
   */
  lemma ExtensibleStep(allowed: seq<set<EntityRef>>, idx: nat, pool: set<EntityRef>)
    requires idx < |allowed|
    ensures Extensible(allowed, idx, pool) <==>
            exists e | e in pool && e in allowed[idx] :: Extensible(allowed, idx + 1, pool - {e})
  {
    if Extensible(allowed, idx, pool) {
      var tail: seq<Option<EntityRef>> :| Completes(allowed, idx, pool, tail);
      var e := tail[0].value;
      var rest := tail[1..];
      forall k | 0 <= k < |rest|
        ensures rest[k].Some? && rest[k].value in pool - {e} && rest[k].value in allowed[idx + 1 + k]
      {
        assert rest[k] == tail[k + 1] && tail[k + 1] != tail[0];
      }
      forall i, j | 0 <= i < j < |rest| ensures rest[i] != rest[j] {
        assert rest[i] == tail[i + 1] && rest[j] == tail[j + 1];
      }
      assert Completes(allowed, idx + 1, pool - {e}, rest);
    }
    if exists e | e in pool && e in allowed[idx] :: Extensible(allowed, idx + 1, pool - {e}) {
      var e :| e in pool && e in allowed[idx] && Extensible(allowed, idx + 1, pool - {e});
      var tail: seq<Option<EntityRef>> :| Completes(allowed, idx + 1, pool - {e}, tail);
      CompletesCons(allowed, idx, pool, e, tail);
    }
  }

  /**
   * With exactly as many supplied entities as positions, a completion from
   * position 0 is the same thing as a valid total assignment.
   */
  lemma ExtensibleMatchable(allowed: seq<set<EntityRef>>, pool: set<EntityRef>)
    requires |pool| == |allowed|
    ensures Extensible(allowed, 0, pool) <==> Matchable(allowed, pool)
  {
    if Extensible(allowed, 0, pool) {
      var tail: seq<Option<EntityRef>> :| Completes(allowed, 0, pool, tail);
      CompletionFills(allowed, pool, tail);
    }
    if Matchable(allowed, pool) {
      var m :| Fills(allowed, pool, m);
      FillsCompletes(allowed, pool, m);
    }
  }

  /** A valid total assignment, read as a completion from position 0. */
  lemma FillsCompletes(allowed: seq<set<EntityRef>>, pool: set<EntityRef>, m: seq<EntityRef>)
    requires Fills(allowed, pool, m)
    ensures Extensible(allowed, 0, pool)
  {
    var tail := seq(|m|, p requires 0 <= p < |m| => Some(m[p]));
    forall i, j | 0 <= i < j < |tail| ensures tail[i] != tail[j] {
      assert m[i] != m[j];
    }
    assert Completes(allowed, 0, pool, tail);
  }

  /** A completion from position 0 that uses as many entities as were supplied fills the positions. */
  lemma CompletionFills(allowed: seq<set<EntityRef>>, pool: set<EntityRef>, tail: seq<Option<EntityRef>>)
    requires |pool| == |allowed| && Completes(allowed, 0, pool, tail)
    ensures Fills(allowed, pool, Values(tail))
    ensures pool - Used(tail) == {}
  {
    var m := Values(tail);
    forall i, j | 0 <= i < j < |m| ensures m[i] != m[j] {
      assert tail[i] != tail[j];
    }
    DistinctFullCovers(m, pool);
    forall x | x in pool ensures x in Used(tail) {
      var p :| 0 <= p < |m| && m[p] == x;
      assert tail[p] == Some(x);
    }
  }

  class ActionSignatureMatcher {
    const signature: ActionSignature
    /** Entry index of every position. */
    const signatureEntries: array<nat>
    /** The search's current assignment; `null` is None. */
    const matchedEntities: array<Option<EntityRef>>
    /** The supplied entities not used by the positions before the current one. */
    var workingSet: set<EntityRef>

    /**
     * The layout is the signature's: entry i occupies `getEntrySize(i)`
     * consecutive positions, in entry order.
     */
    ghost predicate Valid()
      reads signature, signatureEntries
    {
      && signature.Valid()
      && signatureEntries[..] == Flatten(EntryCounts(signature.entries))
      && matchedEntities.Length == signatureEntries.Length
    }

    /** The allowed set of every position, as the signature's sets currently hold. */
    ghost function Allowed(world: World): (r: seq<set<EntityRef>>)
      reads signature, world`sets
      requires signature.Ready(world)
      ensures |r| == signature.total
    {
      var slots := signature.SlotsIn(world);
      assert Counts(slots) == EntryCounts(signature.entries);
      PositionSets(slots)
    }

    constructor (signature: ActionSignature)
      requires signature.Valid()
      ensures Valid() && this.signature == signature
      ensures fresh(signatureEntries) && fresh(matchedEntities)
      ensures matchedEntities.Length == signature.total
    {
      var sizes := EntryCounts(signature.entries);
      var layout := new nat[signature.TotalEntityCount()](_ => 0);
      var fillFrom := 0;
      var i := 0;
      while i < signature.EntryCount()
        invariant i <= |sizes| && fillFrom == SumTo(sizes, i) <= layout.Length
        invariant layout[..fillFrom] == FlattenTo(sizes, i)
      {
        SumToMonotone(sizes, i + 1, |sizes|);
        var fillToIndex := fillFrom + signature.EntrySize(i);
        ghost var before := layout[..fillFrom];
        FillRange(layout, fillFrom, fillToIndex, i);
        assert layout[..fillToIndex] == before + Repeat(i, sizes[i]);
        fillFrom := fillToIndex;
        i := i + 1;
      }
      assert layout[..] == layout[..fillFrom];
      this.signature := signature;
      this.signatureEntries := layout;
      this.matchedEntities := new Option<EntityRef>[signature.total](_ => None);
    }

    /**
     * `match(idx)`: tries, in the working set's iteration order, every working
     * entity accepted at idx, with the rest of the search after it; a failed
     * try puts the entity back. True exactly when positions idx.. can be
     * completed from the working set.
     */
    method Match(idx: nat, world: World) returns (found: bool)
      requires Valid() && signature.Ready(world) && idx <= matchedEntities.Length
      modifies this`workingSet, matchedEntities
      ensures found <==> Extensible(Allowed(world), idx, old(workingSet))
      ensures found ==> Completes(Allowed(world), idx, old(workingSet), matchedEntities[idx..])
      ensures found ==> workingSet == old(workingSet) - Used(matchedEntities[idx..])
      ensures !found ==> workingSet == old(workingSet)
      ensures matchedEntities[..idx] == old(matchedEntities[..idx])
      decreases matchedEntities.Length - idx
    {
      ghost var allowed := Allowed(world);
      ghost var pool := workingSet;
      if idx == matchedEntities.Length {
        assert Completes(allowed, idx, pool, []);
        assert matchedEntities[idx..] == [];
        return true;
      }
      var currentEntryIndex := signatureEntries[idx];
      var allowedEntities := signature.EntryEntitySet(currentEntryIndex, world);
      assert allowedEntities == allowed[idx] by {
        assert Counts(signature.SlotsIn(world)) == EntryCounts(signature.entries);
      }
      var matchingEntities := Enumerate(workingSet * allowedEntities);
      ghost var prefix := matchedEntities[..idx];
      var j := 0;
      while j < |matchingEntities|
        invariant j <= |matchingEntities|
        invariant workingSet == pool
        invariant matchedEntities[..idx] == prefix
        invariant forall k | 0 <= k < j :: !Extensible(allowed, idx + 1, pool - {matchingEntities[k]})
      {
        var e := matchingEntities[j];
        workingSet := workingSet - {e};
        matchedEntities[idx] := Some(e);
        assert matchedEntities[..idx] == prefix;
        found := Match(idx + 1, world);
        assert Allowed(world) == allowed;
        assert matchedEntities[..idx + 1] == prefix + [Some(e)];
        if found {
          FoundStep(allowed, idx, pool, e, matchedEntities[..]);
          return;
        }
        workingSet := workingSet + {e};
        j := j + 1;
      }
      ExtensibleStep(allowed, idx, pool);
      forall e | e in pool && e in allowed[idx] ensures !Extensible(allowed, idx + 1, pool - {e}) {
        assert e in matchingEntities;
      }
      return false;
    }

    /**
     * `tryMatch`: null at once when the number of supplied entities is not
     * the signature's total; otherwise searches from position 0 with a copy
     * of the supplied set. The result is the assignment found.
     */
    method TryMatch(s: Option<SetRef>, world: World) returns (r: Option<seq<EntityRef>>)
      requires Valid() && signature.Ready(world) && OptIn(s, world.sets.Keys)
      requires s.None? ==> signature.total != 0
      modifies this`workingSet, matchedEntities
      ensures |Given(s, world)| != signature.total ==> r.None?
      ensures r.Some? <==> Matchable(Allowed(world), Given(s, world))
      ensures r.Some? ==> Fills(Allowed(world), Given(s, world), r.value)
      ensures |Given(s, world)| != signature.total ==>
        workingSet == old(workingSet) && matchedEntities[..] == old(matchedEntities[..])
      ensures r.Some? ==> workingSet == {}
      ensures r.Some? ==> Holds(matchedEntities[..], r.value)
      ensures |Given(s, world)| == signature.total && r.None? ==> workingSet == Given(s, world)
    {
      var givenEntityCount := if s.None? then 0 else world.Size(s.value);
      MatchableCount(Allowed(world), Given(s, world));
      if givenEntityCount != signature.TotalEntityCount() {
        return None;
      }
      ghost var given := Given(s, world);
      ghost var allowed := Allowed(world);
      workingSet := world.sets[s.value].members;
      var found := Match(0, world);
      assert Allowed(world) == allowed;
      ExtensibleMatchable(allowed, given);
      if found {
        ghost var cells := matchedEntities[..];
        assert matchedEntities[0..] == cells;
        CompletionFills(allowed, given, cells);
        assert workingSet == {};
        r := Some(Values(matchedEntities[..]));
        assert Holds(cells, r.value);
      } else {
        r := None;
      }
    }
  }

  /** The supplied entities: the set's members, none for `null`. */
  ghost function Given(s: Option<SetRef>, world: World): set<EntityRef>
    reads world`sets
    requires OptIn(s, world.sets.Keys)
  {
    if s.None? then {} else world.sets[s.value].members
  }

  /** Position p of `cells` holds the p-th entity of `m`, and nothing else is there. */
  ghost predicate Holds(cells: seq<Option<EntityRef>>, m: seq<EntityRef>) {
    |cells| == |m| && forall p | 0 <= p < |m| :: cells[p] == Some(m[p])
  }

  /** The entities an assignment uses. */
  ghost function Used(cells: seq<Option<EntityRef>>): set<EntityRef> {
    set k | 0 <= k < |cells| && cells[k].Some? :: cells[k].value
  }

  lemma UsedCons(e: EntityRef, rest: seq<Option<EntityRef>>)
    ensures Used([Some(e)] + rest) == {e} + Used(rest)
  {
    var t := [Some(e)] + rest;
    forall x | x in Used(t) ensures x in {e} + Used(rest) {
      var k :| 0 <= k < |t| && t[k].Some? && t[k].value == x;
      if k > 0 {
        assert rest[k - 1] == t[k];
      }
    }
    forall x | x in Used(rest) ensures x in Used(t) {
      var k :| 0 <= k < |rest| && rest[k].Some? && rest[k].value == x;
      assert t[k + 1] == rest[k];
    }
    assert t[0] == Some(e);
  }

  /** A successful try of `e` at idx completes positions idx.. and uses `e` besides the rest's entities. */
  lemma FoundStep(allowed: seq<set<EntityRef>>, idx: nat, pool: set<EntityRef>, e: EntityRef, cells: seq<Option<EntityRef>>)
    requires idx < |allowed| && e in pool && e in allowed[idx]
    requires idx < |cells| && cells[idx] == Some(e)
    requires Completes(allowed, idx + 1, pool - {e}, cells[idx + 1..])
    ensures Completes(allowed, idx, pool, cells[idx..]) && Extensible(allowed, idx, pool)
    ensures Used(cells[idx..]) == {e} + Used(cells[idx + 1..])
  {
    assert cells[idx..] == [Some(e)] + cells[idx + 1..];
    CompletesCons(allowed, idx, pool, e, cells[idx + 1..]);
    UsedCons(e, cells[idx + 1..]);
  }

  /** Only as many supplied entities as there are positions can be matched. */
  lemma MatchableCount(allowed: seq<set<EntityRef>>, pool: set<EntityRef>)
    ensures Matchable(allowed, pool) ==> |pool| == |allowed|
  {
    if Matchable(allowed, pool) {
      var m :| Fills(allowed, pool, m);
      FillsCount(allowed, pool, m);
    }
  }
}
