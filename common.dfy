/** Shared vocabulary of the model: object handles and an optional value. */
module Common {

  /** `null` or a value, as a Java reference that may be null. */
  datatype Option<+T> = None | Some(value: T)

  /** Identity of an `Entity` object (its address on the Java heap). */
  type EntityRef = nat

  /** Identity of an `EntitySet` object (its address on the Java heap). */
  type SetRef = nat

  /** The elements of `xs` as a set (a Java collection copied into a hash set). */
  function Elements<T(!new)>(xs: seq<T>): (r: set<T>)
    ensures forall x :: x in r <==> x in xs
  {
    set x | x in xs
  }

  /** True when no element occurs twice in `s`. */
  ghost predicate Distinct<T>(s: seq<T>) {
    forall i, j :: 0 <= i < j < |s| ==> s[i] != s[j]
  }

  /** `s` lists every element of `xs` exactly once (an iteration order of a set). */
  ghost predicate Enumerates<T>(s: seq<T>, xs: set<T>) {
    Distinct(s) && (forall i :: 0 <= i < |s| ==> s[i] in xs) && (forall x | x in xs :: x in s)
  }

  /** A distinct sequence has as many elements as the set of its elements. */
  lemma {:induction false} DistinctCard<T>(s: seq<T>)
    requires Distinct(s)
    ensures |set x | x in s| == |s|
  {
    if s != [] {
      var rest := s[1..];
      assert Distinct(rest) by {
        forall i, j | 0 <= i < j < |rest| ensures rest[i] != rest[j] {
          assert rest[i] == s[i + 1] && rest[j] == s[j + 1];
        }
      }
      DistinctCard(rest);
      assert (set x | x in s) == (set x | x in rest) + {s[0]};
      assert s[0] !in rest by {
        forall i | 0 <= i < |rest| ensures rest[i] != s[0] {
          assert rest[i] == s[i + 1];
        }
      }
    }
  }

  /** An enumeration of a finite set has the set's size. */
  lemma EnumerationLength<T>(s: seq<T>, xs: set<T>)
    requires Enumerates(s, xs)
    ensures |s| == |xs|
  {
    DistinctCard(s);
    assert (set x | x in s) == xs;
  }

  /** The actions registered under `id`, in registration order; none when the id is unknown. */
  function ActionsUnder<T>(actions: map<string, seq<T>>, id: string): seq<T> {
    if id in actions then actions[id] else []
  }

  /**
   * The action map after `a` was appended under `id`, the list being created
   * when the id had none (`pushPlayerAction`, `createAction`).
   */
  function Registered<T>(actions: map<string, seq<T>>, id: string, a: T): (r: map<string, seq<T>>)
    ensures ActionsUnder(r, id) == ActionsUnder(actions, id) + [a]
    ensures forall other | other != id :: ActionsUnder(r, other) == ActionsUnder(actions, other)
  {
    actions[id := ActionsUnder(actions, id) + [a]]
  }
}
