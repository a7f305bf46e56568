# untitledTextAdventure: the entity graph and the action system

This project models the rules engine of a Java text adventure. The game
world is a graph of entities. Every entity has:

- an id, a set of string attributes and a `closed` flag;
- named connections to other entities, each optionally gated by a door;
- a location, which is another entity or none;
- a contents set, which is a persistent (named) entity set holding exactly
  the entities located in it.

Persistent sets are indexed from their members
(`containingPersistentSets`). `setLocation` refuses any move that would make
an entity contain itself.

Player actions are attached to entities and to sets. Each action carries a
signature: a list of slots, each asking for `count` entities of a set.

- `PlayerAction.tryExecute` places the supplied entities into the slots
  greedily.
- `ActionSignatureMatcher` searches for an assignment by backtracking.
- `GameLogic` dispatches registered actions by id.
- `GameLogic` also defines the take, go, go-through-the-house-door, open
  and close executors.
- `GoDirection` moves the player along a connection.
- `GameState` looks entities up by id.
- `EntityDescription` splits a description into attributes and a main word.

Module layout:

- `Common` holds handles, `Option`, and set and sequence vocabulary.
- `Containment` holds locations as a parent map, with acyclicity and the
  checks of `setLocation`.
- `Links` holds all links between entities and sets as one value, `Graph`.
  Its invariant is `Coherent`, and a function of the old graph gives every
  update.
- `State` holds the `World` heap class. Every Java field of `Entity` and
  `EntitySet` is a map from object handle to value there, and the methods of
  both classes are `World` methods taking the receiver. `PlayerAction` is a
  class in the same module.
- `Slots` and `Greedy` hold the signature arithmetic and the greedy
  placement of `tryExecute`, as functions on values.
- `Signature`, `Matcher`, `Game`, `Logic`, `Actions` and `Description` hold
  the remaining classes.

Every state-changing method states its new state as a function of the old
one. Lemmas prove what the source promises about those functions.

Some behaviour the Java code shows, proved here:

- The greedy placement of `tryExecute` is sound when the primary entity
  is not also a secondary entity: every accepted call then fills every
  position with a distinct supplied entity that the position's set allows.
- The greedy placement is not complete. With slots `{1, 2}` and `{1}` it
  rejects the order `1, 2`, although `2, 1` fits (`GreedyIncomplete`). The
  backtracking matcher finds a match exactly when one exists.
- A primary entity that is also among the secondary entities is placed
  twice (`GreedyMayRepeatPrimary`).

## Model

| member | source | states |
|---|---|---|
| Common.Registered | src/main/java/game/state/Entity.java:140-148 | registering `a` under `id` appends it to that id's list, creating the list when absent; every other id's list is unchanged |
| Common.EnumerationLength | src/main/java/game/state/EntitySet.java:36 | an iteration order of a set lists as many entities as the set has |
| Containment.RelinkKeepsAcyclic | src/main/java/game/state/Entity.java:75-89 | a move that passes both checks of `setLocation` keeps the location graph acyclic |
| Containment.SelfLocationIsCycle | src/main/java/game/state/Entity.java:76-77 | putting an entity in itself would make a cycle, so the first check is needed |
| Containment.DescendantLocationIsCycle | src/main/java/game/state/Entity.java:78-79 | putting an entity inside something it transitively contains would make a cycle, so the second check is needed |
| Containment.RelinkAllowedIffAcyclic | src/main/java/game/state/Entity.java:76-79 | on an acyclic graph, the two checks pass exactly when the moved graph is still acyclic (both directions) |
| Containment.SiblingNotAncestor | src/main/java/game/logic/GameLogic.java:47-49 | two entities with the same location never contain one another, so the take executor's move cannot be refused as circular |
| Containment.DescendantsShrink | src/main/java/game/state/Entity.java:99-101 | in an acyclic graph, a child transitively contains strictly fewer entities than its location, so the recursion of `contains` ends |
| Links.WithMember | src/main/java/game/state/EntitySet.java:56-62 | adding `e` to `s` makes it a member; a named set enters `e`'s index, a temporary set leaves every index unchanged; nothing else changes |
| Links.WithoutMember | src/main/java/game/state/EntitySet.java:64-70 | removing `e` from `s` makes it a non-member; a named set leaves `e`'s index, a temporary set leaves every index unchanged; nothing else changes |
| Links.MembershipChangeKeeps | src/main/java/game/state/EntitySet.java:56-70 | a membership change that keeps the index in step with named-set membership, on a set that is no entity's contents, keeps the whole invariant |
| Links.WithMemberKeeps | src/main/java/game/state/EntitySet.java:56-62 | `add` to a set that is no contents set keeps the invariant, including "a named set is indexed from exactly its members" |
| Links.WithoutMemberKeeps | src/main/java/game/state/EntitySet.java:64-70 | `remove` from a set that is no contents set keeps the invariant |
| Links.WithMembersKeeps | src/main/java/game/state/EntitySet.java:56-62 | adding a whole argument list, one entity after the other, keeps the invariant |
| Links.WithoutMembersKeeps | src/main/java/game/state/EntitySet.java:64-70 | removing a whole argument list keeps the invariant |
| Links.WithMemberSize | src/main/java/game/state/EntitySet.java:52-58 | adding an entity that is already a member leaves the size unchanged; adding a new one grows it by one |
| Links.WithSet | src/main/java/game/state/EntitySet.java:39-42 | a new set gets the next free handle, the given name and no members; every existing set, entity and index is unchanged |
| Links.WithSetKeeps | src/main/java/game/state/EntitySet.java:19-42 | creating a set keeps the invariant, and the new set is no entity's contents |
| Links.FreshSetMembers | src/main/java/game/state/EntitySet.java:39-42 | a new set filled with an argument list has exactly the listed entities as members |
| Links.WithEntity | src/main/java/game/state/Entity.java:39-43 | a new entity is located nowhere, is in no set, and owns the newest set, named `id::contents`, which is empty |
| Links.WithEntityKeeps | src/main/java/game/state/Entity.java:39-43 | creating an entity keeps the invariant |
| Links.RelocatedEffect | src/main/java/game/state/Entity.java:81-87 | a move changes the entity's location, its membership of the old and of the new location's contents, and those two entries of its index; nothing else changes |
| Links.RelocatedKeeps | src/main/java/game/state/Entity.java:81-87 | a move that passes the checks keeps the invariant: located in `p` exactly when a member of `p`'s contents, the index in step, no cycle |
| Links.RelinkedInPlace | src/main/java/game/state/Entity.java:80 | a `setLocation` to the current location is a legal move that leaves every link as it was |
| Links.Children | src/main/java/game/state/Entity.java:99-101 | every member of an entity's contents is located in that entity and transitively contains fewer entities than it |
| Links.Contains | src/main/java/game/state/Entity.java:99-101 | `contains(other)` can hold only for a non-null `other` that is an entity; nothing contains null |
| Links.ContainsDirect | src/main/java/game/state/Entity.java:99-101 | without recursion, `contains(o)` holds exactly when `o` is located directly in the entity |
| Links.ContainsIsAncestor | src/main/java/game/state/Entity.java:99-101 | with recursion, `contains(o)` holds exactly when the entity is a transitive location of `o` (both directions) |
| State.Toggled | src/main/java/game/state/Entity.java:61-65 | the toggled attribute is present exactly when it was absent; every other attribute is unchanged |
| State.Switched | src/main/java/game/state/Entity.java:67-73 | `a` is replaced by `b` when present; otherwise `b` is replaced by `a` when present; otherwise nothing changes; other attributes are kept |
| State.ToggleTwice | src/main/java/game/state/Entity.java:61-65 | toggling the same attribute twice restores the attributes |
| State.SwitchTwice | src/main/java/game/state/Entity.java:67-73 | switching twice restores the attributes unless both were present |
| State.WithConnection | src/main/java/game/state/Entity.java:111-113 | the entry for the direction now holds the connection; every other entry of every entity is unchanged |
| State.WithoutConnection | src/main/java/game/state/Entity.java:121-123 | the entry for the direction is gone; every other entry is unchanged |
| State.WithoutBidirectional | src/main/java/game/state/Entity.java:125-130 | the forward entry goes. The target's back entry goes only when a forward entry existed; with no forward entry nothing changes, and no other entry changes |
| State.ConnectedUpdate | src/main/java/game/state/Entity.java:111-130 | updating an entity's connections to ones that lead to entities keeps every connection leading to an entity |
| State.Enumerate | src/main/java/game/logic/actionsystem/PlayerAction.java:104 | some iteration order of a set: every member exactly once (the same iteration serves `Entity.java:162` and `ActionSignatureMatcher.java:67`) |
| State.SetCandidatesPrefix | src/main/java/game/state/Entity.java:162-166 | the actions of the sets tried first come first in the candidate list |
| State.World.AddOne | src/main/java/game/state/EntitySet.java:57-61 | one pass of `add`'s loop: the links become `WithMember` of the old links |
| State.World.RemoveOne | src/main/java/game/state/EntitySet.java:65-69 | one pass of `remove`'s loop: the links become `WithoutMember` of the old links |
| State.World.Add | src/main/java/game/state/EntitySet.java:56-62 | `add(es...)`: the links become `WithMembers` of the old links |
| State.World.Remove | src/main/java/game/state/EntitySet.java:64-70 | `remove(es...)`: the links become `WithoutMembers` of the old links |
| State.World.NewSet | src/main/java/game/state/EntitySet.java:19-42 | `createTemporary`/`createPersistent`: a fresh set named as given, holding exactly the given entities, with no actions; the invariant holds |
| State.World.NewEntity | src/main/java/game/state/Entity.java:39-43 | `new Entity(id, attrs...)`: a fresh entity with that id and attributes, open, unconnected, located nowhere, owning a new contents set; the invariant holds |
| State.World.Own | src/main/java/game/state/Entity.java:40-42 | installing the new entity over its just-made contents set gives `WithEntity` of the old links and keeps the invariant |
| State.World.OwnedValid | src/main/java/game/state/Entity.java:39-43 | the state after creating an entity satisfies the invariant |
| State.World.SetLocation | src/main/java/game/state/Entity.java:75-89 | refused exactly for a move into itself or a descendant, leaving every link unchanged; on success the links are `Relinked`: the new location is set, the old location's contents lose the entity and the new one's gain it, the index follows, nothing else changes (a move to the current location changes nothing); the invariant holds |
| State.World.Relink | src/main/java/game/state/Entity.java:81-87 | the successful branch: the links become `Relocated` of the old links, and the invariant holds |
| State.World.RelinkedValid | src/main/java/game/state/Entity.java:81-87 | the state after a move that passed the checks satisfies the invariant |
| State.World.Update | src/main/java/game/state/Entity.java:53-73 | replacing an entity's non-link fields keeps the invariant and changes only that entity |
| State.World.AddAttribute | src/main/java/game/state/Entity.java:53-55 | returns true exactly when the attribute was absent; afterwards it is present; nothing else changes |
| State.World.RemoveAttribute | src/main/java/game/state/Entity.java:57-59 | returns true exactly when the attribute was present; afterwards it is absent; nothing else changes |
| State.World.ToggleAttribute | src/main/java/game/state/Entity.java:61-65 | the attributes become `Toggled` of the old ones |
| State.World.SwitchAttribute | src/main/java/game/state/Entity.java:67-73 | the attributes become `Switched` of the old ones |
| State.World.SetClosed | src/main/java/game/state/Entity.java:95-97 | only the `closed` flag of that entity changes, to the given value |
| State.World.SetFlag | src/main/java/game/logic/GameLogic.java:109 | the named boolean attribute reads back as set; every other boolean attribute and every other field is unchanged |
| State.World.ConnectUnidirectional | src/main/java/game/state/Entity.java:111-113 | the connections become `WithConnection` of the old ones |
| State.World.ConnectBidirectional | src/main/java/game/state/Entity.java:115-119 | fails (`thrown`) exactly for a null `to`, after writing only the forward entry (leading to null); otherwise both entries hold the same gate, the back entry leads to `e`, and the forward entry leads to `to` unless the two writes hit the same entry |
| State.World.RemoveSingleConnection | src/main/java/game/state/Entity.java:121-123 | the connections become `WithoutConnection` of the old ones |
| State.World.GetConnection | src/main/java/game/state/Entity.java:132-134 | a connection exists only for an entity of the world, and in a world whose connections all lead to entities it leads to, and is gated by, an entity or null |
| State.World.RemoveBidirectionalConnection | src/main/java/game/state/Entity.java:125-130 | fails (`thrown`) exactly when the forward entry leads to null, having removed that entry only; otherwise the forward entry led to an entity and the connections become `WithoutBidirectional` of the old ones |
| State.World.Collapse | src/main/java/game/state/EntitySet.java:76-83 | null exactly for an empty set; the only member of a singleton; some member otherwise |
| State.World.Size | src/main/java/game/state/EntitySet.java:52-54 | the size is 0 exactly when the set has no members (with `Links.WithMemberSize` for how `add` changes it) |
| State.World.Filtered | src/main/java/game/state/EntitySet.java:86 | the stream filter keeps exactly the listed entities that the predicate accepts |
| State.World.GetFiltered | src/main/java/game/state/EntitySet.java:85-87 | a new temporary set, under the next free handle, whose members are exactly the accepted members of the source set, with no actions; no existing set, action list, location, contents or index changes |
| State.World.PushSetAction | src/main/java/game/state/EntitySet.java:89-98 | a new action with the one-slot signature (this set, 1); `getPlayerActions(id)` of this set afterwards is the earlier list followed by it, and every other set's or id's list is unchanged |
| State.World.SetActionsUnder | src/main/java/game/state/EntitySet.java:100-103 | the empty list for an id (or set) with no registered actions; otherwise the actions registered under `id`, in order |
| State.World.PushPlayerAction | src/main/java/game/state/Entity.java:140-149 | a new action whose one slot is a new temporary set holding the entity, appended under `id`; the world gains only that set |
| State.World.TryActions | src/main/java/game/state/Entity.java:183-192 | true exactly when some action in the list executes with the entity as primary |
| State.World.TryExecutePlayerAction | src/main/java/game/state/Entity.java:160-181 | true exactly when some action executes, among the entity's own actions under `id` and then those of each containing persistent set |
| State.EntryCounts | src/main/java/game/logic/actionsystem/ActionSignature.java:69-71 | one count per entry, in push order |
| State.SlotsOf | src/main/java/game/logic/actionsystem/PlayerAction.java:107-108 | one slot per signature entry, holding that entry's set's current members and its count |
| State.PlayerAction.constructor | src/main/java/game/logic/actionsystem/PlayerAction.java:39-42 | an action with the given id and executor, an empty signature and total 0 |
| State.PlayerAction.PushVaryingNeededEntities | src/main/java/game/logic/actionsystem/PlayerAction.java:71-74 | appends one slot (set, count); the total grows by `count` and stays the sum of the counts |
| State.PlayerAction.PushNeededEntity | src/main/java/game/logic/actionsystem/PlayerAction.java:59-62 | appends one slot of count 1 over a new temporary set holding only the entity; the total grows by 1 |
| State.PlayerAction.Place | src/main/java/game/logic/actionsystem/PlayerAction.java:105-113 | one pass of the inner loop leaves the arrays as `PlaceOne` of the old ones |
| State.PlayerAction.Seed | src/main/java/game/logic/actionsystem/PlayerAction.java:95-102 | fresh arrays sized by the signature, with the primary entity, if any, at position 0 of slot 0 |
| State.PlayerAction.Fill | src/main/java/game/logic/actionsystem/PlayerAction.java:95-115 | after both loops the positions are `PlaceAll` of the secondary entities, in iteration order, over the seeded arrays |
| State.PlayerAction.TryExecute | src/main/java/game/logic/actionsystem/PlayerAction.java:90-120 | the result is `Outcome`: false on a count mismatch, false on a primary outside slot 0, false when a position stays empty, else the executor's verdict |
| State.AllFilled | src/main/java/game/logic/actionsystem/PlayerAction.java:116 | true exactly when no position is empty |
| Slots.SumAppend | src/main/java/game/logic/actionsystem/ActionSignature.java:39-42 | appending an entry of size n adds n to the sum of the sizes |
| Slots.Flatten | src/main/java/game/logic/actionsystem/ActionSignatureMatcher.java:27-34 | the entry index of every position: one index per position of the total, each below the entry count, non-decreasing |
| Slots.FlattenRange | src/main/java/game/logic/actionsystem/ActionSignatureMatcher.java:30-33 | entry i occupies exactly the consecutive positions from the sum of the earlier sizes, for its own size |
| Slots.PositionSetsAt | src/main/java/game/logic/actionsystem/PlayerAction.java:108-112 | the k-th position of slot i lies at the slot's offset plus k and accepts exactly slot i's set |
| Slots.FillsCount | src/main/java/game/logic/actionsystem/ActionSignatureMatcher.java:47-50 | a valid assignment uses exactly as many supplied entities as there are positions |
| Slots.DistinctFullCovers | src/main/java/game/logic/actionsystem/ActionSignatureMatcher.java:48-51 | distinct entities drawn from the supplied set, as many as it has, use every supplied entity |
| Greedy.FirstFit | src/main/java/game/logic/actionsystem/PlayerAction.java:106-113 | the first slot at or after `i` that has room and accepts the entity; every slot skipped is full or refuses it |
| Greedy.PlaceOne | src/main/java/game/logic/actionsystem/PlayerAction.java:104-113 | no slot is ever filled beyond its count |
| Greedy.PlaceOneFirstFit | src/main/java/game/logic/actionsystem/PlayerAction.java:106-112 | an entity that lands in slot i found room there and is accepted; every earlier slot was full or refused it; only slot i's count grows, by one |
| Greedy.PlaceAllNext | src/main/java/game/logic/actionsystem/PlayerAction.java:104 | placing the first k + 1 entities is placing the first k, then the next |
| Greedy.PlaceOneKeepsLayout | src/main/java/game/logic/actionsystem/PlayerAction.java:109 | slot i's filled positions stay exactly its first `count[i]` positions |
| Greedy.PlaceAllKeepsLayout | src/main/java/game/logic/actionsystem/PlayerAction.java:103-115 | the same holds after the whole loop, whatever the iteration order |
| Greedy.PlaceOneKeepsSound | src/main/java/game/logic/actionsystem/PlayerAction.java:108-109 | a newly placed entity sits in a position its slot accepts, and no entity occupies two positions |
| Greedy.PlaceAllKeepsSound | src/main/java/game/logic/actionsystem/PlayerAction.java:103-115 | after the loop every filled position holds a supplied entity its slot accepts, and none is duplicated |
| Greedy.StartInvariants | src/main/java/game/logic/actionsystem/PlayerAction.java:95-102 | the seeded arrays already have the shape the loop keeps |
| Greedy.GreedyLayout | src/main/java/game/logic/actionsystem/PlayerAction.java:95-115 | after both loops each slot's entities fill the first `count[i]` positions of its range |
| Greedy.AssignmentSome | src/main/java/game/logic/actionsystem/PlayerAction.java:91-118 | an accepted call supplied exactly the total number of entities, had its primary accepted by slot 0, and left no position empty |
| Greedy.FullPlacementFills | src/main/java/game/logic/actionsystem/PlayerAction.java:116-119 | a sound, duplicate-free placement without empty positions is a valid assignment of the supplied entities |
| Greedy.Assignment | src/main/java/game/logic/actionsystem/PlayerAction.java:90-119 | the executor is handed entities only when as many were supplied as the signature needs, exactly that many, and a primary entity was accepted by the first slot |
| Greedy.Outcome | src/main/java/game/logic/actionsystem/PlayerAction.java:90-120 | `tryExecute` can return true only after the count check and the primary check passed |
| Greedy.GreedySound | src/main/java/game/logic/actionsystem/PlayerAction.java:90-119 | when the primary entity is not also a secondary entity, whatever the executor is handed is a valid assignment: each position holds a distinct supplied entity its slot allows, and every supplied entity is used |
| Greedy.GreedyImpliesMatchable | src/main/java/game/logic/actionsystem/PlayerAction.java:90-119 | when the primary entity is not also a secondary entity, every call the greedy placement accepts is matchable, so the backtracking matcher accepts it too |
| Greedy.GreedyIncomplete | src/main/java/game/logic/actionsystem/PlayerAction.java:104-118 | the greedy placement can reject a matchable call: slots `{1, 2}` and `{1}` with order 1, 2 |
| Greedy.GreedyDropsSecond | src/main/java/game/logic/actionsystem/PlayerAction.java:104-118 | in that example entity 2 finds no slot and the call is rejected |
| Greedy.GreedyMayRepeatPrimary | src/main/java/game/logic/actionsystem/PlayerAction.java:97-113 | a primary entity that is also a secondary one is placed twice and the executor receives it twice |
| Signature.ActionSignature.constructor | src/main/java/game/logic/actionsystem/ActionSignature.java:19-20 | a signature with no entries and total 0 |
| Signature.ActionSignature.PushEntry | src/main/java/game/logic/actionsystem/ActionSignature.java:39-42 | exactly one entry is appended, earlier entries are untouched, and the total grows by the size |
| Signature.ActionSignature.PushEntity | src/main/java/game/logic/actionsystem/ActionSignature.java:28-30 | appends an entry of size 1 over a new temporary set holding only the entity |
| Signature.ActionSignature.TotalEntityCount | src/main/java/game/logic/actionsystem/ActionSignature.java:49-51 | the running total equals the sum of all pushed sizes |
| Signature.ActionSignature.EntryCount | src/main/java/game/logic/actionsystem/ActionSignature.java:58-60 | the number of entries pushed |
| Signature.ActionSignature.EntrySize | src/main/java/game/logic/actionsystem/ActionSignature.java:69-71 | the size given at the i-th push |
| Signature.ActionSignature.EntryEntitySet | src/main/java/game/logic/actionsystem/ActionSignature.java:80-82 | the current members of the set given at the i-th push |
| Matcher.FillRange | src/main/java/game/logic/actionsystem/ActionSignatureMatcher.java:32 | `Arrays.fill`: the range holds the value and the rest of the array is kept |
| Matcher.CompletesCons | src/main/java/game/logic/actionsystem/ActionSignatureMatcher.java:68-72 | an allowed pool member in front of a completion of the rest from the remaining pool completes from `idx` |
| Matcher.ExtensibleStep | src/main/java/game/logic/actionsystem/ActionSignatureMatcher.java:61-77 | positions idx.. can be completed exactly when some allowed pool member can be put at idx with the rest completable from the remaining pool (both directions) |
| Matcher.ExtensibleMatchable | src/main/java/game/logic/actionsystem/ActionSignatureMatcher.java:46-53 | with as many supplied entities as positions, a completion from position 0 exists exactly when a valid total assignment exists |
| Matcher.FillsCompletes | src/main/java/game/logic/actionsystem/ActionSignatureMatcher.java:61-77 | a valid total assignment is a completion from position 0 |
| Matcher.CompletionFills | src/main/java/game/logic/actionsystem/ActionSignatureMatcher.java:52 | a completion from position 0 using as many entities as were supplied is a valid total assignment, and it uses up every supplied entity |
| Matcher.UsedCons | src/main/java/game/logic/actionsystem/ActionSignatureMatcher.java:69-70 | the entities a completion uses are its first entity and those of the rest |
| Matcher.FoundStep | src/main/java/game/logic/actionsystem/ActionSignatureMatcher.java:69-72 | a successful recursive call after putting `e` at idx completes idx.. and uses `e` besides the rest's entities |
| Matcher.MatchableCount | src/main/java/game/logic/actionsystem/ActionSignatureMatcher.java:47-50 | only as many supplied entities as positions can be matched, so the count check rejects nothing matchable |
| Matcher.ActionSignatureMatcher.Allowed | src/main/java/game/logic/actionsystem/ActionSignatureMatcher.java:65-66 | one allowed set per position of the signature |
| Matcher.ActionSignatureMatcher.constructor | src/main/java/game/logic/actionsystem/ActionSignatureMatcher.java:25-35 | the entry-index array holds, for every position, its entry: length the total, non-decreasing, entry i over exactly its size's consecutive positions |
| Matcher.ActionSignatureMatcher.Match | src/main/java/game/logic/actionsystem/ActionSignatureMatcher.java:61-77 | succeeds exactly when positions idx.. can be completed from the working set. On success they hold a completion and the working set lost exactly the entities used; on failure the working set is restored; earlier positions are kept |
| Matcher.ActionSignatureMatcher.TryMatch | src/main/java/game/logic/actionsystem/ActionSignatureMatcher.java:46-53 | null on a count mismatch, leaving the working set and the matched array untouched; otherwise a result exactly when a valid total assignment exists, and that result is one (every position holds an entity its entry allows, pairwise distinct, using every supplied entity), read from the matched array, with the working set used up; on failure the working set is the supplied set |
| Game.GameState.constructor | src/main/java/game/state/GameState.java:9-11 | no id is registered |
| Game.GameState.CreateEntity | src/main/java/game/state/GameState.java:13-17 | a fresh entity with id `id`, under the next handle; the links become `WithEntity` of the old ones, the entity has no attributes, connections or flags, is open, and its contents set has no actions; looking up `id` now gives it, replacing any earlier entity; every other id looks up as before |
| Game.GameState.GetEntityById | src/main/java/game/state/GameState.java:19-21 | null exactly for an id never created; otherwise an existing entity carrying that id |
| Game.RegistryGrows | src/main/java/game/state/GameState.java:15 | registering a new entity under its own id keeps every id leading to an entity with that id |
| Logic.HouseGuardAsWrittenAdmitsNoTarget | src/main/java/game/logic/GameLogic.java:84 | the guard as written passes with the actor outside and no connected entity, which the intended guard refuses |
| Logic.HouseGuardNeedsTarget | src/main/java/game/logic/GameLogic.java:84 | the intended guard requires a target, and it agrees with the written guard whenever there is one |
| Logic.GameLogic.constructor | src/main/java/game/logic/GameLogic.java:23-38 | no action is registered (line 23); the Java constructor (lines 25-27) keeps only the parser, and the `world` and `player` parameters stand for the assignments of `gameState` and `player` in `loadGameState` (lines 30 and 38) |
| Logic.GameLogic.CreateAction | src/main/java/game/logic/GameLogic.java:150-156 | appends the action under `id` after the earlier ones, creating the list when absent; other ids are unchanged |
| Logic.GameLogic.TryExecuteAction | src/main/java/game/logic/GameLogic.java:179-189 | tries the actions under `id` in registration order and stops at the first success: the result is true exactly when one succeeds; false when none is registered |
| Logic.GameLogic.TryExecuteActionAlone | src/main/java/game/logic/GameLogic.java:166-168 | the same dispatch with no entities |
| Logic.GameLogic.Take | src/main/java/game/logic/GameLogic.java:45-58 | succeeds exactly when actor and collectible share a location and differ; then the links are `Relinked` with the collectible moved into the actor (contents and index follow, nothing else changes); otherwise nothing changes |
| Logic.GameLogic.Go | src/main/java/game/logic/GameLogic.java:62-77 | always true; when there is a connected entity and the move is allowed, the links are `Relinked` with the player, not the actor, moved to it; otherwise nothing changes |
| Logic.GameLogic.PassDoor | src/main/java/game/logic/GameLogic.java:85-94 | when the door's `open` flag is set and the move is allowed, the links are `Relinked` with the actor moved to the connected entity; otherwise nothing changes |
| Logic.GameLogic.GoHouseAsWritten | src/main/java/game/logic/GameLogic.java:81-98 | true exactly when the written guard holds; otherwise nothing changes. When it holds, the actor moves (the links are `Relinked`) only if the door is open and the move is allowed, else nothing changes; outside, with no connection and the door open, the actor ends up located nowhere |
| Logic.GameLogic.GoHouse | src/main/java/game/logic/GameLogic.java:81-98 | with the intended guard, true exactly when the guard holds; then the actor moves to the connected entity (the links are `Relinked`) only if the door is open and the move is allowed, else nothing changes; the actor is never detached |
| Logic.GameLogic.Open | src/main/java/game/logic/GameLogic.java:103-115 | true exactly when the actor is inside or outside the house; then the door is open; nothing else changes, and nothing at all when it fails or the door was open |
| Logic.GameLogic.Close | src/main/java/game/logic/GameLogic.java:117-129 | true exactly when the actor is inside or outside the house; then the door is not open; nothing else changes, and nothing at all when it fails or the door was closed |
| Actions.GoDirection.constructor | src/main/java/game/logic/actionsystem/actions/GoDirection.java:11-13 | keeps the direction id |
| Actions.GoDirection.Execute | src/main/java/game/logic/actionsystem/actions/GoDirection.java:20-43 | reports a null player, a null location, an unknown direction, a closed gate or a circular move exactly in their cases, changing nothing then; on success the links are `Relinked` with the player moved to the connection's target |
| Description.MainWord | src/main/java/game/logic/EntityDescription.java:14-17 | a word of the description |
| Description.Attributes | src/main/java/game/logic/EntityDescription.java:19-21 | every word but the last, in order |
| Description.AttributesThenMainWord | src/main/java/game/logic/EntityDescription.java:14-21 | attributes followed by the main word give back the word list, so the main word is the last word |
| Description.Split | src/main/java/game/logic/EntityDescription.java:23-26 | cutting a text at its spaces gives at least one piece |
| Description.SplitWordPrefix | src/main/java/game/logic/EntityDescription.java:25 | a word without spaces in front only lengthens the first piece |
| Description.SplitAfterSpace | src/main/java/game/logic/EntityDescription.java:25 | a leading space ends an empty first piece |
| Description.SplitJoin | src/main/java/game/logic/EntityDescription.java:25 | cutting the space-joined words gives back the words, when there is at least one and none holds a space |
| Description.Join | src/main/java/game/logic/EntityDescription.java:25 | no words join to the empty text; otherwise the text starts with the first word and is as long as all words plus one space between each two |
| Description.ToString | src/main/java/game/logic/EntityDescription.java:23-26 | the text is empty exactly when there are no words or a single empty word |
| Description.ToStringSplits | src/main/java/game/logic/EntityDescription.java:23-26 | `toString` joins the words with single spaces: cutting it at spaces gives back the words |

## Left out

- Console I/O: printed messages become outcome values (`GoOutcome`, the results of the executors) or are dropped. `Parser`, `Main`, `GameLogic.mainLoop`, `printRaw` and `close` are not part of this model.
- The wiring in `GameLogic.loadGameState` that loads entities by id and builds the five signatures is not modelled; only its two field assignments are, as parameters of the constructor. The five executors are modelled as methods of `GameLogic`. Their house and door entities are parameters.
- `Action.tryExecute` is not declared in the Java source, so the dispatch of `GameLogic` takes what it returns as a parameter (`attempt`). The side effects of one attempt on the next are not modelled.
- `Entity.getConnectedEntity` is not declared in the Java source; it is a parameter function of the go executors.
- `getBoolAttribute`/`setAttribute` are not declared in the Java source. They are modelled as a set of true boolean attributes per entity, false until set (`World.Flag`, `World.SetFlag`).
- The public `EntitySet(Entity)` constructor used by `ActionSignature.pushEntry(Entity)` is not declared in the Java source. It is modelled as a temporary set holding the entity.
- `PlayerActionExecutor` is a stub. A `PlayerAction`'s executor is a pure function of the entities it is handed, without side effects on the world.
- Hash iteration orders are parameters or a nondeterministic choice. These are the order of secondary entities in `tryExecute`, the order of containing sets in dispatch, and the candidate order in `match`. The contracts state what holds for every order.
- Java `int` overflow is not modelled: counts and sizes are unbounded naturals, and negative sizes are excluded by their type.
- State.PlayerAction.PushVaryingNeededEntities: requires a first slot with a count of at least 1. With a primary entity and a zero first slot, the Java code writes the primary into the next slot's range; the model does not capture that write.
- Matcher.ActionSignatureMatcher.TryMatch: requires a non-null set when the signature's total is 0. On a null set with total 0, the Java code passes the count check and then dereferences null; the model leaves that case out.
- Matcher.ActionSignatureMatcher.TryMatch: returns a copy of the matched entities, where `Arrays.asList` returns a view that later matches overwrite.
- State.World.ConnectBidirectional: the `NullPointerException` thrown for a null `to` is modelled as the `thrown` result; the forward entry is already written then, as in the Java code.
- State.World.RemoveBidirectionalConnection: the `NullPointerException` thrown for a forward entry that leads to null is modelled as the `thrown` result; the entry is already removed then, as in the Java code.
- Matcher.ActionSignatureMatcher.Match: requires the signature unchanged since the matcher was built. A later `pushEntry` leaves the Java arrays stale; the model does not follow that.
- Matcher.ActionSignatureMatcher.Match: after a failed match the contents of `matchedEntities` from `idx` on are not specified. The working set is modelled as a value, not as an `EntitySet` object.
- Logic.GameLogic.Go: requires the actor to be located, and the player to exist when there is a connected entity. The Java code throws a null pointer exception otherwise.
- Logic.GameLogic.GoHouseAsWritten: requires the actor to be located, where the Java code throws otherwise.
- `TakeFrom` and `Open` are not part of this model, because the helpers they call are not declared in the Java source. Neither is the `areas` package.
- `GameState(String)`, `getEntitySetById` and `EntitySet.contains`/`getAll`/`isEmpty` are not modelled as separate members. The last three are membership and emptiness of the modelled set.
- Description.MainWord: states only that the result is a word of the description; `AttributesThenMainWord` states that it is the last one.
- `EntityDescription` copies its argument list; the model holds the words as a value, so no later change of the caller's list can reach it.

## Findings

| source | as written | input that shows it | evidently intended | confidence | as-written member | corrected member |
|---|---|---|---|---|---|---|
| src/main/java/game/logic/GameLogic.java:84 | `newLocation != null && loc == houseInside \|\| loc == houseOutside` binds as `(newLocation != null && loc == houseInside) \|\| loc == houseOutside` | actor at `houseOutside`, no connection for the direction, door open: the guard passes and `setLocation(null)` detaches the actor from every location | `newLocation != null && (loc == houseInside \|\| loc == houseOutside)` | not executed | Logic.GameLogic.GoHouseAsWritten | Logic.GameLogic.GoHouse |
