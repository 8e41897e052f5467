# Segment seat inventory (Ticket)

A Dafny model of the seat-inventory engine of the `Ticket` class. A route is an
ordered list of stations. For every pair of stations (stations[i], stations[j])
with i < j, the engine keeps the list of seats still sellable on exactly that
segment. Selling a seat between two stations removes it from every stored
segment that shares a leg with the sold one. Adding or removing a seat changes
the pool and every segment list. Clearing empties every segment list.

The model is purely functional:

- `Inventory.Ticket` holds the station list, the seat pool, the map from station
  pairs to seat lists, and a count of the change notifications delivered.
- Each public method is a function from the old engine to an `Outcome`: the new
  engine, and the Java return value or the exception thrown (`Errors.Result`).
- `notifySeatChanged` is split into two parts:
  - `Inventory.Step`: what one branch does to one entry;
  - `Inventory.FanOut`: the loop over the entries.
- The hash map visits its entries in an order the code does not control. The
  model takes that order as a parameter `order`. Every lemma proves its result
  for every order that lists each key exactly once.

Files:

- `errors.dfy`: exceptions, `Option` and `Result`.
- `lists.dfy`: the `java.util.List` operations used, over sequences. These are
  `indexOf`, `remove(Object)` and `add(index, e)`, each with a reference
  definition and connecting lemmas.
- `intervals.dfy`: the positional `befContainAft` test and the two-way conflict
  test built on it.
- `inventory.dfy`: the engine state and operations.
- `inventory_proofs.dfy`: the invariant, and order-independent reference
  outcomes for each mutation, with proofs that the modelled code produces them.
- `scenarios.dfy`: a worked three-station route.

The model reproduces these behaviours of the code as written:

- The range check meant for `aftStart` in `befContainAft` re-tests `befEnd`
  (Ticket.java line 269). An unknown after-station (index -1) therefore gives
  `false` rather than an exception.
- A sale never checks that the seat is still listed on the requested segment.
  It returns true and notifies even when the seat was sold already.
- A backwards request (end not after start) throws from the very first conflict
  test, before any list is changed, as long as at least one segment is stored.
- `clearSeat` clears the station list, not the seat pool (Ticket.java line
  192), although the class comment says the station list does not change once
  given (lines 14-15). The map keeps its keys, with every list empty, and every
  later sale is rejected.
- `addSeat(seat)` appends to the pool and then inserts into each segment at the
  pool's new size. By the invariant that index is past the end of every
  segment list, so the call throws `IndexOutOfBoundsException` whenever a
  segment exists, after the pool has already changed.
- `addSeat(index, seat)` can fail part-way through the loop. The entries visited
  before the short list already hold the new seat; which entries those are
  depends on the visit order. The pool keeps the seat and no notification is
  sent.
- The constructor does no validation. A route of any length is accepted. With
  a repeated station, `put` stores a pair more than once; every copy holds
  the same seat list, so the map is the same as one entry per distinct pair.

## Model

| member | source | states |
|---|---|---|
| Intervals.BefContainAft | src/com/wkp/ticket/Ticket.java:258-282 | succeeds exactly when the before-segment is a valid forward segment, aftEnd is in range and aftStart < aftEnd; the answer is befStart <= aftStart < befEnd; every failure is an IllegalArgumentException, raised in the order befStart, befEnd, aftEnd, before-interval; the aftStart range error is never raised |
| Intervals.UnknownAftStartIsFalse | src/com/wkp/ticket/Ticket.java:269-271 | an after-start of -1 passes the checks and yields false |
| Intervals.EitherContains | src/com/wkp/ticket/Ticket.java:94 | the short-circuit two-way test equals the half-open overlap s1 < e2 && s2 < e1 on valid segments, and throws the interval error when the first segment runs backwards |
| Intervals.EitherContainsSymmetric | src/com/wkp/ticket/Ticket.java:94 | the two-way test does not depend on argument order |
| Intervals.EitherContainsReflexive | src/com/wkp/ticket/Ticket.java:94 | every segment conflicts with itself |
| Intervals.TouchingSegmentsDoNotConflict | src/com/wkp/ticket/Ticket.java:281 | a -> b and b -> c do not conflict, in either order |
| Lists.IndexOf | src/com/wkp/ticket/Ticket.java:117-119 | -1 exactly for absent elements; otherwise the first position holding the element |
| Lists.IndexOfDistinct | src/com/wkp/ticket/Ticket.java:118 | in a duplicate-free list indexOf inverts indexing |
| Lists.RemoveFirst | src/com/wkp/ticket/Ticket.java:185 | an absent element leaves the list unchanged; a present one shortens it by one |
| Lists.RemoveFirstAtIndex | src/com/wkp/ticket/Ticket.java:185 | the removal cuts the list at the position indexOf reports |
| Lists.RemoveFirstCount | src/com/wkp/ticket/Ticket.java:185 | exactly one copy of the element leaves the multiset |
| Lists.Without | src/com/wkp/ticket/Ticket.java:77-79 | the filtered list has exactly the old elements minus the removed one |
| Lists.RemoveFirstIsWithout | src/com/wkp/ticket/Ticket.java:76-79 | on a duplicate-free list, remove(Object) equals filtering the element out, other elements keeping their order |
| Lists.WithoutDistinct | src/com/wkp/ticket/Ticket.java:77-79 | filtering keeps a list duplicate-free |
| Lists.Insert | src/com/wkp/ticket/Ticket.java:163 | add(index, e) puts e at index with the prefix and suffix unchanged |
| Lists.InsertThenRemove | src/com/wkp/ticket/Ticket.java:163 | inserting a new element then removing it gives back the list |
| Lists.WithoutInsert | src/com/wkp/ticket/Ticket.java:163 | filtering out a freshly inserted element gives back the list |
| Lists.InsertDistinct | src/com/wkp/ticket/Ticket.java:71 | inserting a new element keeps a list duplicate-free |
| Lists.InsertMembers | src/com/wkp/ticket/Ticket.java:71 | the inserted list holds the old elements plus the new one |
| Lists.DistinctSubsetLength | src/com/wkp/ticket/Ticket.java:51-53 | a duplicate-free list drawn from the pool is no longer than the pool |
| Inventory.Init | src/com/wkp/ticket/Ticket.java:38-56 | the constructor keeps stations and seats, and maps every pair (stations[i], stations[j]) with i < j to the seat list |
| InventoryProofs.SegmentKeyPositions | src/com/wkp/ticket/Ticket.java:49-53 | a pair is a stored key exactly when both stations are on the route, start first |
| InventoryProofs.InitSegments | src/com/wkp/ticket/Ticket.java:47-56 | after construction the keys are exactly the forward station pairs, each holding the whole seat list |
| InventoryProofs.InitSegmentCount | src/com/wkp/ticket/Ticket.java:49-55 | n distinct stations give n(n-1)/2 segments |
| InventoryProofs.InitValid | src/com/wkp/ticket/Ticket.java:38-56 | a duplicate-free seat list gives an engine satisfying the invariant |
| InventoryProofs.SegmentListsFitPool | src/com/wkp/ticket/Ticket.java:51-53 | under the invariant no segment lists more seats than the pool |
| Inventory.IndexOfAddress | src/com/wkp/ticket/Ticket.java:117-119 | -1 exactly for unknown stations; otherwise the station's first position |
| Inventory.ContainAddress | src/com/wkp/ticket/Ticket.java:128-130 | true exactly for stations on the route |
| Inventory.IndexOfSeat | src/com/wkp/ticket/Ticket.java:174-176 | -1 exactly for unknown seats; otherwise the seat's first position |
| Inventory.ContainSeat | src/com/wkp/ticket/Ticket.java:138-140 | true exactly for seats in the pool |
| Inventory.GetSeatsByAddress | src/com/wkp/ticket/Ticket.java:234-242 | the scan over the entries finds a list exactly when (start, end) is a stored key it visits, and returns that key's list |
| InventoryProofs.GetSeatsIsLookup | src/com/wkp/ticket/Ticket.java:234-242 | over any order visiting every key once, the scan returns the list stored under (start, end), or null when there is none |
| InventoryProofs.GetSeatsFindsSegments | src/com/wkp/ticket/Ticket.java:234-242 | while the route is known, a lookup succeeds exactly for forward station pairs |
| InventoryProofs.ReversedPairNotFound | src/com/wkp/ticket/Ticket.java:234-242 | the reversed pair of a segment is not found |
| Inventory.BefContainAftStations | src/com/wkp/ticket/Ticket.java:292-296 | succeeds exactly when befStart, befEnd and aftEnd are on the route and both segments run forwards; the answer is that aftStart is on the route with befStart <= aftStart < befEnd; every failure is an IllegalArgumentException |
| InventoryProofs.BefContainAftStationsKnown | src/com/wkp/ticket/Ticket.java:294-296 | on known forward segments the public overload is the positional containment test |
| InventoryProofs.BefContainAftUnknownAftStart | src/com/wkp/ticket/Ticket.java:294-296 | an unknown after-start station yields false, not an exception |
| Inventory.SegmentConflict | src/com/wkp/ticket/Ticket.java:94 | against a stored key, a forward request's test is the positional overlap of the two segments, and a backwards request's test throws the interval error |
| Inventory.SellStep | src/com/wkp/ticket/Ticket.java:93-96 | against a stored key, a forward request removes the seat from the list exactly when the key overlaps the request, and a backwards request throws the interval error |
| Inventory.Step | src/com/wkp/ticket/Ticket.java:65-98 | remove drops the first copy of the seat; clear empties the list; add succeeds exactly when the index is within the list, and then puts the seat at that index |
| Inventory.AddStep | src/com/wkp/ticket/Ticket.java:70-72 | add(index, seat) succeeds exactly for 0 <= index <= size, putting the seat at index, and otherwise throws IndexOutOfBounds |
| Inventory.FanOut | src/com/wkp/ticket/Ticket.java:70-96 | keeps the key set, leaves unvisited entries alone, never fails for remove or clear, and fails only with IndexOutOfBounds for add |
| InventoryProofs.FanOutReaches | src/com/wkp/ticket/Ticket.java:70-96 | when every visited step succeeds with a given list, the loop completes with exactly those lists |
| InventoryProofs.FanOutOverAllKeys | src/com/wkp/ticket/Ticket.java:70-96 | over any order listing every key once, the loop yields the stepped map, whatever the order |
| InventoryProofs.FanOutFailure | src/com/wkp/ticket/Ticket.java:70-72 | a throwing step on a visited entry makes the loop throw |
| InventoryProofs.FanOutEach | src/com/wkp/ticket/Ticket.java:70-72 | after the loop, even a failed one, each list is either unchanged or its step's result |
| Inventory.NotifySeatChanged | src/com/wkp/ticket/Ticket.java:65-109 | stations and pool stay the same and keys are kept; success returns true and notifies once; an exception sends no notification |
| Inventory.AddSeat | src/com/wkp/ticket/Ticket.java:148-150 | a known seat gives false with no change; a new seat is appended to the pool |
| InventoryProofs.AppendIndexBeyondEverySegment | src/com/wkp/ticket/Ticket.java:149 | the append overload's index is past the end of every segment list |
| InventoryProofs.AppendThenRemoveRestores | src/com/wkp/ticket/Ticket.java:148-186 | addSeat(s) of a new seat followed by removeSeat(s) restores the pool and every list, whether the append threw or not; two notifications on success, one otherwise |
| InventoryProofs.WithoutEverywhereAbsent | src/com/wkp/ticket/Ticket.java:74-79 | filtering a seat the pool lacks leaves every list as it is |
| InventoryProofs.AddSeatOutcome | src/com/wkp/ticket/Ticket.java:148-150 | known seat: false and no change; no segments: appended and notified; otherwise appended to the pool then IndexOutOfBounds with segments unchanged; the invariant is kept |
| Inventory.AddSeatAt | src/com/wkp/ticket/Ticket.java:159-166 | a known seat gives false with no change; an index outside the pool throws with no change; otherwise the pool gets the seat at index |
| InventoryProofs.AddSeatAtInserts | src/com/wkp/ticket/Ticket.java:159-166 | when every list can take the index, the seat lands at the index in the pool and in every list, with one notification and result true |
| InventoryProofs.AddSeatAtShortSegment | src/com/wkp/ticket/Ticket.java:163-164 | a list shorter than the index makes the call throw with the pool already changed and no notification; each list is unchanged or has the seat inserted |
| InventoryProofs.AddSeatAtKeepsList | src/com/wkp/ticket/Ticket.java:68-72 | each list after the insert is duplicate-free and drawn from the new pool |
| InventoryProofs.AddSeatAtPreservesValid | src/com/wkp/ticket/Ticket.java:159-166 | addSeat(index, seat) keeps the invariant, even when it throws part-way |
| InventoryProofs.WithoutInsertEverywhere | src/com/wkp/ticket/Ticket.java:71 | filtering the inserted seat out of every list restores the map |
| InventoryProofs.AddThenRemoveRestores | src/com/wkp/ticket/Ticket.java:159-186 | when every list can take the index, addSeat(i, s) followed by removeSeat(s) restores the pool and every list, with two notifications |
| InventoryProofs.AddFailureThenRemoveRestores | src/com/wkp/ticket/Ticket.java:159-186 | when a list is too short, addSeat(i, s) throws, and removeSeat(s) then still restores the pool and every list, with one notification |
| InventoryProofs.WithoutUndoesPartialInsert | src/com/wkp/ticket/Ticket.java:68-79 | filtering the seat out of lists that each either lack it or just had it inserted restores every list |
| Lists.WithoutAppend | src/com/wkp/ticket/Ticket.java:149 | filtering out a freshly appended element gives back the list |
| Inventory.RemoveSeat | src/com/wkp/ticket/Ticket.java:184-186 | an unknown seat gives false with no change; a known seat gives true, one notification, and the pool loses exactly one copy of it |
| InventoryProofs.RemoveSeatMeetsSpec | src/com/wkp/ticket/Ticket.java:184-186 | removeSeat takes the seat out of the pool and out of every segment list, keeping the other seats in order, whatever the visit order |
| InventoryProofs.RemoveSeatPreservesValid | src/com/wkp/ticket/Ticket.java:74-80 | removeSeat keeps the invariant |
| Inventory.ClearSeat | src/com/wkp/ticket/Ticket.java:191-194 | the station list becomes empty, the pool and the keys stay, and one notification is sent; Java's method returns nothing, and the result `Ok(true)` stands for the discarded return of notifySeatChanged |
| InventoryProofs.ClearSeatEmptiesEverySegment | src/com/wkp/ticket/Ticket.java:82-86 | every segment list becomes empty and the invariant is kept |
| InventoryProofs.SellAfterClearFails | src/com/wkp/ticket/Ticket.java:204-207 | after clearSeat every sale throws the start-station error and changes nothing |
| Inventory.SellTicketAt | src/com/wkp/ticket/Ticket.java:204-215 | out-of-range start, end or seat positions throw their argument errors, in that order, with no change; stations and pool never change |
| Inventory.SellTicket | src/com/wkp/ticket/Ticket.java:224-226 | an unknown start, end or seat throws its argument error, in that order, with no change |
| InventoryProofs.SellTicketReachesFanOut | src/com/wkp/ticket/Ticket.java:224-226 | with all names known the public sale is the fan-out of a sale between their positions |
| InventoryProofs.SellStepBackwards | src/com/wkp/ticket/Ticket.java:275-276 | a backwards request throws the interval error on any stored segment |
| InventoryProofs.SellStepForwards | src/com/wkp/ticket/Ticket.java:93-96 | a forward request filters the seat out of a list exactly when its key overlaps the request |
| InventoryProofs.SellStepSold | src/com/wkp/ticket/Ticket.java:91-96 | each stored key's step produces that key's entry of the reference map |
| InventoryProofs.SellStepsSold | src/com/wkp/ticket/Ticket.java:91-96 | every stored key's step produces its entry of the reference map |
| InventoryProofs.SellFanOutForwards | src/com/wkp/ticket/Ticket.java:88-98 | a forward sale's loop completes, leaving exactly the reference map |
| InventoryProofs.SellBackwardsMeetsSpec | src/com/wkp/ticket/Ticket.java:275-277 | a backwards request between known stations is rejected with no change while any segment exists |
| InventoryProofs.SellForwardsMeetsSpec | src/com/wkp/ticket/Ticket.java:88-98 | a forward request takes the seat off every overlapping segment and keeps the rest |
| InventoryProofs.SellTicketMeetsSpec | src/com/wkp/ticket/Ticket.java:204-226 | sellTicket equals the reference outcome for every visit order: argument errors, the backwards rejection, or removal from exactly the overlapping segments with true and one notification |
| InventoryProofs.ShrinkingListsKeepValid | src/com/wkp/ticket/Ticket.java:91-96 | replacing lists by duplicate-free sublists keeps the invariant |
| InventoryProofs.SellTicketPreservesValid | src/com/wkp/ticket/Ticket.java:88-98 | a sale keeps the invariant |
| InventoryProofs.SellAlwaysSucceedsForward | src/com/wkp/ticket/Ticket.java:88-98 | a forward sale of a known seat returns true and notifies once, and the seat is then off the requested segment, whether or not it was listed there |
| InventoryProofs.SellSparesTouchingSegments | src/com/wkp/ticket/Ticket.java:94 | selling a -> b leaves b -> c untouched, and the other way round |
| Scenarios.ThreeStationRoute | src/com/wkp/ticket/Ticket.java:47-56 | stations A, B, C with seats 1, 2 give segments A-B, A-C and B-C, each holding both seats |
| Scenarios.SellOnFirstLeg | src/com/wkp/ticket/Ticket.java:88-98 | selling seat 1 on A-B removes it from A-B and A-C but not from B-C |

## Left out

- `Main.java`: the console loop, input parsing, random seat choice and printing. These are user-interface code.
- Threads: `synchronized` and the `ConcurrentHashMap` are left out. The engine is modelled single-threaded.
- The listener object and `setOnSeatChangedListener` are left out. `notified` counts the notifications that would reach a registered listener; the null check on the listener is not modelled.
- `getAddressToSeat` returns the live map. In the model that map is the `segs` field.
- Java aliasing is left out. The caller's station list shared with the engine, and the live lists returned by lookups, are reference effects with no logic of their own.
- `javafx.util.Pair` and `@NotNull` are foreign library types; a Dafny tuple stands in for `Pair`.
- The hash map's iteration order is the parameter `order`. Lemmas hold for every order listing each key once.
- The `default` branch of `notifySeatChanged` is left out: every caller passes one of the four flags, so `Change` has four cases.
- Exception messages are left out. An error records which argument was rejected, not the message text.
- Java `int` is 32 bits wide; the model uses unbounded integers. Every index stays within a list size, so no arithmetic wraps.
- Inventory.FanOut: its contract does not state each entry's new list; FanOutReaches, FanOutFailure and FanOutEach state that.
- Inventory.SellTicketAt: its contract states only the range errors; the outcome of an in-range sale is stated by SellTicketMeetsSpec.
