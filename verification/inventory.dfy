/**
  The segment seat-inventory engine (class Ticket).

  A route is an ordered list of stations; for every pair of stations
  (stations[i], stations[j]) with i < j the engine keeps the list of seats
  still sellable on exactly that segment. Mutations fan out over every stored
  segment and, when they complete, notify the registered listener once.

  The Java map is a hash map; the order in which its entries are visited is
  the parameter `order` (the keys, each once). Every operation is a pure
  function from the old state to an `Outcome`: the new state and what the
  Java call returns or throws.
 */
module Inventory {
  import opened Errors
  import opened Lists
  import opened Intervals

  /**
    The engine's fields: the station list, the seat pool and the map from
    (start, end) station pairs to the seats still sellable on that segment.
    `notified` counts the change notifications delivered so far.
   */
  datatype Ticket<A(==), S> = Ticket(
    stations: seq<A>,
    pool: seq<S>,
    segs: map<(A, A), seq<S>>,
    notified: nat)

  /** The state after a call, and the call's return value or exception. */
  datatype Outcome<A(==), S> = Outcome(ticket: Ticket<A, S>, result: Result<bool>)

  /** The flag of notifySeatChanged together with the arguments it reads. */
  datatype Change<S> =
    | AddFlag(index: int, seat: S)
    | RemoveFlag(seat: S)
    | ClearFlag
    | SellFlag(start: int, end: int, seat: S)

  /** The map after a fan-out, and the exception that stopped it, if any. */
  datatype FanOutResult<A(==), S> = FanOutResult(segs: map<(A, A), seq<S>>, failure: Option<Error>)

  /** Every station pair (stations[i], stations[j]) with i < j. */
  function SegmentKeys<A(==)>(stations: seq<A>): set<(A, A)> {
    set i, j | 0 <= i < j < |stations| :: (stations[i], stations[j])
  }

  /** A key names a segment of the route: both stations known, start first. */
  predicate IsSegmentKey<A(==)>(stations: seq<A>, key: (A, A)) {
    key.0 in stations && key.1 in stations && IndexOf(stations, key.0) < IndexOf(stations, key.1)
  }

  /** A sequence that visits every key of `m` exactly once. */
  predicate EnumeratesKeys<K(==), V>(order: seq<K>, m: map<K, V>) {
    Distinct(order) && Elems(order) == m.Keys
  }

  /** Constructor and initAddress: every segment starts with a copy of the pool. */
  function Init<A(==), S>(stations: seq<A>, seats: seq<S>): (t: Ticket<A, S>)
    ensures t.stations == stations && t.pool == seats && t.notified == 0
    ensures forall i, j :: 0 <= i < j < |stations| ==>
              (stations[i], stations[j]) in t.segs && t.segs[(stations[i], stations[j])] == seats
    ensures forall k :: k in t.segs ==> t.segs[k] == seats
  {
    Ticket(stations, seats, map k | k in SegmentKeys(stations) :: seats, 0)
  }

  // ----- queries -------------------------------------------------------------

  /** indexOfAddress: the station's position on the route, or -1. */
  function IndexOfAddress<A(==), S>(t: Ticket<A, S>, a: A): (r: int)
    ensures r == -1 <==> a !in t.stations
    ensures 0 <= r ==> r < |t.stations| && t.stations[r] == a && a !in t.stations[..r]
  {
    IndexOf(t.stations, a)
  }

  /** containAddress: List.contains on the station list. */
  function ContainAddress<A(==), S>(t: Ticket<A, S>, a: A): (r: bool)
    ensures r <==> a in t.stations
  {
    IndexOfAddress(t, a) >= 0
  }

  /** indexOfSeat: the seat's position in the pool, or -1. */
  function IndexOfSeat<A(==), S(==)>(t: Ticket<A, S>, x: S): (r: int)
    ensures r == -1 <==> x !in t.pool
    ensures 0 <= r ==> r < |t.pool| && t.pool[r] == x && x !in t.pool[..r]
  {
    IndexOf(t.pool, x)
  }

  /** containSeat: List.contains on the seat pool. */
  function ContainSeat<A(==), S(==)>(t: Ticket<A, S>, x: S): (r: bool)
    ensures r <==> x in t.pool
  {
    IndexOfSeat(t, x) >= 0
  }

  /**
    getSeatsByAddress: scan the entries in the visit order `order` and return
    the list of the first one whose key equals (start, end), or None (Java's
    null) when the scan ends without a match.
   */
  function GetSeatsByAddress<A(==), S>(t: Ticket<A, S>, start: A, end: A, order: seq<(A, A)>): (r: Option<seq<S>>)
    ensures r.Some? <==> (start, end) in t.segs && (start, end) in order
    ensures r.Some? ==> r.value == t.segs[(start, end)]
    decreases |order|
  {
    if order == [] then None
    else if order[0] in t.segs && order[0] == (start, end) then Some(t.segs[order[0]])
    else GetSeatsByAddress(t, start, end, order[1..])
  }

  /**
    The public befContainAft overload: station names resolved by indexOf
    first. It succeeds exactly when both "before" stations and the after-end
    are known and both segments run forwards; an unknown after-start is not
    rejected and answers false.
   */
  function BefContainAftStations<A(==), S>(t: Ticket<A, S>, befStart: A, befEnd: A, aftStart: A, aftEnd: A): (r: Result<bool>)
    ensures r.Ok? <==>
              && befStart in t.stations && befEnd in t.stations && aftEnd in t.stations
              && IndexOf(t.stations, befStart) < IndexOf(t.stations, befEnd)
              && IndexOf(t.stations, aftStart) < IndexOf(t.stations, aftEnd)
    ensures r.Ok? ==>
              (r.value <==> aftStart in t.stations &&
                            IndexOf(t.stations, befStart) <= IndexOf(t.stations, aftStart) < IndexOf(t.stations, befEnd))
    ensures r.Err? ==> r.error.IllegalArgument?
  {
    BefContainAft(|t.stations|, IndexOf(t.stations, befStart), IndexOf(t.stations, befEnd),
                  IndexOf(t.stations, aftStart), IndexOf(t.stations, aftEnd))
  }

  // ----- the fan-out of notifySeatChanged ------------------------------------

  /** notifySeatChanged reads stations[start] and stations[end] for a sale. */
  predicate SellInRange<A, S>(stations: seq<A>, c: Change<S>) {
    c.SellFlag? ==> 0 <= c.start < |stations| && 0 <= c.end < |stations|
  }

  /**
    The conflict test of a sale against one stored key: befContainAft in both
    directions, each call resolving its four stations by indexOf.
   */
  function SegmentConflict<A(==)>(stations: seq<A>, start: A, end: A, key: (A, A)): (r: Result<bool>)
    ensures IsSegmentKey(stations, key) && IsSegmentKey(stations, (start, end)) ==>
              r == Ok(Overlap(IndexOf(stations, start), IndexOf(stations, end),
                              IndexOf(stations, key.0), IndexOf(stations, key.1)))
    ensures IsSegmentKey(stations, key) && start in stations && end in stations &&
            IndexOf(stations, end) <= IndexOf(stations, start) ==>
              r == Err(IllegalArgument(BefInterval))
  {
    EitherContains(|stations|, IndexOf(stations, start), IndexOf(stations, end),
                   IndexOf(stations, key.0), IndexOf(stations, key.1))
  }

  /** What one branch of notifySeatChanged does to one entry's list. */
  function Step<A(==), S(==)>(stations: seq<A>, c: Change<S>, key: (A, A), list: seq<S>): (r: Result<seq<S>>)
    ensures c.RemoveFlag? ==> r == Ok(RemoveFirst(list, c.seat))
    ensures c.ClearFlag? ==> r == Ok([])
    ensures c.AddFlag? ==> (r.Ok? <==> 0 <= c.index <= |list|)
    ensures c.AddFlag? && r.Ok? ==> 0 <= c.index <= |list| && r.value == Insert(list, c.index, c.seat)
  {
    match c
    case AddFlag(i, x) => AddStep(i, x, list)
    case RemoveFlag(x) => Ok(RemoveFirst(list, x))
    case ClearFlag => Ok([])
    case SellFlag(s, e, x) =>
      if SellInRange(stations, c) then SellStep(stations, stations[s], stations[e], x, key, list)
      else Err(IndexOutOfBounds)
  }

  /** The add branch: List.add(index, seat) on one entry. */
  function AddStep<S>(i: int, x: S, list: seq<S>): (r: Result<seq<S>>)
    ensures r.Ok? <==> 0 <= i <= |list|
    ensures r.Err? ==> r.error == IndexOutOfBounds
    ensures r.Ok? ==> 0 <= i <= |list| && r.value == Insert(list, i, x)
  {
    if 0 <= i <= |list| then Ok(Insert(list, i, x)) else Err(IndexOutOfBounds)
  }

  /** The sell branch: drop the seat from an entry whose key conflicts with start -> end. */
  function SellStep<A(==), S(==)>(stations: seq<A>, start: A, end: A, x: S, key: (A, A), list: seq<S>): (r: Result<seq<S>>)
    ensures IsSegmentKey(stations, key) && IsSegmentKey(stations, (start, end)) ==>
              r == Ok(if Overlap(IndexOf(stations, start), IndexOf(stations, end),
                                 IndexOf(stations, key.0), IndexOf(stations, key.1))
                      then RemoveFirst(list, x) else list)
    ensures IsSegmentKey(stations, key) && start in stations && end in stations &&
            IndexOf(stations, end) <= IndexOf(stations, start) ==>
              r == Err(IllegalArgument(BefInterval))
  {
    match SegmentConflict(stations, start, end, key)
    case Err(err) => Err(err)
    case Ok(hit) => Ok(if hit then RemoveFirst(list, x) else list)
  }

  /**
    The loop over the entry set, in the order `order`: each visited entry's
    list is replaced by its step; the first exception stops the loop and leaves
    the entries already visited changed.
   */
  function FanOut<A(==), S(==)>(stations: seq<A>, c: Change<S>, segs: map<(A, A), seq<S>>, order: seq<(A, A)>): (r: FanOutResult<A, S>)
    ensures r.segs.Keys == segs.Keys
    ensures forall k :: k in segs && k !in order ==> r.segs[k] == segs[k]
    ensures c.RemoveFlag? || c.ClearFlag? ==> r.failure.None?
    ensures c.AddFlag? && r.failure.Some? ==> r.failure == Some(IndexOutOfBounds)
    decreases |order|
  {
    if order == [] then FanOutResult(segs, None)
    else if order[0] !in segs then FanOut(stations, c, segs, order[1..])
    else
      match Step(stations, c, order[0], segs[order[0]])
      case Err(e) => FanOutResult(segs, Some(e))
      case Ok(list) => FanOut(stations, c, segs[order[0] := list], order[1..])
  }

  /**
    notifySeatChanged: fan the change out over every entry; when that
    completes, notify once and return true. An exception leaves the
    notification count alone.
   */
  function NotifySeatChanged<A(==), S(==)>(t: Ticket<A, S>, c: Change<S>, order: seq<(A, A)>): (r: Outcome<A, S>)
    ensures r.ticket.stations == t.stations && r.ticket.pool == t.pool
    ensures r.ticket.segs.Keys == t.segs.Keys
    ensures r.result.Ok? ==> r.result.value && r.ticket.notified == t.notified + 1
    ensures r.result.Err? ==> r.ticket.notified == t.notified
  {
    if !SellInRange(t.stations, c) then Outcome(t, Err(IndexOutOfBounds))
    else
      var applied := FanOut(t.stations, c, t.segs, order);
      match applied.failure
      case Some(e) => Outcome(t.(segs := applied.segs), Err(e))
      case None => Outcome(t.(segs := applied.segs, notified := t.notified + 1), Ok(true))
  }

  // ----- mutations -----------------------------------------------------------

  /**
    addSeat(seat): append to the pool, then insert into every segment at the
    pool's NEW size.
   */
  function AddSeat<A(==), S(==)>(t: Ticket<A, S>, x: S, order: seq<(A, A)>): (r: Outcome<A, S>)
    ensures x in t.pool ==> r == Outcome(t, Ok(false))
    ensures x !in t.pool ==> r.ticket.pool == t.pool + [x]
  {
    if ContainSeat(t, x) then Outcome(t, Ok(false))
    else
      var appended := t.(pool := t.pool + [x]);
      NotifySeatChanged(appended, AddFlag(|appended.pool|, x), order)
  }

  /** addSeat(index, seat): insert into the pool, then into every segment, at `index`. */
  function AddSeatAt<A(==), S(==)>(t: Ticket<A, S>, index: int, x: S, order: seq<(A, A)>): (r: Outcome<A, S>)
    ensures x in t.pool ==> r == Outcome(t, Ok(false))
    ensures x !in t.pool && !(0 <= index <= |t.pool|) ==> r == Outcome(t, Err(IndexOutOfBounds))
    ensures x !in t.pool && 0 <= index <= |t.pool| ==> r.ticket.pool == Insert(t.pool, index, x)
  {
    if ContainSeat(t, x) then Outcome(t, Ok(false))
    else if index < 0 || index > |t.pool| then Outcome(t, Err(IndexOutOfBounds))
    else NotifySeatChanged(t.(pool := Insert(t.pool, index, x)), AddFlag(index, x), order)
  }

  /** removeSeat: drop the seat from the pool and from every segment. */
  function RemoveSeat<A(==), S(==)>(t: Ticket<A, S>, x: S, order: seq<(A, A)>): (r: Outcome<A, S>)
    ensures x !in t.pool ==> r == Outcome(t, Ok(false))
    ensures x in t.pool ==> r.result == Ok(true) && r.ticket.notified == t.notified + 1
    ensures x in t.pool ==> multiset(r.ticket.pool) == multiset(t.pool) - multiset{x}
  {
    if x !in t.pool then Outcome(t, Ok(false))
    else
      RemoveFirstCount(t.pool, x);
      NotifySeatChanged(t.(pool := RemoveFirst(t.pool, x)), RemoveFlag(x), order)
  }

  /** clearSeat: clears the STATION list, then empties every segment list. */
  function ClearSeat<A(==), S(==)>(t: Ticket<A, S>, order: seq<(A, A)>): (r: Outcome<A, S>)
    ensures r.ticket.stations == [] && r.ticket.pool == t.pool
    ensures r.ticket.segs.Keys == t.segs.Keys
    ensures r.result == Ok(true) && r.ticket.notified == t.notified + 1
  {
    NotifySeatChanged(t.(stations := []), ClearFlag, order)
  }

  /** The private sellTicket over positions: range checks, then the fan-out. */
  function SellTicketAt<A(==), S(==)>(t: Ticket<A, S>, start: int, end: int, seat: int, order: seq<(A, A)>): (r: Outcome<A, S>)
    ensures !(0 <= start < |t.stations|) ==> r == Outcome(t, Err(IllegalArgument(StartAddress)))
    ensures 0 <= start < |t.stations| && !(0 <= end < |t.stations|) ==>
              r == Outcome(t, Err(IllegalArgument(EndAddress)))
    ensures 0 <= start < |t.stations| && 0 <= end < |t.stations| && !(0 <= seat < |t.pool|) ==>
              r == Outcome(t, Err(IllegalArgument(Seat)))
    ensures r.ticket.stations == t.stations && r.ticket.pool == t.pool
  {
    if start < 0 || start >= |t.stations| then Outcome(t, Err(IllegalArgument(StartAddress)))
    else if end < 0 || end >= |t.stations| then Outcome(t, Err(IllegalArgument(EndAddress)))
    else if seat < 0 || seat >= |t.pool| then Outcome(t, Err(IllegalArgument(Seat)))
    else NotifySeatChanged(t, SellFlag(start, end, t.pool[seat]), order)
  }

  /** The public sellTicket: resolve stations and seat by indexOf. */
  function SellTicket<A(==), S(==)>(t: Ticket<A, S>, start: A, end: A, x: S, order: seq<(A, A)>): (r: Outcome<A, S>)
    ensures start !in t.stations ==> r == Outcome(t, Err(IllegalArgument(StartAddress)))
    ensures start in t.stations && end !in t.stations ==> r == Outcome(t, Err(IllegalArgument(EndAddress)))
    ensures start in t.stations && end in t.stations && x !in t.pool ==> r == Outcome(t, Err(IllegalArgument(Seat)))
  {
    SellTicketAt(t, IndexOf(t.stations, start), IndexOf(t.stations, end), IndexOf(t.pool, x), order)
  }
}
