/**
  What the inventory engine guarantees: the invariant every operation keeps,
  the shape of the map built at construction, and, for each mutation, an
  order-independent reference outcome that the modelled Java code is proved
  to produce whatever order the hash map visits its entries in.
 */
module InventoryProofs {
  import opened Errors
  import opened Lists
  import opened Intervals
  import opened Inventory

  /**
    The engine invariant: stations and seats are duplicate-free, every segment
    list is duplicate-free and drawn from the pool, and while the route is
    known the keys are exactly its station pairs (clearSeat empties the
    station list but keeps the keys).
   */
  ghost predicate Valid<A, S>(t: Ticket<A, S>) {
    && Distinct(t.stations)
    && Distinct(t.pool)
    && (forall k :: k in t.segs ==> Distinct(t.segs[k]))
    && (forall k, y :: k in t.segs && y in t.segs[k] ==> y in t.pool)
    && (t.stations != [] ==> t.segs.Keys == SegmentKeys(t.stations))
  }

  // ----- construction --------------------------------------------------------

  /** A stored pair is a segment key exactly when its start precedes its end on the route. */
  lemma SegmentKeyPositions<A>(stations: seq<A>, k: (A, A))
    requires Distinct(stations)
    ensures k in SegmentKeys(stations) <==> IsSegmentKey(stations, k)
  {
    if k in SegmentKeys(stations) {
      var i, j :| 0 <= i < j < |stations| && k == (stations[i], stations[j]);
      IndexOfDistinct(stations, i);
      IndexOfDistinct(stations, j);
    }
    if IsSegmentKey(stations, k) {
      var i, j := IndexOf(stations, k.0), IndexOf(stations, k.1);
      assert k == (stations[i], stations[j]);
    }
  }

  /** After construction the keys are exactly the route's segments, each holding the whole pool. */
  lemma InitSegments<A, S>(stations: seq<A>, seats: seq<S>, k: (A, A))
    requires Distinct(stations)
    ensures k in Init(stations, seats).segs <==> IsSegmentKey(stations, k)
    ensures k in Init(stations, seats).segs ==> Init(stations, seats).segs[k] == seats
  {
    SegmentKeyPositions(stations, k);
  }

  /** The pairs whose end is `x` and whose start is one of `p`. */
  ghost function Column<A>(p: seq<A>, x: A): set<(A, A)> {
    set i | 0 <= i < |p| :: (p[i], x)
  }

  lemma {:induction false} ColumnCount<A>(p: seq<A>, x: A)
    requires Distinct(p)
    ensures |Column(p, x)| == |p|
  {
    if |p| > 0 {
      var n := |p| - 1;
      var q := p[..n];
      assert Distinct(q) by {
        forall i, j | 0 <= i < j < |q| ensures q[i] != q[j] {
          assert q[i] == p[i] && q[j] == p[j];
        }
      }
      ColumnCount(q, x);
      forall k | k in Column(p, x) ensures k in Column(q, x) + {(p[n], x)} {
        var i :| 0 <= i < |p| && k == (p[i], x);
        if i < n {
          assert k == (q[i], x);
        }
      }
      forall k | k in Column(q, x) + {(p[n], x)} ensures k in Column(p, x) {
        if k in Column(q, x) {
          var i :| 0 <= i < |q| && k == (q[i], x);
          assert k == (p[i], x);
        } else {
          assert k == (p[n], x);
        }
      }
      assert Column(p, x) == Column(q, x) + {(p[n], x)};
      forall i | 0 <= i < |q| ensures (q[i], x) != (p[n], x) {
        assert q[i] == p[i];
      }
      assert (p[n], x) !in Column(q, x);
    }
  }

  /** Appending station `x` adds one segment ending at `x` for every earlier station. */
  lemma SegmentKeysSnoc<A>(p: seq<A>, x: A)
    requires Distinct(p + [x])
    ensures SegmentKeys(p + [x]) == SegmentKeys(p) + Column(p, x)
    ensures SegmentKeys(p) !! Column(p, x)
  {
    var stations := p + [x];
    var n := |p|;
    forall k | k in SegmentKeys(stations) ensures k in SegmentKeys(p) + Column(p, x) {
      var i, j :| 0 <= i < j < |stations| && k == (stations[i], stations[j]);
      if j < n {
        assert k == (p[i], p[j]);
      } else {
        assert k == (p[i], x);
      }
    }
    forall k | k in SegmentKeys(p) + Column(p, x) ensures k in SegmentKeys(stations) {
      if k in SegmentKeys(p) {
        var i, j :| 0 <= i < j < |p| && k == (p[i], p[j]);
        assert k == (stations[i], stations[j]);
      } else {
        var i :| 0 <= i < |p| && k == (p[i], x);
        assert k == (stations[i], stations[n]);
      }
    }
    forall k | k in SegmentKeys(p) ensures k !in Column(p, x) {
      var i, j :| 0 <= i < j < |p| && k == (p[i], p[j]);
      assert k.1 == stations[j] != stations[n];
    }
  }

  lemma {:induction false} SegmentKeysCount<A>(stations: seq<A>)
    requires Distinct(stations)
    ensures 2 * |SegmentKeys(stations)| == |stations| * (|stations| - 1)
  {
    if |stations| > 0 {
      var n := |stations| - 1;
      var p, x := stations[..n], stations[n];
      assert stations == p + [x];
      assert Distinct(p) by {
        forall i, j | 0 <= i < j < |p| ensures p[i] != p[j] {
          assert p[i] == stations[i] && p[j] == stations[j];
        }
      }
      SegmentKeysCount(p);
      ColumnCount(p, x);
      SegmentKeysSnoc(p, x);
      var before, after := SegmentKeys(p), SegmentKeys(stations);
      assert |after| == |before| + n;
      PairCountStep(n, |before|, |after|);
    }
  }

  lemma PairCountStep(n: int, before: int, after: int)
    requires 2 * before == n * (n - 1)
    requires after == before + n
    ensures 2 * after == (n + 1) * n
  {
  }

  /** n stations give n(n-1)/2 segments. */
  lemma InitSegmentCount<A, S>(stations: seq<A>, seats: seq<S>)
    requires Distinct(stations)
    ensures |Init(stations, seats).segs| == |stations| * (|stations| - 1) / 2
  {
    SegmentKeysCount(stations);
    assert Init(stations, seats).segs.Keys == SegmentKeys(stations);
  }

  /** A duplicate-free seat list gives a valid engine. */
  lemma InitValid<A, S>(stations: seq<A>, seats: seq<S>)
    requires Distinct(stations)
    requires Distinct(seats)
    ensures Valid(Init(stations, seats))
  {
  }

  // ----- the fan-out ---------------------------------------------------------

  /**
    When every visited key's step succeeds with the list `want` holds for it,
    and `want` keeps the unvisited entries, the fan-out completes with `want`.
   */
  lemma {:induction false} FanOutReaches<A, S>(stations: seq<A>, c: Change<S>, segs: map<(A, A), seq<S>>, order: seq<(A, A)>, want: map<(A, A), seq<S>>)
    requires Distinct(order)
    requires want.Keys == segs.Keys
    requires forall k :: k in order ==> k in segs && Step(stations, c, k, segs[k]) == Ok(want[k])
    requires forall k :: k in segs && k !in order ==> want[k] == segs[k]
    ensures FanOut(stations, c, segs, order) == FanOutResult(want, None)
    decreases |order|
  {
    if order == [] {
      assert segs == want;
    } else {
      var k0, rest := order[0], order[1..];
      DistinctTail(order);
      assert forall k :: k in order <==> k == k0 || k in rest;
      var segs1 := segs[k0 := want[k0]];
      assert FanOut(stations, c, segs, order) == FanOut(stations, c, segs1, rest);
      assert forall k :: k in rest ==> segs1[k] == segs[k];
      FanOutReaches(stations, c, segs1, rest, want);
    }
  }

  /** A fan-out over all the keys whose every step succeeds yields the stepped map. */
  lemma FanOutOverAllKeys<A, S>(stations: seq<A>, c: Change<S>, segs: map<(A, A), seq<S>>, order: seq<(A, A)>, want: map<(A, A), seq<S>>)
    requires EnumeratesKeys(order, segs)
    requires want.Keys == segs.Keys
    requires forall k :: k in segs ==> Step(stations, c, k, segs[k]) == Ok(want[k])
    ensures FanOut(stations, c, segs, order) == FanOutResult(want, None)
  {
    EnumerationMembers(order, segs);
    FanOutReaches(stations, c, segs, order, want);
  }

  /** A step that throws on a visited key makes the whole fan-out throw. */
  lemma {:induction false} FanOutFailure<A, S>(stations: seq<A>, c: Change<S>, segs: map<(A, A), seq<S>>, order: seq<(A, A)>, k: (A, A))
    requires Distinct(order)
    requires k in order && k in segs
    requires Step(stations, c, k, segs[k]).Err?
    ensures FanOut(stations, c, segs, order).failure.Some?
    decreases |order|
  {
    var k0, rest := order[0], order[1..];
    DistinctTail(order);
    if k0 != k {
      assert k in rest;
      if k0 !in segs {
        FanOutFailure(stations, c, segs, rest, k);
      } else if Step(stations, c, k0, segs[k0]).Ok? {
        var segs1 := segs[k0 := Step(stations, c, k0, segs[k0]).value];
        FanOutFailure(stations, c, segs1, rest, k);
      }
    }
  }

  /** Even when a step throws, every entry is either untouched or stepped exactly once. */
  lemma {:induction false} FanOutEach<A, S>(stations: seq<A>, c: Change<S>, segs: map<(A, A), seq<S>>, order: seq<(A, A)>, k: (A, A))
    requires Distinct(order)
    requires k in segs
    ensures var r := FanOut(stations, c, segs, order);
      r.segs[k] == segs[k] ||
      (Step(stations, c, k, segs[k]).Ok? && r.segs[k] == Step(stations, c, k, segs[k]).value)
    decreases |order|
  {
    if order != [] {
      var k0, rest := order[0], order[1..];
      DistinctTail(order);
      if k0 !in segs {
        FanOutEach(stations, c, segs, rest, k);
      } else if Step(stations, c, k0, segs[k0]).Ok? {
        var segs1 := segs[k0 := Step(stations, c, k0, segs[k0]).value];
        FanOutEach(stations, c, segs1, rest, k);
      }
    }
  }

  /** The visit order is empty exactly when the map is; otherwise its first key is stored. */
  lemma EnumerationHead<K, V>(order: seq<K>, m: map<K, V>)
    requires EnumeratesKeys(order, m)
    ensures order == [] <==> m == map[]
    ensures order != [] ==> order[0] in m
  {
    if order != [] {
      assert order[0] in Elems(order);
    } else {
      assert m.Keys == {};
    }
  }

  /** Every visited key is a stored key. */
  lemma EnumerationMembers<K, V>(order: seq<K>, m: map<K, V>)
    requires EnumeratesKeys(order, m)
    ensures forall i :: 0 <= i < |order| ==> order[i] in m
    ensures forall k :: k in m ==> k in order
  {
    forall i | 0 <= i < |order| ensures order[i] in m {
      assert order[i] in Elems(order);
    }
    forall k | k in m ensures k in order {
      assert k in Elems(order);
    }
  }

  // ----- sellTicket ----------------------------------------------------------

  /** Reference conflict rule: the two segments, as route positions, share a leg. */
  predicate Conflicts<A(==)>(stations: seq<A>, start: A, end: A, key: (A, A)) {
    Overlap(IndexOf(stations, start), IndexOf(stations, end), IndexOf(stations, key.0), IndexOf(stations, key.1))
  }

  /**
    Reference outcome of selling seat `x` on start -> end: reject unknown
    stations or seats, and a backwards request while any segment exists;
    otherwise remove `x` from every segment that conflicts with the request
    (available there or not), report true and notify once.
   */
  function SellSpec<A(==), S(==)>(t: Ticket<A, S>, start: A, end: A, x: S): Outcome<A, S> {
    if start !in t.stations then Outcome(t, Err(IllegalArgument(StartAddress)))
    else if end !in t.stations then Outcome(t, Err(IllegalArgument(EndAddress)))
    else if x !in t.pool then Outcome(t, Err(IllegalArgument(Seat)))
    else if IndexOf(t.stations, end) <= IndexOf(t.stations, start) && t.segs != map[] then
      Outcome(t, Err(IllegalArgument(BefInterval)))
    else Outcome(t.(segs := SoldSegs(t, start, end, x), notified := t.notified + 1), Ok(true))
  }

  /** Every segment conflicting with start -> end loses `x`; the rest are kept. */
  function SoldSegs<A(==), S(==)>(t: Ticket<A, S>, start: A, end: A, x: S): map<(A, A), seq<S>> {
    map k | k in t.segs :: if Conflicts(t.stations, start, end, k) then Without(t.segs[k], x) else t.segs[k]
  }

  /** With all three names known, the public sale reaches the fan-out with their positions. */
  lemma SellTicketReachesFanOut<A, S>(t: Ticket<A, S>, start: A, end: A, x: S, order: seq<(A, A)>)
    requires start in t.stations && end in t.stations && x in t.pool
    ensures SellTicket(t, start, end, x, order) ==
            NotifySeatChanged(t, SellFlag(IndexOf(t.stations, start), IndexOf(t.stations, end), x), order)
  {
  }

  /** A backwards request makes the conflict test throw on any stored segment. */
  lemma SellStepBackwards<A, S>(t: Ticket<A, S>, start: A, end: A, x: S, k: (A, A))
    requires Distinct(t.stations) && t.stations != []
    requires t.segs.Keys == SegmentKeys(t.stations)
    requires start in t.stations && end in t.stations
    requires IndexOf(t.stations, end) <= IndexOf(t.stations, start)
    requires k in t.segs
    ensures Step(t.stations, SellFlag(IndexOf(t.stations, start), IndexOf(t.stations, end), x), k, t.segs[k])
            == Err(IllegalArgument(BefInterval))
  {
    SegmentKeyPositions(t.stations, k);
  }

  /** A forward request removes `x` from the list exactly when the key conflicts. */
  lemma SellStepForwards<A, S>(stations: seq<A>, start: A, end: A, x: S, k: (A, A), list: seq<S>)
    requires start in stations && end in stations
    requires IndexOf(stations, start) < IndexOf(stations, end)
    requires IsSegmentKey(stations, k)
    requires Distinct(list)
    ensures Step(stations, SellFlag(IndexOf(stations, start), IndexOf(stations, end), x), k, list)
            == Ok(if Conflicts(stations, start, end, k) then Without(list, x) else list)
  {
    RemoveFirstIsWithout(list, x);
  }

  /** On a stored key, a forward request's step produces that key's entry of the reference map. */
  lemma SellStepSold<A, S>(t: Ticket<A, S>, start: A, end: A, x: S, k: (A, A))
    requires Distinct(t.stations) && t.segs.Keys == SegmentKeys(t.stations)
    requires k in t.segs && Distinct(t.segs[k])
    requires start in t.stations && end in t.stations
    requires IndexOf(t.stations, start) < IndexOf(t.stations, end)
    ensures Step(t.stations, SellFlag(IndexOf(t.stations, start), IndexOf(t.stations, end), x), k, t.segs[k])
            == Ok(SoldSegs(t, start, end, x)[k])
  {
    SegmentKeyPositions(t.stations, k);
    SellStepForwards(t.stations, start, end, x, k, t.segs[k]);
  }

  /** Every stored key's step of a forward request produces its entry of the reference map. */
  lemma SellStepsSold<A, S>(t: Ticket<A, S>, start: A, end: A, x: S)
    requires Distinct(t.stations) && t.segs.Keys == SegmentKeys(t.stations)
    requires forall k :: k in t.segs ==> Distinct(t.segs[k])
    requires start in t.stations && end in t.stations
    requires IndexOf(t.stations, start) < IndexOf(t.stations, end)
    ensures forall k :: k in t.segs ==>
              Step(t.stations, SellFlag(IndexOf(t.stations, start), IndexOf(t.stations, end), x), k, t.segs[k])
              == Ok(SoldSegs(t, start, end, x)[k])
  {
    forall k | k in t.segs
      ensures Step(t.stations, SellFlag(IndexOf(t.stations, start), IndexOf(t.stations, end), x), k, t.segs[k])
              == Ok(SoldSegs(t, start, end, x)[k])
    {
      SellStepSold(t, start, end, x, k);
    }
  }

  /** A forward sale's fan-out completes and leaves exactly the reference map. */
  lemma SellFanOutForwards<A, S>(t: Ticket<A, S>, start: A, end: A, x: S, order: seq<(A, A)>)
    requires Distinct(t.stations) && t.segs.Keys == SegmentKeys(t.stations)
    requires forall k :: k in t.segs ==> Distinct(t.segs[k])
    requires EnumeratesKeys(order, t.segs)
    requires start in t.stations && end in t.stations
    requires IndexOf(t.stations, start) < IndexOf(t.stations, end)
    ensures FanOut(t.stations, SellFlag(IndexOf(t.stations, start), IndexOf(t.stations, end), x), t.segs, order)
            == FanOutResult(SoldSegs(t, start, end, x), None)
  {
    SellStepsSold(t, start, end, x);
    FanOutOverAllKeys(t.stations, SellFlag(IndexOf(t.stations, start), IndexOf(t.stations, end), x),
                      t.segs, order, SoldSegs(t, start, end, x));
  }

  /** A backwards request between known stations is rejected while any segment exists. */
  lemma SellBackwardsMeetsSpec<A, S>(t: Ticket<A, S>, start: A, end: A, x: S, order: seq<(A, A)>)
    requires Valid(t)
    requires EnumeratesKeys(order, t.segs) && t.segs != map[]
    requires start in t.stations && end in t.stations && x in t.pool
    requires IndexOf(t.stations, end) <= IndexOf(t.stations, start)
    ensures SellTicket(t, start, end, x, order) == SellSpec(t, start, end, x)
  {
    EnumerationHead(order, t.segs);
    SellTicketReachesFanOut(t, start, end, x, order);
    SellStepBackwards(t, start, end, x, order[0]);
  }

  /** A forward request between known stations removes the seat from every conflicting segment. */
  lemma SellForwardsMeetsSpec<A, S>(t: Ticket<A, S>, start: A, end: A, x: S, order: seq<(A, A)>)
    requires Valid(t)
    requires EnumeratesKeys(order, t.segs)
    requires start in t.stations && end in t.stations && x in t.pool
    requires IndexOf(t.stations, start) < IndexOf(t.stations, end)
    ensures SellTicket(t, start, end, x, order) == SellSpec(t, start, end, x)
  {
    SellTicketReachesFanOut(t, start, end, x, order);
    SellFanOutForwards(t, start, end, x, order);
  }

  /** On a valid engine a sale does what the reference says, whatever the visit order. */
  lemma SellTicketMeetsSpec<A, S>(t: Ticket<A, S>, start: A, end: A, x: S, order: seq<(A, A)>)
    requires Valid(t)
    requires EnumeratesKeys(order, t.segs)
    ensures SellTicket(t, start, end, x, order) == SellSpec(t, start, end, x)
  {
    var st := t.stations;
    if start in st && end in st && x in t.pool {
      if t.segs == map[] {
        EnumerationHead(order, t.segs);
        SellTicketReachesFanOut(t, start, end, x, order);
        assert SellSpec(t, start, end, x).ticket.segs == t.segs;
      } else if IndexOf(st, end) <= IndexOf(st, start) {
        SellBackwardsMeetsSpec(t, start, end, x, order);
      } else {
        SellForwardsMeetsSpec(t, start, end, x, order);
      }
    }
  }

  /** Replacing segment lists by duplicate-free sublists keeps the invariant. */
  lemma ShrinkingListsKeepValid<A, S>(t: Ticket<A, S>, u: Ticket<A, S>)
    requires Valid(t)
    requires u.stations == t.stations && u.pool == t.pool && u.segs.Keys == t.segs.Keys
    requires forall k :: k in u.segs ==> Distinct(u.segs[k]) && Elems(u.segs[k]) <= Elems(t.segs[k])
    ensures Valid(u)
  {
    forall k, y | k in u.segs && y in u.segs[k] ensures y in u.pool {
      assert y in Elems(u.segs[k]);
    }
  }

  /** A sale keeps the invariant. */
  lemma SellTicketPreservesValid<A, S>(t: Ticket<A, S>, start: A, end: A, x: S, order: seq<(A, A)>)
    requires Valid(t)
    requires EnumeratesKeys(order, t.segs)
    ensures Valid(SellTicket(t, start, end, x, order).ticket)
  {
    SellTicketMeetsSpec(t, start, end, x, order);
    var u := SellSpec(t, start, end, x).ticket;
    assert u.segs == t.segs || u.segs == SoldSegs(t, start, end, x);
    forall k | k in u.segs ensures Distinct(u.segs[k]) && Elems(u.segs[k]) <= Elems(t.segs[k]) {
      WithoutDistinct(t.segs[k], x);
    }
    ShrinkingListsKeepValid(t, u);
  }

  /** A sale on a known forward segment always reports true, so selling a seat
      that is no longer listed there still "succeeds" and notifies. */
  lemma SellAlwaysSucceedsForward<A, S>(t: Ticket<A, S>, start: A, end: A, x: S, order: seq<(A, A)>)
    requires Valid(t)
    requires EnumeratesKeys(order, t.segs)
    requires start in t.stations && end in t.stations && x in t.pool
    requires IndexOf(t.stations, start) < IndexOf(t.stations, end)
    ensures var r := SellTicket(t, start, end, x, order);
      && r.result == Ok(true)
      && r.ticket.notified == t.notified + 1
      && (start, end) in r.ticket.segs
      && x !in r.ticket.segs[(start, end)]
  {
    SellTicketMeetsSpec(t, start, end, x, order);
    SegmentKeyPositions(t.stations, (start, end));
  }

  /** Segments that only touch the sold one at a station keep their lists. */
  lemma SellSparesTouchingSegments<A, S>(t: Ticket<A, S>, a: A, b: A, c: A, x: S, order: seq<(A, A)>)
    requires Valid(t)
    requires EnumeratesKeys(order, t.segs)
    requires a in t.stations && b in t.stations && c in t.stations && x in t.pool
    requires IndexOf(t.stations, a) < IndexOf(t.stations, b) < IndexOf(t.stations, c)
    ensures (a, b) in t.segs && (b, c) in t.segs
    ensures SellTicket(t, a, b, x, order).ticket.segs[(b, c)] == t.segs[(b, c)]
    ensures SellTicket(t, b, c, x, order).ticket.segs[(a, b)] == t.segs[(a, b)]
  {
    SegmentKeyPositions(t.stations, (a, b));
    SegmentKeyPositions(t.stations, (b, c));
    SellTicketMeetsSpec(t, a, b, x, order);
    SellTicketMeetsSpec(t, b, c, x, order);
  }

  // ----- removeSeat ----------------------------------------------------------

  /** Reference outcome of removeSeat: an unknown seat is a no-op reporting false;
      otherwise the seat leaves the pool and every segment, others keep their order. */
  function RemoveSeatSpec<A(==), S(==)>(t: Ticket<A, S>, x: S): Outcome<A, S> {
    if x !in t.pool then Outcome(t, Ok(false))
    else Outcome(Ticket(t.stations, Without(t.pool, x), WithoutEverywhere(t.segs, x), t.notified + 1), Ok(true))
  }

  function WithoutEverywhere<A(==), S(==)>(segs: map<(A, A), seq<S>>, x: S): map<(A, A), seq<S>> {
    map k | k in segs :: Without(segs[k], x)
  }

  lemma RemoveSeatMeetsSpec<A, S>(t: Ticket<A, S>, x: S, order: seq<(A, A)>)
    requires Valid(t)
    requires EnumeratesKeys(order, t.segs)
    ensures RemoveSeat(t, x, order) == RemoveSeatSpec(t, x)
  {
    if x in t.pool {
      RemoveFirstIsWithout(t.pool, x);
      var want := WithoutEverywhere(t.segs, x);
      forall k | k in t.segs ensures Step(t.stations, RemoveFlag(x), k, t.segs[k]) == Ok(want[k]) {
        RemoveFirstIsWithout(t.segs[k], x);
      }
      FanOutOverAllKeys(t.stations, RemoveFlag(x), t.segs, order, want);
    }
  }

  lemma RemoveSeatPreservesValid<A, S>(t: Ticket<A, S>, x: S, order: seq<(A, A)>)
    requires Valid(t)
    requires EnumeratesKeys(order, t.segs)
    ensures Valid(RemoveSeat(t, x, order).ticket)
  {
    RemoveSeatMeetsSpec(t, x, order);
    if x in t.pool {
      var u := RemoveSeatSpec(t, x).ticket;
      WithoutDistinct(t.pool, x);
      forall k | k in u.segs ensures Distinct(u.segs[k]) {
        WithoutDistinct(t.segs[k], x);
      }
      forall k, y | k in u.segs && y in u.segs[k] ensures y in u.pool {
        assert y in Elems(u.segs[k]);
        assert y in Elems(t.segs[k]);
        assert y in Elems(u.pool);
      }
    }
  }

  // ----- addSeat(index, seat) ------------------------------------------------

  function InsertEverywhere<A(==), S>(segs: map<(A, A), seq<S>>, i: int, x: S): map<(A, A), seq<S>>
    requires forall k :: k in segs ==> 0 <= i <= |segs[k]|
  {
    map k | k in segs :: Insert(segs[k], i, x)
  }

  /** A new seat at an index every list can take lands at that index in the pool and in every segment. */
  lemma AddSeatAtInserts<A, S>(t: Ticket<A, S>, i: int, x: S, order: seq<(A, A)>)
    requires Valid(t)
    requires EnumeratesKeys(order, t.segs)
    requires x !in t.pool
    requires 0 <= i <= |t.pool|
    requires forall k :: k in t.segs ==> i <= |t.segs[k]|
    ensures AddSeatAt(t, i, x, order) ==
            Outcome(Ticket(t.stations, Insert(t.pool, i, x), InsertEverywhere(t.segs, i, x), t.notified + 1), Ok(true))
  {
    var want := InsertEverywhere(t.segs, i, x);
    forall k | k in t.segs ensures Step(t.stations, AddFlag(i, x), k, t.segs[k]) == Ok(want[k]) { }
    FanOutOverAllKeys(t.stations, AddFlag(i, x), t.segs, order, want);
  }

  /** When some segment list is shorter than the index, the insert throws: the
      pool has already changed, no notification is sent, and each list is either
      untouched or already has the seat inserted (which ones depends on the visit order). */
  lemma AddSeatAtShortSegment<A, S>(t: Ticket<A, S>, i: int, x: S, order: seq<(A, A)>, short: (A, A))
    requires Valid(t)
    requires EnumeratesKeys(order, t.segs)
    requires x !in t.pool
    requires 0 <= i <= |t.pool|
    requires short in t.segs && |t.segs[short]| < i
    ensures var r := AddSeatAt(t, i, x, order);
      && r.result == Err(IndexOutOfBounds)
      && r.ticket.stations == t.stations
      && r.ticket.pool == Insert(t.pool, i, x)
      && r.ticket.notified == t.notified
      && r.ticket.segs.Keys == t.segs.Keys
      && forall k :: k in t.segs ==>
           r.ticket.segs[k] == t.segs[k] || (i <= |t.segs[k]| && r.ticket.segs[k] == Insert(t.segs[k], i, x))
  {
    EnumerationMembers(order, t.segs);
    FanOutFailure(t.stations, AddFlag(i, x), t.segs, order, short);
    forall k | k in t.segs
      ensures var r := AddSeatAt(t, i, x, order);
        r.ticket.segs[k] == t.segs[k] || (i <= |t.segs[k]| && r.ticket.segs[k] == Insert(t.segs[k], i, x))
    {
      FanOutEach(t.stations, AddFlag(i, x), t.segs, order, k);
    }
  }

  /** After addSeat(index, seat), each list is duplicate-free and drawn from the new pool. */
  lemma AddSeatAtKeepsList<A, S>(t: Ticket<A, S>, i: int, x: S, order: seq<(A, A)>, k: (A, A))
    requires Valid(t)
    requires EnumeratesKeys(order, t.segs)
    requires x !in t.pool && 0 <= i <= |t.pool|
    requires k in t.segs
    ensures var u := AddSeatAt(t, i, x, order).ticket;
      && Distinct(u.segs[k])
      && forall y :: y in u.segs[k] ==> y in Insert(t.pool, i, x)
  {
    var u := AddSeatAt(t, i, x, order).ticket;
    InsertMembers(t.pool, i, x);
    FanOutEach(t.stations, AddFlag(i, x), t.segs, order, k);
    if u.segs[k] != t.segs[k] {
      InsertDistinct(t.segs[k], i, x);
      InsertMembers(t.segs[k], i, x);
    }
  }

  /** addSeat(index, seat) keeps the invariant, even when it throws partway. */
  lemma AddSeatAtPreservesValid<A, S>(t: Ticket<A, S>, i: int, x: S, order: seq<(A, A)>)
    requires Valid(t)
    requires EnumeratesKeys(order, t.segs)
    ensures Valid(AddSeatAt(t, i, x, order).ticket)
  {
    if x !in t.pool && 0 <= i <= |t.pool| {
      var u := AddSeatAt(t, i, x, order).ticket;
      InsertDistinct(t.pool, i, x);
      forall k | k in u.segs
        ensures Distinct(u.segs[k])
        ensures forall y :: y in u.segs[k] ==> y in u.pool
      {
        AddSeatAtKeepsList(t, i, x, order, k);
      }
    }
  }

  /** addSeat(index, s) followed by removeSeat(s) restores the pool and every segment list. */
  lemma AddThenRemoveRestores<A, S>(t: Ticket<A, S>, i: int, x: S, order: seq<(A, A)>)
    requires Valid(t)
    requires EnumeratesKeys(order, t.segs)
    requires x !in t.pool
    requires 0 <= i <= |t.pool|
    requires forall k :: k in t.segs ==> i <= |t.segs[k]|
    ensures var added := AddSeatAt(t, i, x, order);
      && added.result == Ok(true)
      && RemoveSeat(added.ticket, x, order) == Outcome(t.(notified := t.notified + 2), Ok(true))
  {
    AddSeatAtInserts(t, i, x, order);
    AddSeatAtPreservesValid(t, i, x, order);
    var u := AddSeatAt(t, i, x, order).ticket;
    RemoveSeatMeetsSpec(u, x, order);
    WithoutInsert(t.pool, i, x);
    WithoutInsertEverywhere(t.segs, i, x);
  }

  lemma WithoutInsertEverywhere<A, S>(segs: map<(A, A), seq<S>>, i: int, x: S)
    requires forall k :: k in segs ==> 0 <= i <= |segs[k]| && x !in segs[k]
    ensures WithoutEverywhere(InsertEverywhere(segs, i, x), x) == segs
  {
    var back := WithoutEverywhere(InsertEverywhere(segs, i, x), x);
    forall k | k in segs ensures back[k] == segs[k] {
      WithoutInsert(segs[k], i, x);
    }
  }

  /** When addSeat(index, s) throws on a short segment list, removeSeat(s) still
      restores the pool and every segment list: each list either never got the
      seat or loses exactly the copy just inserted. */
  lemma AddFailureThenRemoveRestores<A, S>(t: Ticket<A, S>, i: int, x: S, order: seq<(A, A)>, short: (A, A))
    requires Valid(t)
    requires EnumeratesKeys(order, t.segs)
    requires x !in t.pool
    requires 0 <= i <= |t.pool|
    requires short in t.segs && |t.segs[short]| < i
    ensures var added := AddSeatAt(t, i, x, order);
      && added.result == Err(IndexOutOfBounds)
      && RemoveSeat(added.ticket, x, order) == Outcome(t.(notified := t.notified + 1), Ok(true))
  {
    AddSeatAtShortSegment(t, i, x, order, short);
    AddSeatAtPreservesValid(t, i, x, order);
    var u := AddSeatAt(t, i, x, order).ticket;
    InsertMembers(t.pool, i, x);
    RemoveSeatMeetsSpec(u, x, order);
    WithoutInsert(t.pool, i, x);
    WithoutUndoesPartialInsert(t, u.segs, i, x);
  }

  /** Filtering `x` out of lists that each either lack it or just had it inserted
      gives back the original lists. */
  lemma WithoutUndoesPartialInsert<A, S>(t: Ticket<A, S>, segs: map<(A, A), seq<S>>, i: int, x: S)
    requires Valid(t)
    requires x !in t.pool && 0 <= i
    requires segs.Keys == t.segs.Keys
    requires forall k :: k in t.segs ==>
               segs[k] == t.segs[k] || (i <= |t.segs[k]| && segs[k] == Insert(t.segs[k], i, x))
    ensures WithoutEverywhere(segs, x) == t.segs
  {
    forall k | k in t.segs ensures WithoutEverywhere(segs, x)[k] == t.segs[k] {
      assert x !in t.segs[k];
      if segs[k] == t.segs[k] {
        WithoutAbsent(t.segs[k], x);
      } else {
        WithoutInsert(t.segs[k], i, x);
      }
    }
  }

  /** Filtering out a seat the pool lacks leaves every segment list as it is. */
  lemma WithoutEverywhereAbsent<A, S>(t: Ticket<A, S>, x: S)
    requires Valid(t)
    requires x !in t.pool
    ensures WithoutEverywhere(t.segs, x) == t.segs
  {
    forall k | k in t.segs ensures WithoutEverywhere(t.segs, x)[k] == t.segs[k] {
      assert x !in t.segs[k];
      WithoutAbsent(t.segs[k], x);
    }
  }

  // ----- addSeat(seat) -------------------------------------------------------

  /** Under the invariant no segment lists more seats than the pool holds. */
  lemma SegmentListsFitPool<A, S>(t: Ticket<A, S>)
    requires Valid(t)
    ensures forall k :: k in t.segs ==> |t.segs[k]| <= |t.pool|
  {
    forall k | k in t.segs ensures |t.segs[k]| <= |t.pool| {
      DistinctSubsetLength(t.segs[k], t.pool);
    }
  }

  /** The append overload inserts at the pool's new size, past the end of every segment list. */
  lemma AppendIndexBeyondEverySegment<A, S>(t: Ticket<A, S>, x: S)
    requires Valid(t)
    ensures forall k :: k in t.segs ==> |t.segs[k]| < |t.pool + [x]|
  {
    SegmentListsFitPool(t);
  }

  /** addSeat(seat): a known seat is refused; a new one is appended to the pool,
      and then the segment insert throws unless there is no segment at all. */
  lemma AddSeatOutcome<A, S>(t: Ticket<A, S>, x: S, order: seq<(A, A)>)
    requires Valid(t)
    requires EnumeratesKeys(order, t.segs)
    ensures x in t.pool ==> AddSeat(t, x, order) == Outcome(t, Ok(false))
    ensures x !in t.pool && t.segs == map[] ==>
              AddSeat(t, x, order) == Outcome(t.(pool := t.pool + [x], notified := t.notified + 1), Ok(true))
    ensures x !in t.pool && t.segs != map[] ==>
              AddSeat(t, x, order) == Outcome(t.(pool := t.pool + [x]), Err(IndexOutOfBounds))
    ensures Valid(AddSeat(t, x, order).ticket)
  {
    EnumerationHead(order, t.segs);
    if x !in t.pool && t.segs != map[] {
      AppendIndexBeyondEverySegment(t, x);
    }
    if x !in t.pool {
      var u := AddSeat(t, x, order).ticket;
      assert Distinct(t.pool + [x]);
      forall k, y | k in u.segs && y in u.segs[k] ensures y in u.pool { }
    }
  }

  /** addSeat(s) followed by removeSeat(s) restores the pool and every segment
      list, whether the append overload's segment insert threw or not. */
  lemma AppendThenRemoveRestores<A, S>(t: Ticket<A, S>, x: S, order: seq<(A, A)>)
    requires Valid(t)
    requires EnumeratesKeys(order, t.segs)
    requires x !in t.pool
    ensures var added := AddSeat(t, x, order);
      RemoveSeat(added.ticket, x, order) ==
        Outcome(t.(notified := t.notified + if added.result.Ok? then 2 else 1), Ok(true))
  {
    AddSeatOutcome(t, x, order);
    var u := AddSeat(t, x, order).ticket;
    RemoveSeatMeetsSpec(u, x, order);
    WithoutAppend(t.pool, x);
    WithoutEverywhereAbsent(t, x);
  }

  // ----- clearSeat -----------------------------------------------------------

  /** clearSeat empties every segment list and the station list, keeps the pool
      and the keys, notifies once, and keeps the invariant. */
  lemma ClearSeatEmptiesEverySegment<A, S>(t: Ticket<A, S>, order: seq<(A, A)>)
    requires EnumeratesKeys(order, t.segs)
    ensures var r := ClearSeat(t, order).ticket;
      forall k :: k in t.segs ==> r.segs[k] == []
    ensures Valid(t) ==> Valid(ClearSeat(t, order).ticket)
  {
    var empty := map k | k in t.segs :: [];
    FanOutOverAllKeys([], ClearFlag, t.segs, order, empty);
  }

  /** After clearSeat no station is known, so every sale is rejected without change. */
  lemma SellAfterClearFails<A, S>(t: Ticket<A, S>, order: seq<(A, A)>, start: A, end: A, x: S, order2: seq<(A, A)>)
    ensures var cleared := ClearSeat(t, order).ticket;
      SellTicket(cleared, start, end, x, order2) == Outcome(cleared, Err(IllegalArgument(StartAddress)))
  {
  }

  // ----- queries -------------------------------------------------------------

  /** Scanning every key once finds exactly the stored list, whatever the visit order. */
  lemma GetSeatsIsLookup<A, S>(t: Ticket<A, S>, start: A, end: A, order: seq<(A, A)>)
    requires EnumeratesKeys(order, t.segs)
    ensures GetSeatsByAddress(t, start, end, order) ==
            if (start, end) in t.segs then Some(t.segs[(start, end)]) else None
  {
    EnumerationMembers(order, t.segs);
  }

  /** While the route is known, a lookup succeeds exactly for forward station pairs. */
  lemma GetSeatsFindsSegments<A, S>(t: Ticket<A, S>, start: A, end: A, order: seq<(A, A)>)
    requires Valid(t)
    requires EnumeratesKeys(order, t.segs)
    requires t.stations != []
    ensures GetSeatsByAddress(t, start, end, order).Some? <==> IsSegmentKey(t.stations, (start, end))
  {
    GetSeatsIsLookup(t, start, end, order);
    SegmentKeyPositions(t.stations, (start, end));
  }

  /** Lookups are order-sensitive: the reversed pair of a segment is not found. */
  lemma ReversedPairNotFound<A, S>(t: Ticket<A, S>, start: A, end: A, order: seq<(A, A)>)
    requires Valid(t)
    requires EnumeratesKeys(order, t.segs)
    requires start in t.stations && end in t.stations
    requires IndexOf(t.stations, start) < IndexOf(t.stations, end)
    ensures GetSeatsByAddress(t, start, end, order).Some?
    ensures GetSeatsByAddress(t, end, start, order) == None
  {
    GetSeatsIsLookup(t, start, end, order);
    GetSeatsIsLookup(t, end, start, order);
    SegmentKeyPositions(t.stations, (start, end));
    SegmentKeyPositions(t.stations, (end, start));
  }

  /** The public befContainAft on known stations is the positional test. */
  lemma BefContainAftStationsKnown<A, S>(t: Ticket<A, S>, befStart: A, befEnd: A, aftStart: A, aftEnd: A)
    requires befStart in t.stations && befEnd in t.stations && aftStart in t.stations && aftEnd in t.stations
    requires IndexOf(t.stations, befStart) < IndexOf(t.stations, befEnd)
    requires IndexOf(t.stations, aftStart) < IndexOf(t.stations, aftEnd)
    ensures BefContainAftStations(t, befStart, befEnd, aftStart, aftEnd) ==
            Ok(IndexOf(t.stations, befStart) <= IndexOf(t.stations, aftStart) < IndexOf(t.stations, befEnd))
  {
  }

  /** An unknown after-start is not rejected: the answer is false. */
  lemma BefContainAftUnknownAftStart<A, S>(t: Ticket<A, S>, befStart: A, befEnd: A, aftStart: A, aftEnd: A)
    requires befStart in t.stations && befEnd in t.stations && aftEnd in t.stations && aftStart !in t.stations
    requires IndexOf(t.stations, befStart) < IndexOf(t.stations, befEnd)
    ensures BefContainAftStations(t, befStart, befEnd, aftStart, aftEnd) == Ok(false)
  {
    UnknownAftStartIsFalse(|t.stations|, IndexOf(t.stations, befStart), IndexOf(t.stations, befEnd),
                           IndexOf(t.stations, aftEnd));
  }
}
