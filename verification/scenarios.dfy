/**
  A worked route: stations A, B, C and seats 1, 2.
 */
module Scenarios {
  import opened Errors
  import opened Lists
  import opened Inventory
  import opened InventoryProofs

  lemma RouteIsDistinct()
    ensures Distinct(['A', 'B', 'C'])
  {
    var st := ['A', 'B', 'C'];
    forall i, j | 0 <= i < j < |st| ensures st[i] != st[j] {
      assert st[0] == 'A' && st[1] == 'B' && st[2] == 'C';
    }
  }

  lemma RouteSegmentKeys()
    ensures SegmentKeys(['A', 'B', 'C']) == {('A', 'B'), ('A', 'C'), ('B', 'C')}
  {
    var st := ['A', 'B', 'C'];
    assert (st[0], st[1]) in SegmentKeys(st);
    assert (st[0], st[2]) in SegmentKeys(st);
    assert (st[1], st[2]) in SegmentKeys(st);
    forall k | k in SegmentKeys(st) ensures k in {('A', 'B'), ('A', 'C'), ('B', 'C')} {
      var i, j :| 0 <= i < j < |st| && k == (st[i], st[j]);
    }
  }

  /** Construction gives the three segments A-B, A-C and B-C, each holding both seats. */
  lemma ThreeStationRoute()
    ensures Distinct(['A', 'B', 'C'])
    ensures Init(['A', 'B', 'C'], [1, 2]).segs ==
            map[('A', 'B') := [1, 2], ('A', 'C') := [1, 2], ('B', 'C') := [1, 2]]
  {
    RouteIsDistinct();
    RouteSegmentKeys();
    var t := Init(['A', 'B', 'C'], [1, 2]);
    assert t.segs.Keys == {('A', 'B'), ('A', 'C'), ('B', 'C')};
  }

  /** Selling seat 1 on A-B takes it off A-B and the overlapping A-C, but not off B-C. */
  lemma SellOnFirstLeg(order: seq<(char, char)>)
    requires EnumeratesKeys(order, Init(['A', 'B', 'C'], [1, 2]).segs)
    ensures var r := SellTicket(Init(['A', 'B', 'C'], [1, 2]), 'A', 'B', 1, order);
      && r.result == Ok(true)
      && r.ticket.segs == map[('A', 'B') := [2], ('A', 'C') := [2], ('B', 'C') := [1, 2]]
  {
    ThreeStationRoute();
    var t := Init(['A', 'B', 'C'], [1, 2]);
    InitValid(['A', 'B', 'C'], [1, 2]);
    SellTicketMeetsSpec(t, 'A', 'B', 1, order);
    SoldOnFirstLeg(t);
  }

  lemma RoutePositions(st: seq<char>)
    requires st == ['A', 'B', 'C']
    ensures IndexOf(st, 'A') == 0 && IndexOf(st, 'B') == 1 && IndexOf(st, 'C') == 2
  {
    assert st[1..] == ['B', 'C'] && st[2..] == ['C'];
  }

  /** On A-B-C, a sale on A-B conflicts with A-B and A-C but not with B-C. */
  lemma FirstLegConflicts(st: seq<char>)
    requires IndexOf(st, 'A') == 0 && IndexOf(st, 'B') == 1 && IndexOf(st, 'C') == 2
    ensures Conflicts(st, 'A', 'B', ('A', 'B'))
    ensures Conflicts(st, 'A', 'B', ('A', 'C'))
    ensures !Conflicts(st, 'A', 'B', ('B', 'C'))
  {
  }

  lemma SellingSeatOne()
    ensures Without([1, 2], 1) == [2]
  {
    assert Without([2], 1) == [2] + Without([], 1);
  }

  /** The sale's effect on one segment of A-B-C, given which way its conflict test goes. */
  lemma SoldKey(u: Ticket<char, int>, k: (char, char), hit: bool)
    requires k in u.segs && u.segs[k] == [1, 2]
    requires Conflicts(u.stations, 'A', 'B', k) == hit
    ensures k in SoldSegs(u, 'A', 'B', 1)
    ensures SoldSegs(u, 'A', 'B', 1)[k] == if hit then [2] else [1, 2]
  {
    SellingSeatOne();
  }

  lemma SoldOnFirstLeg(u: Ticket<char, int>)
    requires u.stations == ['A', 'B', 'C']
    requires u.segs == map[('A', 'B') := [1, 2], ('A', 'C') := [1, 2], ('B', 'C') := [1, 2]]
    ensures SoldSegs(u, 'A', 'B', 1) == map[('A', 'B') := [2], ('A', 'C') := [2], ('B', 'C') := [1, 2]]
  {
    RoutePositions(u.stations);
    FirstLegConflicts(u.stations);
    SoldKey(u, ('A', 'B'), true);
    SoldKey(u, ('A', 'C'), true);
    SoldKey(u, ('B', 'C'), false);
    assert SoldSegs(u, 'A', 'B', 1).Keys == u.segs.Keys;
  }
}
