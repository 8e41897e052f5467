/**
  The java.util.List operations the engine relies on, over immutable
  sequences: indexOf, remove(Object), add(index, e), and the facts about
  duplicate-free lists that the engine's invariant needs.
 */
module Lists {

  /** No element occurs twice. */
  predicate Distinct<T(==)>(s: seq<T>) {
    forall i, j :: 0 <= i < j < |s| ==> s[i] != s[j]
  }

  /** Dropping the head keeps a list duplicate-free, and the head is not in the rest. */
  lemma DistinctTail<T>(s: seq<T>)
    requires Distinct(s)
    requires |s| > 0
    ensures Distinct(s[1..])
    ensures s[0] !in s[1..]
  {
    var t := s[1..];
    forall i, j | 0 <= i < j < |t| ensures t[i] != t[j] {
      assert t[i] == s[i + 1] && t[j] == s[j + 1];
    }
  }

  /** The elements of a list, as a set. */
  function Elems<T>(s: seq<T>): set<T> {
    set x | x in s
  }

  /** List.indexOf: position of the first occurrence, or -1. */
  function IndexOf<T(==)>(s: seq<T>, x: T): (r: int)
    ensures -1 <= r < |s|
    ensures r == -1 <==> x !in s
    ensures 0 <= r ==> s[r] == x && x !in s[..r]
  {
    if |s| == 0 then -1
    else if s[0] == x then 0
    else
      var i := IndexOf(s[1..], x);
      if i == -1 then -1
      else
        assert s[..i + 1] == [s[0]] + s[1..][..i];
        i + 1
  }

  /** In a duplicate-free list, indexOf inverts indexing. */
  lemma IndexOfDistinct<T>(s: seq<T>, i: int)
    requires Distinct(s)
    requires 0 <= i < |s|
    ensures IndexOf(s, s[i]) == i
  {
  }

  /** List.remove(Object): drop the first occurrence, if any. */
  function RemoveFirst<T(==)>(s: seq<T>, x: T): (r: seq<T>)
    ensures x !in s ==> r == s
    ensures x in s ==> |r| == |s| - 1
  {
    if |s| == 0 then s
    else if s[0] == x then s[1..]
    else
      assert s == [s[0]] + s[1..];
      [s[0]] + RemoveFirst(s[1..], x)
  }

  /** The removal cuts the list exactly at the position indexOf reports. */
  lemma {:induction false} RemoveFirstAtIndex<T>(s: seq<T>, x: T)
    requires x in s
    ensures var i := IndexOf(s, x); RemoveFirst(s, x) == s[..i] + s[i + 1..]
  {
    if s[0] != x {
      var t := s[1..];
      assert s == [s[0]] + t;
      RemoveFirstAtIndex(t, x);
      var k := IndexOf(t, x);
      assert IndexOf(s, x) == k + 1;
      calc {
        RemoveFirst(s, x);
        [s[0]] + RemoveFirst(t, x);
        [s[0]] + (t[..k] + t[k + 1..]);
        { assert s[..k + 1] == [s[0]] + t[..k]; }
        s[..k + 1] + t[k + 1..];
        { assert s[k + 2..] == t[k + 1..]; }
        s[..k + 1] + s[k + 2..];
      }
    }
  }

  /** The removal takes away one copy of `x` and nothing else. */
  lemma {:induction false} RemoveFirstCount<T>(s: seq<T>, x: T)
    ensures multiset(RemoveFirst(s, x)) == multiset(s) - multiset{x}
  {
    if |s| > 0 {
      var t := s[1..];
      assert s == [s[0]] + t;
      assert multiset(s) == multiset{s[0]} + multiset(t);
      if s[0] != x {
        RemoveFirstCount(t, x);
        assert multiset(RemoveFirst(s, x)) == multiset{s[0]} + multiset(RemoveFirst(t, x));
      }
    }
  }

  /** Reference definition: the list with every occurrence of `x` filtered out. */
  function Without<T(==)>(s: seq<T>, x: T): (r: seq<T>)
    ensures Elems(r) == Elems(s) - {x}
    ensures |r| <= |s|
  {
    if |s| == 0 then []
    else
      var head := if s[0] == x then [] else [s[0]];
      var w := Without(s[1..], x);
      assert Elems(head + w) == Elems(head) + Elems(w);
      assert Elems(s) == {s[0]} + Elems(s[1..]) by {
        assert s == [s[0]] + s[1..];
      }
      head + w
  }

  lemma {:induction false} WithoutAbsent<T>(s: seq<T>, x: T)
    requires x !in s
    ensures Without(s, x) == s
  {
    if |s| > 0 {
      WithoutAbsent(s[1..], x);
      assert s == [s[0]] + s[1..];
    }
  }

  lemma {:induction false} WithoutDistinct<T>(s: seq<T>, x: T)
    requires Distinct(s)
    ensures Distinct(Without(s, x))
  {
    if |s| > 0 {
      DistinctTail(s);
      WithoutDistinct(s[1..], x);
      var w := Without(s[1..], x);
      assert s[0] !in Elems(w);
      var r := (if s[0] == x then [] else [s[0]]) + w;
      forall i, j | 0 <= i < j < |r| ensures r[i] != r[j] {
        if s[0] != x && i == 0 {
          assert r[j] in w;
        }
      }
    }
  }

  /** Removing the first occurrence from a list in which `x` occurs at most once
      filters `x` out and keeps every other element in its order. */
  lemma {:induction false} RemoveFirstIsWithout<T>(s: seq<T>, x: T)
    requires Distinct(s)
    ensures RemoveFirst(s, x) == Without(s, x)
  {
    if |s| > 0 {
      var t := s[1..];
      DistinctTail(s);
      if s[0] == x {
        assert x !in t;
        WithoutAbsent(t, x);
        assert s == [x] + t;
      } else {
        RemoveFirstIsWithout(t, x);
      }
    }
  }

  /** List.add(index, e): insert `x` so that it lands at position `i`. */
  function Insert<T>(s: seq<T>, i: int, x: T): (r: seq<T>)
    requires 0 <= i <= |s|
    ensures |r| == |s| + 1 && r[i] == x
    ensures r[..i] == s[..i] && r[i + 1..] == s[i..]
  {
    s[..i] + [x] + s[i..]
  }

  /** Inserting past the head keeps the head in front. */
  lemma InsertCons<T>(s: seq<T>, i: int, x: T)
    requires 0 < i <= |s|
    ensures Insert(s, i, x) == [s[0]] + Insert(s[1..], i - 1, x)
  {
    assert s[..i] == [s[0]] + s[1..][..i - 1];
    assert s[i..] == s[1..][i - 1..];
  }

  /** Inserting a new element then removing it gives back the list. */
  lemma {:induction false} InsertThenRemove<T>(s: seq<T>, i: int, x: T)
    requires x !in s
    requires 0 <= i <= |s|
    ensures RemoveFirst(Insert(s, i, x), x) == s
  {
    if i == 0 {
      assert Insert(s, i, x) == [x] + s;
    } else {
      assert s == [s[0]] + s[1..];
      InsertCons(s, i, x);
      InsertThenRemove(s[1..], i - 1, x);
    }
  }

  /** Filtering out a freshly inserted element gives back the list. */
  lemma {:induction false} WithoutInsert<T>(s: seq<T>, i: int, x: T)
    requires x !in s
    requires 0 <= i <= |s|
    ensures Without(Insert(s, i, x), x) == s
  {
    if i == 0 {
      assert Insert(s, i, x) == [x] + s;
      WithoutAbsent(s, x);
    } else {
      assert s == [s[0]] + s[1..];
      InsertCons(s, i, x);
      WithoutInsert(s[1..], i - 1, x);
    }
  }

  /** Filtering out a freshly appended element gives back the list. */
  lemma WithoutAppend<T>(s: seq<T>, x: T)
    requires x !in s
    ensures Without(s + [x], x) == s
  {
    assert s + [x] == Insert(s, |s|, x);
    WithoutInsert(s, |s|, x);
  }

  lemma InsertMembers<T>(s: seq<T>, i: int, x: T)
    requires 0 <= i <= |s|
    ensures forall y :: y in Insert(s, i, x) <==> y in s || y == x
  {
    var r := Insert(s, i, x);
    assert r == s[..i] + [x] + s[i..];
    assert s == s[..i] + s[i..];
  }

  lemma InsertDistinct<T>(s: seq<T>, i: int, x: T)
    requires Distinct(s)
    requires x !in s
    requires 0 <= i <= |s|
    ensures Distinct(Insert(s, i, x))
  {
    var r := Insert(s, i, x);
    forall a, b | 0 <= a < b < |r| ensures r[a] != r[b] {
      if a < i {
        assert r[a] == s[a];
        if b < i { assert r[b] == s[b]; }
        else if b == i { assert r[a] in s; }
        else { assert r[b] == r[i + 1..][b - i - 1] == s[b - 1]; }
      } else if a == i {
        assert r[b] == r[i + 1..][b - i - 1] == s[b - 1];
      } else {
        assert r[a] == r[i + 1..][a - i - 1] == s[a - 1];
        assert r[b] == r[i + 1..][b - i - 1] == s[b - 1];
      }
    }
  }

  /** A list has at least as many positions as distinct elements. */
  lemma {:induction false} ElemsBound<T>(s: seq<T>)
    ensures |Elems(s)| <= |s|
    ensures Distinct(s) ==> |Elems(s)| == |s|
  {
    if |s| > 0 {
      var t := s[1..];
      ElemsBound(t);
      assert Elems(s) == {s[0]} + Elems(t) by {
        assert s == [s[0]] + t;
      }
      if Distinct(s) {
        DistinctTail(s);
        assert s[0] !in Elems(t);
      }
    }
  }

  /** A duplicate-free list drawn from `pool` is no longer than `pool`. */
  lemma DistinctSubsetLength<T>(s: seq<T>, pool: seq<T>)
    requires Distinct(s)
    requires forall y :: y in s ==> y in pool
    ensures |s| <= |pool|
  {
    ElemsBound(s);
    ElemsBound(pool);
    assert Elems(s) <= Elems(pool);
    assert |Elems(s)| <= |Elems(pool)| by {
      SubsetCard(Elems(s), Elems(pool));
    }
  }

  lemma SubsetCard<T>(a: set<T>, b: set<T>)
    requires a <= b
    ensures |a| <= |b|
  {
    assert b == a + (b - a);
  }
}
