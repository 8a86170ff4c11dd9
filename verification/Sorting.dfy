/** Sorting and map iteration. The program iterates hash maps, whose order is
    unspecified, and then sorts; `Enumerate` picks an arbitrary order, and
    `SortedListing` has exactly one solution, so results proved equal to it do
    not depend on the iteration order. */
module Sorting {

  ghost predicate TotalOrder<T(!new)>(leq: (T, T) -> bool) {
    && (forall x, y :: leq(x, y) || leq(y, x))
    && (forall x, y :: leq(x, y) && leq(y, x) ==> x == y)
    && (forall x, y, z :: leq(x, y) && leq(y, z) ==> leq(x, z))
  }

  ghost predicate Sorted<T>(leq: (T, T) -> bool, s: seq<T>) {
    forall i, j :: 0 <= i < j < |s| ==> leq(s[i], s[j])
  }

  ghost predicate NoDuplicates<T>(s: seq<T>) {
    forall i, j :: 0 <= i < j < |s| ==> s[i] != s[j]
  }

  ghost predicate Lists<T(!new)>(s: seq<T>, elements: set<T>) {
    NoDuplicates(s) && forall x :: x in s <==> x in elements
  }

  /** The sorted list of the elements. */
  ghost predicate SortedListing<T(!new)>(leq: (T, T) -> bool, elements: set<T>, s: seq<T>) {
    Sorted(leq, s) && Lists(s, elements)
  }

  /** The elements of a set in an arbitrary order. */
  method Enumerate<T(!new)>(elements: set<T>) returns (s: seq<T>)
    ensures Lists(s, elements)
  {
    s := [];
    var rest := elements;
    while rest != {}
      invariant rest <= elements
      invariant Lists(s, elements - rest)
      decreases rest
    {
      var x :| x in rest;
      s := s + [x];
      rest := rest - {x};
    }
  }

  function Insert<T>(leq: (T, T) -> bool, x: T, s: seq<T>): (r: seq<T>)
    ensures multiset(r) == multiset(s) + multiset{x}
  {
    if s == [] || leq(x, s[0]) then [x] + s
    else
      assert s == [s[0]] + s[1..];
      [s[0]] + Insert(leq, x, s[1..])
  }

  /** The library sort: the only thing used of it is that the result is a sorted permutation. */
  function SortBy<T>(leq: (T, T) -> bool, s: seq<T>): (r: seq<T>)
    ensures multiset(r) == multiset(s)
  {
    if s == [] then []
    else
      assert s == [s[0]] + s[1..];
      Insert(leq, s[0], SortBy(leq, s[1..]))
  }

  lemma {:induction false} InsertSorted<T(!new)>(leq: (T, T) -> bool, x: T, s: seq<T>)
    requires TotalOrder(leq) && Sorted(leq, s)
    ensures Sorted(leq, Insert(leq, x, s))
  {
    if s != [] && !leq(x, s[0]) {
      InsertSorted(leq, x, s[1..]);
      var t := Insert(leq, x, s[1..]);
      forall j | 0 <= j < |t| ensures leq(s[0], t[j]) {
        assert t[j] in multiset(t);
        assert t[j] == x || t[j] in s[1..];
      }
    } else if s != [] {
      forall j | 0 <= j < |s| ensures leq(x, s[j]) {
        assert leq(s[0], s[j]);
      }
    }
  }

  lemma {:induction false} SortBySorted<T(!new)>(leq: (T, T) -> bool, s: seq<T>)
    requires TotalOrder(leq)
    ensures Sorted(leq, SortBy(leq, s))
  {
    if s != [] {
      SortBySorted(leq, s[1..]);
      InsertSorted(leq, s[0], SortBy(leq, s[1..]));
    }
  }

  lemma {:induction false} NoDuplicatesCount<T>(s: seq<T>, x: T)
    requires NoDuplicates(s)
    ensures multiset(s)[x] == if x in s then 1 else 0
  {
    if s != [] {
      assert s == [s[0]] + s[1..];
      assert forall i :: 0 <= i < |s[1..]| ==> s[0] != s[1..][i];
      NoDuplicatesCount(s[1..], x);
    }
  }

  lemma CountNoDuplicates<T(!new)>(s: seq<T>)
    requires forall x :: multiset(s)[x] <= 1
    ensures NoDuplicates(s)
  {
    forall i, j | 0 <= i < j < |s| ensures s[i] != s[j] {
      assert s == s[..j] + [s[j]] + s[j + 1..];
      assert s[i] in s[..j];
      assert multiset(s)[s[j]] == multiset(s[..j])[s[j]] + 1 + multiset(s[j + 1..])[s[j]];
    }
  }

  /** Sorting any listing of a set gives its sorted listing. */
  lemma SortListing<T(!new)>(leq: (T, T) -> bool, elements: set<T>, s: seq<T>)
    requires TotalOrder(leq) && Lists(s, elements)
    ensures SortedListing(leq, elements, SortBy(leq, s))
  {
    var r := SortBy(leq, s);
    SortBySorted(leq, s);
    forall x ensures multiset(r)[x] <= 1 { NoDuplicatesCount(s, x); }
    CountNoDuplicates(r);
    forall x ensures x in r <==> x in elements {
      assert x in r <==> x in multiset(r);
      assert x in s <==> x in multiset(s);
    }
  }

  /** A set has only one sorted listing. */
  lemma {:induction false} SortedListingUnique<T(!new)>(leq: (T, T) -> bool, elements: set<T>, r: seq<T>, s: seq<T>)
    requires TotalOrder(leq) && SortedListing(leq, elements, r) && SortedListing(leq, elements, s)
    ensures r == s
    decreases |r|
  {
    ListingLength(r, elements);
    ListingLength(s, elements);
    if r != [] {
      assert r[0] in r;
      assert s[0] in s;
      assert leq(r[0], s[0]) && leq(s[0], r[0]);
      TailListing(leq, elements, r);
      TailListing(leq, elements, s);
      SortedListingUnique(leq, elements - {r[0]}, r[1..], s[1..]);
      assert r == [r[0]] + r[1..] && s == [s[0]] + s[1..];
    }
  }

  lemma TailListing<T(!new)>(leq: (T, T) -> bool, elements: set<T>, s: seq<T>)
    requires SortedListing(leq, elements, s) && s != []
    ensures SortedListing(leq, elements - {s[0]}, s[1..])
  {
    forall x ensures x in s[1..] <==> x in elements - {s[0]} {
      if x in s[1..] {
        var j :| 0 <= j < |s[1..]| && s[1..][j] == x;
        assert s[j + 1] == x && s[0] != s[j + 1];
      }
      assert s == [s[0]] + s[1..];
    }
  }

  /** The number of elements listed is the size of the set. */
  lemma {:induction false} ListingLength<T(!new)>(s: seq<T>, elements: set<T>)
    requires Lists(s, elements)
    ensures |s| == |elements|
    decreases |s|
  {
    if s == [] {
      assert elements == {};
    } else {
      var x, t := s[|s| - 1], s[..|s| - 1];
      assert s == t + [x];
      assert x in s;
      forall y ensures y in t <==> y in elements - {x} {
        if y in t {
          assert y in s;
        }
      }
      ListingLength(t, elements - {x});
    }
  }

  lemma {:induction false} SomeListing<T(!new)>(elements: set<T>) returns (s: seq<T>)
    ensures Lists(s, elements)
    decreases |elements|
  {
    s := [];
    if elements != {} {
      var x :| x in elements;
      var rest := SomeListing(elements - {x});
      s := rest + [x];
    }
  }

  lemma SubsetSize<T>(a: set<T>, b: set<T>)
    requires a <= b
    ensures |a| <= |b|
  {
    assert a + (b - a) == b;
  }

  // ------------------------------------------------------------------------ ranks

  function CountIf<T>(s: seq<T>, p: T -> bool): nat {
    if s == [] then 0 else (if p(s[0]) then 1 else 0) + CountIf(s[1..], p)
  }

  lemma {:induction false} CountIfConcat<T>(a: seq<T>, b: seq<T>, p: T -> bool)
    ensures CountIf(a + b, p) == CountIf(a, p) + CountIf(b, p)
  {
    if a == [] {
      assert a + b == b;
    } else {
      CountIfConcat(a[1..], b, p);
      assert (a + b)[1..] == a[1..] + b;
    }
  }

  lemma {:induction false} CountIfInsert<T>(leq: (T, T) -> bool, x: T, s: seq<T>, p: T -> bool)
    ensures CountIf(Insert(leq, x, s), p) == CountIf(s, p) + if p(x) then 1 else 0
  {
    if s == [] || leq(x, s[0]) {
      assert ([x] + s)[1..] == s;
    } else {
      CountIfInsert(leq, x, s[1..], p);
      assert Insert(leq, x, s)[1..] == Insert(leq, x, s[1..]);
    }
  }

  /** Sorting does not change a count. */
  lemma {:induction false} CountIfSorted<T>(leq: (T, T) -> bool, s: seq<T>, p: T -> bool)
    ensures CountIf(SortBy(leq, s), p) == CountIf(s, p)
  {
    if s != [] {
      CountIfSorted(leq, s[1..], p);
      CountIfInsert(leq, s[0], SortBy(leq, s[1..]), p);
    }
  }

  lemma {:induction false} CountIfBounds<T>(s: seq<T>, p: T -> bool)
    ensures CountIf(s, p) <= |s|
    ensures (forall x :: x in s ==> p(x)) ==> CountIf(s, p) == |s|
    ensures (forall x :: x in s ==> !p(x)) ==> CountIf(s, p) == 0
  {
    if s != [] {
      CountIfBounds(s[1..], p);
    }
  }

  lemma {:induction false} CountIfWeaker<T>(s: seq<T>, p: T -> bool, q: T -> bool)
    requires forall x :: x in s && p(x) ==> q(x)
    ensures CountIf(s, p) <= CountIf(s, q)
  {
    if s != [] {
      CountIfWeaker(s[1..], p, q);
    }
  }
}
