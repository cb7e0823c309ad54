/** What Go's `sort.Slice` and JavaScript's `sort` promise, leaving open the order of equals. */
module Sorting {

  /** On these elements `less` is a strict weak order: asymmetric and negatively transitive. */
  ghost predicate Orders<T>(less: (T, T) -> bool, s: seq<T>) {
    && (forall a, b | a in s && b in s :: less(a, b) ==> !less(b, a))
    && (forall a, b, c | a in s && b in s && c in s :: less(a, c) ==> less(a, b) || less(b, c))
  }

  /** No later element is less than an earlier one. */
  predicate InOrder<T>(less: (T, T) -> bool, s: seq<T>) {
    forall i, j :: 0 <= i < j < |s| ==> !less(s[j], s[i])
  }

  function Inserted<T>(sorted: seq<T>, p: nat, x: T): seq<T>
    requires p <= |sorted|
  {
    sorted[..p] + [x] + sorted[p..]
  }

  lemma InsertKeepsOrder<T>(less: (T, T) -> bool, sorted: seq<T>, x: T, p: nat)
    requires p <= |sorted| && Orders(less, sorted + [x]) && InOrder(less, sorted)
    requires p > 0 ==> !less(x, sorted[p - 1])
    requires forall k :: p <= k < |sorted| ==> less(x, sorted[k])
    ensures InOrder(less, Inserted(sorted, p, x))
  {
    var all, longer := sorted + [x], Inserted(sorted, p, x);
    assert all[|sorted|] == x;
    forall k | 0 <= k < |sorted|
      ensures if k < p then !less(x, sorted[k]) else !less(sorted[k], x)
    {
      assert all[k] == sorted[k];
      if k < p - 1 {
        assert all[p - 1] == sorted[p - 1];
        assert !less(sorted[p - 1], sorted[k]);
        assert sorted[k] in all && x in all && sorted[p - 1] in all;
      }
    }
    assert forall k :: 0 <= k < |longer| ==>
      longer[k] == if k < p then sorted[k] else if k == p then x else sorted[k - 1];
  }

  method Insert<T>(sorted: seq<T>, x: T, less: (T, T) -> bool) returns (longer: seq<T>)
    ensures multiset(longer) == multiset(sorted + [x])
    ensures Orders(less, sorted + [x]) && InOrder(less, sorted) ==> InOrder(less, longer)
  {
    hide Orders, InOrder;
    var p := |sorted|;
    while p > 0 && less(x, sorted[p - 1])
      invariant 0 <= p <= |sorted|
      invariant forall k :: p <= k < |sorted| ==> less(x, sorted[k])
    {
      p := p - 1;
    }
    if Orders(less, sorted + [x]) && InOrder(less, sorted) {
      InsertKeepsOrder(less, sorted, x, p);
    }
    assert sorted == sorted[..p] + sorted[p..];
    longer := Inserted(sorted, p, x);
  }

  lemma OrdersFewer<T>(less: (T, T) -> bool, s: seq<T>, fewer: seq<T>)
    requires Orders(less, s) && multiset(fewer) <= multiset(s)
    ensures Orders(less, fewer)
  {
    forall i | 0 <= i < |fewer|
      ensures fewer[i] in s
    {
      assert fewer[i] in multiset(fewer);
      assert multiset(fewer)[fewer[i]] <= multiset(s)[fewer[i]];
    }
  }

  method Sort<T>(s: seq<T>, less: (T, T) -> bool) returns (sorted: seq<T>)
    ensures multiset(sorted) == multiset(s)
    ensures Orders(less, s) ==> InOrder(less, sorted)
  {
    hide Orders;
    sorted := [];
    for n := 0 to |s|
      invariant multiset(sorted) == multiset(s[..n])
      invariant Orders(less, s) ==> InOrder(less, sorted)
    {
      assert s[..n + 1] == s[..n] + [s[n]] && s == s[..n + 1] + s[n + 1..];
      if Orders(less, s) {
        OrdersFewer(less, s, sorted + [s[n]]);
      }
      sorted := Insert(sorted, s[n], less);
    }
    assert s[..|s|] == s;
  }

  // ---------------------------------------------------------------------------------------
  // Lists without duplicates, and their rearrangements
  // ---------------------------------------------------------------------------------------

  predicate NoDuplicates<T(==)>(s: seq<T>) {
    forall i, j :: 0 <= i < j < |s| ==> s[i] != s[j]
  }

  lemma CountsTwice<T>(s: seq<T>, i: nat, j: nat)
    requires i < j < |s| && s[i] == s[j]
    ensures multiset(s)[s[i]] >= 2
  {
    assert s == s[..j] + s[j..];
    assert s[..j][i] == s[i] && s[j..][0] == s[j];
    assert s[i] in multiset(s[..j]) && s[i] in multiset(s[j..]);
  }

  lemma {:induction false} CountsOnce<T>(s: seq<T>, x: T)
    requires NoDuplicates(s)
    ensures multiset(s)[x] <= 1
  {
    if s != [] {
      assert s == [s[0]] + s[1..];
      CountsOnce(s[1..], x);
      assert s[0] !in s[1..];
    }
  }

  lemma RearrangedHasNoDuplicates<T>(s: seq<T>, rearranged: seq<T>)
    requires multiset(rearranged) == multiset(s) && NoDuplicates(s)
    ensures NoDuplicates(rearranged)
  {
    forall i, j | 0 <= i < j < |rearranged|
      ensures rearranged[i] != rearranged[j]
    {
      CountsOnce(s, rearranged[i]);
      if rearranged[i] == rearranged[j] {
        CountsTwice(rearranged, i, j);
      }
    }
  }

  lemma RearrangedHasSame<T>(s: seq<T>, rearranged: seq<T>)
    requires multiset(rearranged) == multiset(s)
    ensures |rearranged| == |s| && forall x :: x in rearranged <==> x in s
  {
    assert |rearranged| == |multiset(rearranged)| == |multiset(s)| == |s|;
    forall x
      ensures x in rearranged <==> x in s
    {
      assert (x in rearranged <==> x in multiset(rearranged)) && (x in s <==> x in multiset(s));
    }
  }
}
