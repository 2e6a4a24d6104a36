/** Sorting by a strict order: a rearrangement in which nothing precedes an earlier element. */
module Sorting {

  /** A strict weak order, as a comparison function must be. */
  ghost predicate WeakOrder<T(!new)>(precedes: (T, T) -> bool) {
    && (forall a, b :: precedes(a, b) ==> !precedes(b, a))
    && (forall a, b, c :: !precedes(a, b) && !precedes(b, c) ==> !precedes(a, c))
  }

  ghost predicate Sorted<T>(precedes: (T, T) -> bool, s: seq<T>) {
    forall i, j :: 0 <= i < j < |s| ==> !precedes(s[j], s[i])
  }

  method Sort<T(!new)>(precedes: (T, T) -> bool, s: seq<T>) returns (r: seq<T>)
    requires WeakOrder(precedes)
    ensures Sorted(precedes, r) && multiset(r) == multiset(s)
  {
    hide WeakOrder;
    r := [];
    assert s[..0] == [];
    for i := 0 to |s|
      invariant Sorted(precedes, r) && multiset(r) == multiset(s[..i])
    {
      assert s[..i + 1] == s[..i] + [s[i]];
      r := Insert(precedes, r, s[i]);
    }
    assert s[..|s|] == s;
  }

  method Insert<T(!new)>(precedes: (T, T) -> bool, s: seq<T>, x: T) returns (r: seq<T>)
    requires WeakOrder(precedes) && Sorted(precedes, s)
    ensures Sorted(precedes, r) && multiset(r) == multiset(s) + multiset{x}
  {
    var at := |s|;
    while at > 0 && precedes(x, s[at - 1])
      invariant 0 <= at <= |s|
      invariant forall j :: at <= j < |s| ==> precedes(x, s[j])
    {
      hide WeakOrder, Sorted;
      at := at - 1;
    }
    InsertSorted(precedes, s, at, x);
    InsertMultiset(s, at, x);
    r := s[..at] + [x] + s[at..];
  }

  lemma InsertSorted<T(!new)>(precedes: (T, T) -> bool, s: seq<T>, at: nat, x: T)
    requires WeakOrder(precedes) && Sorted(precedes, s)
    requires at <= |s| && (at > 0 ==> !precedes(x, s[at - 1]))
    requires forall j :: at <= j < |s| ==> precedes(x, s[j])
    ensures Sorted(precedes, s[..at] + [x] + s[at..])
  {
    var r := s[..at] + [x] + s[at..];
    forall j | 0 <= j < at ensures !precedes(x, s[j]) {
      if j < at - 1 {
        assert !precedes(s[at - 1], s[j]);
      }
    }
    forall j | at <= j < |s| ensures !precedes(s[j], x) {
    }
    hide WeakOrder;
    forall i, j | 0 <= i < j < |r| ensures !precedes(r[j], r[i]) {
      assert r[i] == if i < at then s[i] else if i == at then x else s[i - 1];
      assert r[j] == if j < at then s[j] else if j == at then x else s[j - 1];
    }
  }

  lemma InsertMultiset<T>(s: seq<T>, at: nat, x: T)
    requires at <= |s|
    ensures multiset(s[..at] + [x] + s[at..]) == multiset(s) + multiset{x}
  {
    assert s == s[..at] + s[at..];
  }

  lemma SameElements<T>(a: seq<T>, b: seq<T>)
    requires multiset(a) == multiset(b)
    ensures |a| == |b| && forall x :: x in a <==> x in b
  {
    assert |multiset(a)| == |a| && |multiset(b)| == |b|;
    forall x ensures x in a <==> x in b {
      assert x in multiset(a) <==> x in a;
      assert x in multiset(b) <==> x in b;
    }
  }

  /** No two positions have the same image. */
  ghost predicate DistinctBy<T(!new), U>(f: T -> U, s: seq<T>) {
    forall i, j :: 0 <= i < j < |s| ==> f(s[i]) != f(s[j])
  }

  lemma TwiceInMultiset<T>(s: seq<T>, i: nat, j: nat)
    requires i < j < |s| && s[i] == s[j]
    ensures multiset(s)[s[i]] >= 2
  {
    assert s == s[..j] + [s[j]] + s[j + 1..];
    assert s[i] in s[..j];
  }

  lemma {:induction false} OnceInMultiset<T(!new), U>(f: T -> U, s: seq<T>, x: T)
    requires DistinctBy(f, s)
    ensures multiset(s)[x] <= 1
  {
    if s != [] {
      OnceInMultiset(f, s[1..], x);
      assert s == [s[0]] + s[1..];
      if x == s[0] {
        assert x !in s[1..];
      }
    }
  }

  /** Rearranging keeps images distinct. */
  lemma RearrangedDistinct<T(!new), U>(f: T -> U, s: seq<T>, r: seq<T>)
    requires DistinctBy(f, s) && multiset(r) == multiset(s)
    ensures DistinctBy(f, r)
  {
    SameElements(r, s);
    forall i, j | 0 <= i < j < |r| ensures f(r[i]) != f(r[j]) {
      if r[i] == r[j] {
        TwiceInMultiset(r, i, j);
        OnceInMultiset(f, s, r[i]);
      } else {
        assert r[i] in s && r[j] in s;
      }
    }
  }
}
