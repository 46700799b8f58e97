/** Strict total orders, sorting by one, and the byte order of strings. */
module Ordering {
  import opened Common

  /** A comparison function that sorts without ties. */
  ghost predicate StrictTotal<T(!new)>(less: (T, T) -> bool) {
    && (forall x :: !less(x, x))
    && (forall x, y, z :: less(x, y) && less(y, z) ==> less(x, z))
    && (forall x, y :: x == y || less(x, y) || less(y, x))
  }

  predicate SortedBy<T>(less: (T, T) -> bool, xs: seq<T>) {
    forall i, j :: 0 <= i < j < |xs| ==> !less(xs[j], xs[i])
  }

  /** What slices.SortFunc promises: a sorted permutation. */
  function SortBy<T>(less: (T, T) -> bool, xs: seq<T>): seq<T> {
    if xs == [] then [] else Insert(less, xs[0], SortBy(less, xs[1..]))
  }

  function Insert<T>(less: (T, T) -> bool, x: T, xs: seq<T>): seq<T> {
    if xs == [] || less(x, xs[0]) then [x] + xs else [xs[0]] + Insert(less, x, xs[1..])
  }

  lemma {:induction false} InsertElements<T>(less: (T, T) -> bool, x: T, xs: seq<T>)
    ensures multiset(Insert(less, x, xs)) == multiset(xs) + multiset{x}
  {
    if xs == [] || less(x, xs[0]) {
    } else {
      InsertElements(less, x, xs[1..]);
      assert xs == [xs[0]] + xs[1..];
    }
  }

  lemma {:induction false} InsertSorts<T(!new)>(less: (T, T) -> bool, x: T, xs: seq<T>)
    requires StrictTotal(less) && SortedBy(less, xs)
    ensures SortedBy(less, Insert(less, x, xs))
  {
    if xs == [] {
    } else if less(x, xs[0]) {
      forall k | 0 <= k < |xs|
        ensures !less(xs[k], x)
      {
        assert !less(xs[k], xs[0]) || k == 0;
      }
    } else {
      var rest := Insert(less, x, xs[1..]);
      InsertSorts(less, x, xs[1..]);
      InsertElements(less, x, xs[1..]);
      forall k | 0 <= k < |rest|
        ensures !less(rest[k], xs[0])
      {
        assert rest[k] in multiset(rest);
        assert rest[k] == x || rest[k] in xs[1..];
      }
      SortedCons(less, xs[0], rest);
    }
  }

  lemma SortedCons<T(!new)>(less: (T, T) -> bool, x: T, xs: seq<T>)
    requires SortedBy(less, xs) && forall k :: 0 <= k < |xs| ==> !less(xs[k], x)
    ensures SortedBy(less, [x] + xs)
  {
  }

  lemma {:induction false} SortByCorrect<T(!new)>(less: (T, T) -> bool, xs: seq<T>)
    requires StrictTotal(less)
    ensures SortedBy(less, SortBy(less, xs)) && multiset(SortBy(less, xs)) == multiset(xs)
  {
    if xs == [] {
    } else {
      SortByCorrect(less, xs[1..]);
      InsertSorts(less, xs[0], SortBy(less, xs[1..]));
      InsertElements(less, xs[0], SortBy(less, xs[1..]));
      assert xs == [xs[0]] + xs[1..];
    }
  }

  /** A multiset has one sorted list. */
  lemma {:induction false} SortedUnique<T(!new)>(less: (T, T) -> bool, a: seq<T>, b: seq<T>)
    requires StrictTotal(less) && SortedBy(less, a) && SortedBy(less, b)
    requires multiset(a) == multiset(b)
    ensures a == b
  {
    assert |multiset(a)| == |a| && |multiset(b)| == |b|;
    if a == [] {
    } else {
      SortedHead(less, a, b);
      SortedHead(less, b, a);
      assert a == [a[0]] + a[1..] && b == [b[0]] + b[1..];
      assert multiset(a[1..]) == multiset(a) - multiset{a[0]};
      assert multiset(b[1..]) == multiset(b) - multiset{b[0]};
      SortedUnique(less, a[1..], b[1..]);
    }
  }

  lemma SortedHead<T(!new)>(less: (T, T) -> bool, a: seq<T>, b: seq<T>)
    requires StrictTotal(less) && SortedBy(less, a) && multiset(a) == multiset(b) && a != [] && b != []
    ensures !less(b[0], a[0])
  {
    assert b[0] in multiset(b);
    var k :| 0 <= k < |a| && a[k] == b[0];
  }

  /** Comparing sorted copies compares multisets. */
  lemma SortedCopies<T(!new)>(less: (T, T) -> bool, a: seq<T>, b: seq<T>)
    requires StrictTotal(less)
    ensures SortBy(less, a) == SortBy(less, b) <==> multiset(a) == multiset(b)
  {
    SortByCorrect(less, a);
    SortByCorrect(less, b);
    if multiset(a) == multiset(b) {
      SortedUnique(less, SortBy(less, a), SortBy(less, b));
    }
  }

  /** A set has one sorted list without repetitions. */
  lemma {:induction false} SortedSetUnique<T(!new)>(less: (T, T) -> bool, a: seq<T>, b: seq<T>)
    requires StrictTotal(less) && SortedBy(less, a) && SortedBy(less, b)
    requires Distinct(a) && Distinct(b) && forall x :: x in a <==> x in b
    ensures a == b
  {
    assert (a != [] ==> a[0] in a) && (b != [] ==> b[0] in b);
    if a != [] {
      SmallestFirst(less, a, b[0]);
      SmallestFirst(less, b, a[0]);
      assert a == [a[0]] + a[1..] && b == [b[0]] + b[1..];
      forall x
        ensures x in a[1..] <==> x in b[1..]
      {
        assert x in a[1..] <==> x in a && x != a[0];
        assert x in b[1..] <==> x in b && x != b[0];
      }
      SortedSetUnique(less, a[1..], b[1..]);
    }
  }

  lemma SmallestFirst<T>(less: (T, T) -> bool, a: seq<T>, x: T)
    requires SortedBy(less, a) && x in a
    ensures x == a[0] || !less(x, a[0])
  {
  }

  // ---- Strings ----

  predicate StringLess(a: string, b: string) {
    if b == [] then false
    else a == [] || a[0] < b[0] || (a[0] == b[0] && StringLess(a[1..], b[1..]))
  }

  lemma {:induction false} StringLessTotal(a: string, b: string)
    ensures a == b || StringLess(a, b) || StringLess(b, a)
    ensures !StringLess(a, a)
  {
    if a == [] || b == [] {
      IrreflexiveString(a);
    } else {
      StringLessTotal(a[1..], b[1..]);
      assert a == [a[0]] + a[1..] && b == [b[0]] + b[1..];
    }
  }

  lemma {:induction false} IrreflexiveString(a: string)
    ensures !StringLess(a, a)
  {
    if a != [] {
      IrreflexiveString(a[1..]);
    }
  }

  lemma {:induction false} StringLessTransitive(a: string, b: string, c: string)
    requires StringLess(a, b) && StringLess(b, c)
    ensures StringLess(a, c)
  {
    if a != [] && a[0] == b[0] == c[0] {
      StringLessTransitive(a[1..], b[1..], c[1..]);
    }
  }

  lemma StringOrder()
    ensures StrictTotal(StringLess)
  {
    forall a: string, b: string
      ensures (a == b || StringLess(a, b) || StringLess(b, a)) && !StringLess(a, a)
    {
      StringLessTotal(a, b);
    }
    forall a: string, b: string, c: string | StringLess(a, b) && StringLess(b, c)
      ensures StringLess(a, c)
    {
      StringLessTransitive(a, b, c);
    }
  }
}
