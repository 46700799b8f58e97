/** Closed integer intervals: subtraction, and the canonical list of intervals of a set. */
module Intervals {

  datatype Interval = Interval(lo: int, hi: int)
  {
    predicate Has(v: int) {
      lo <= v <= hi
    }
  }

  predicate Covers(rs: seq<Interval>, v: int) {
    rs != [] && (rs[0].Has(v) || Covers(rs[1..], v))
  }

  /** Ascending, non-empty, and with at least one address between neighbours. */
  predicate Canonical(rs: seq<Interval>) {
    rs != [] ==>
      && rs[0].lo <= rs[0].hi
      && (|rs| > 1 ==> rs[0].hi + 1 < rs[1].lo)
      && Canonical(rs[1..])
  }

  lemma {:induction false} CoversConcat(a: seq<Interval>, b: seq<Interval>, v: int)
    ensures Covers(a + b, v) <==> Covers(a, v) || Covers(b, v)
  {
    if a == [] {
      assert a + b == b;
    } else {
      assert (a + b)[1..] == a[1..] + b;
      CoversConcat(a[1..], b, v);
    }
  }

  /** What a canonical list covers lies after the start of its first interval. */
  lemma {:induction false} CanonicalStart(rs: seq<Interval>, v: int)
    requires Canonical(rs) && Covers(rs, v)
    ensures rs[0].lo <= v
    ensures |rs| > 1 && v > rs[0].hi ==> rs[1].lo <= v
  {
    if !rs[0].Has(v) {
      CanonicalStart(rs[1..], v);
    }
  }

  lemma {:induction false} CanonicalConcat(a: seq<Interval>, b: seq<Interval>)
    requires Canonical(a) && Canonical(b)
    requires a != [] && b != [] ==> a[|a| - 1].hi + 1 < b[0].lo
    ensures Canonical(a + b)
  {
    if a == [] {
      assert a + b == b;
    } else {
      assert (a + b)[1..] == a[1..] + b;
      CanonicalConcat(a[1..], b);
    }
  }

  /** A set has one canonical list. */
  lemma {:induction false} CanonicalUnique(a: seq<Interval>, b: seq<Interval>)
    requires Canonical(a) && Canonical(b)
    requires forall v :: Covers(a, v) <==> Covers(b, v)
    ensures a == b
  {
    if a == [] || b == [] {
      if a != [] {
        assert Covers(a, a[0].lo);
      }
      if b != [] {
        assert Covers(b, b[0].lo);
      }
    } else {
      SameHead(a, b);
      SameHead(b, a);
      forall v
        ensures Covers(a[1..], v) <==> Covers(b[1..], v)
      {
        TailCovers(a, v);
        TailCovers(b, v);
      }
      CanonicalUnique(a[1..], b[1..]);
    }
  }

  lemma TailCovers(a: seq<Interval>, v: int)
    requires a != [] && Canonical(a)
    ensures Covers(a[1..], v) <==> Covers(a, v) && v > a[0].hi
  {
    if Covers(a[1..], v) {
      CanonicalStart(a[1..], v);
    }
  }

  lemma SameHead(a: seq<Interval>, b: seq<Interval>)
    requires a != [] && b != [] && Canonical(a) && Canonical(b)
    requires forall v :: Covers(a, v) <==> Covers(b, v)
    ensures a[0].lo <= b[0].lo && a[0].hi <= b[0].hi
  {
    assert Covers(b, b[0].lo);
    CanonicalStart(a, b[0].lo);
    assert Covers(a, a[0].lo);
    CanonicalStart(b, a[0].lo);
    if b[0].hi < a[0].hi {
      assert a[0].Has(b[0].hi + 1);
      assert Covers(a, b[0].hi + 1);
      CanonicalStart(b[1..], b[0].hi + 1);
    }
  }

  /** An interval minus an interval: what is left of e, and what is right of it. */
  function Minus(r: Interval, e: Interval): seq<Interval> {
    if e.hi < r.lo || r.hi < e.lo then [r]
    else
      (if r.lo < e.lo then [Interval(r.lo, e.lo - 1)] else [])
      + (if e.hi < r.hi then [Interval(e.hi + 1, r.hi)] else [])
  }

  function MinusAll(rs: seq<Interval>, e: Interval): seq<Interval> {
    if rs == [] then [] else Minus(rs[0], e) + MinusAll(rs[1..], e)
  }

  lemma {:induction false} MinusAllConcat(a: seq<Interval>, b: seq<Interval>, e: Interval)
    ensures MinusAll(a + b, e) == MinusAll(a, e) + MinusAll(b, e)
  {
    if a == [] {
      assert a + b == b;
    } else {
      assert (a + b)[1..] == a[1..] + b;
      MinusAllConcat(a[1..], b, e);
    }
  }

  lemma {:induction false} MinusAllCovers(rs: seq<Interval>, e: Interval, v: int)
    requires e.lo <= e.hi
    ensures Covers(MinusAll(rs, e), v) <==> Covers(rs, v) && !e.Has(v)
  {
    if rs != [] {
      CoversConcat(Minus(rs[0], e), MinusAll(rs[1..], e), v);
      MinusAllCovers(rs[1..], e, v);
      MinusCovers(rs[0], e, v);
    }
  }

  lemma MinusCovers(r: Interval, e: Interval, v: int)
    requires e.lo <= e.hi
    ensures Covers(Minus(r, e), v) <==> r.Has(v) && !e.Has(v)
  {
    CoversConcat(if r.lo < e.lo then [Interval(r.lo, e.lo - 1)] else [],
                 if e.hi < r.hi then [Interval(e.hi + 1, r.hi)] else [], v);
  }

  /** Subtraction keeps the canonical form, stays to the right of where the list starts, and
    * adds at most one interval: only the interval that strictly holds e is split. */
  lemma {:induction false} MinusAllCanonical(rs: seq<Interval>, e: Interval)
    requires Canonical(rs) && e.lo <= e.hi
    ensures Canonical(MinusAll(rs, e))
    ensures MinusAll(rs, e) != [] ==> rs != [] && rs[0].lo <= MinusAll(rs, e)[0].lo
    ensures |MinusAll(rs, e)| <= |rs| + 1
    ensures rs != [] && e.hi < rs[0].lo ==> |MinusAll(rs, e)| <= |rs|
  {
    if rs != [] {
      MinusAllCanonical(rs[1..], e);
      var head, tail := Minus(rs[0], e), MinusAll(rs[1..], e);
      CanonicalConcat(head, tail);
      if |head| == 2 {
        assert rs[1..] != [] ==> e.hi < rs[1..][0].lo;
      }
    }
  }
}
