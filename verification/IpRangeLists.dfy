/** One except against a list of ranges. */
module IpRangeLists {
  import opened IpBytes
  import opened Cidr
  import opened Intervals
  import opened IpRanges
  import opened IpRangeSteps
  import opened IpRangeMapped

  /** The three kinds of excepts: in the IPv4-mapped block, ending with it, and the others. */
  predicate Inside(t: Interval, n: nat) {
    n == 16 && MAPPED_LO <= t.lo && t.hi <= MAPPED_HI
  }

  predicate Ending(t: Interval, n: nat) {
    n == 16 && t.lo < MAPPED_LO && t.hi == MAPPED_HI
  }

  /** How the block t of an except is read: as one IPv4 address if it lies in the IPv4-mapped block,
    * and otherwise as its two ends, of which the last one may be mapped. */
  predicate Reads(e: Range, t: Interval, n: nat) {
    && (n == 4 || n == 16) && t.lo <= t.hi
    && if Inside(t, n) then |e.0| == 4 && e.1 == e.0 && Val(e.0) == t.lo - MAPPED_LO
       else (if Ending(t, n) then EndsMapped(e) else Clean(e, n)) && Span(e) == t
  }

  /** The except goes wrong on the range. */
  predicate Fails(r: Interval, t: Interval, n: nat) {
    if Inside(t, n) then Strays(r, t)
    else if Ending(t, n) then MisplacedEnd(r, t)
    else PlainFails(r, t, n)
  }

  lemma TopAbove(n: nat)
    requires n == 4 || n == 16
    ensures n == 4 ==> Top(n) == LOW_HI
    ensures n == 16 ==> MAPPED_HI < Top(n)
  {
    Pow2Of49();
    if n == 16 {
      Pow2Mono(49, 8 * n);
    }
  }

  lemma OneStep(r: Range, e: Range, t: Interval, n: nat)
    requires Clean(r, n) && Reads(e, t, n)
    ensures Right(AbstractOne(r, e), Span(r), t, n) <==> !Fails(Span(r), t, n)
    ensures Wrong(AbstractOne(r, e), Span(r), t, n) <==> Fails(Span(r), t, n)
  {
    if Inside(t, n) {
      assert e == (e.0, e.0);
      InsideStep(r, e.0, t);
    } else if Ending(t, n) {
      MappedEndStep(r, e);
    } else {
      PlainStep(r, e, n);
    }
  }

  predicate FailsOnSome(rs: seq<Range>, t: Interval, n: nat) {
    exists i :: 0 <= i < |rs| && Fails(Span(rs[i]), t, n)
  }

  // ---- Nothing fails ----

  lemma SpansConcat(a: seq<Range>, b: seq<Range>, n: nat)
    ensures Spans(a + b) == Spans(a) + Spans(b)
    ensures AllClean(a + b, n) <==> AllClean(a, n) && AllClean(b, n)
  {
    assert AllClean(a + b, n) ==> forall i :: 0 <= i < |a| ==> a[i] == (a + b)[i];
    assert AllClean(a + b, n) ==> forall i :: 0 <= i < |b| ==> b[i] == (a + b)[|a| + i];
  }

  lemma MinusLast(rs: seq<Range>, t: Interval)
    requires rs != []
    ensures MinusAll(Spans(rs), t) == MinusAll(Spans(rs[..|rs| - 1]), t) + Minus(Span(rs[|rs| - 1]), t)
  {
    var m := |rs| - 1;
    assert Spans(rs) == Spans(rs[..m]) + [Span(rs[m])];
    MinusAllConcat(Spans(rs[..m]), [Span(rs[m])], t);
    assert MinusAll([Span(rs[m])], t) == Minus(Span(rs[m]), t) + MinusAll([], t);
  }

  lemma {:induction false} AllRight(rs: seq<Range>, e: Range, t: Interval, n: nat)
    requires AllClean(rs, n) && Reads(e, t, n)
    requires forall i :: 0 <= i < |rs| ==> !Fails(Span(rs[i]), t, n)
    ensures Spans(AbstractAll(rs, e)) == MinusAll(Spans(rs), t) && AllClean(AbstractAll(rs, e), n)
  {
    if rs != [] {
      var m := |rs| - 1;
      AllRight(rs[..m], e, t, n);
      OneStep(rs[m], e, t, n);
      MinusLast(rs, t);
      SpansConcat(AbstractAll(rs[..m], e), AbstractOne(rs[m], e), n);
    }
  }

  // ---- Something fails ----

  /** The pieces of every range. */
  function Parts(rs: seq<Range>, e: Range): seq<seq<Range>> {
    seq(|rs|, i requires 0 <= i < |rs| => AbstractOne(rs[i], e))
  }

  function Flat(parts: seq<seq<Range>>): seq<Range> {
    if parts == [] then [] else Flat(parts[..|parts| - 1]) + parts[|parts| - 1]
  }

  lemma {:induction false} AllIsFlat(rs: seq<Range>, e: Range)
    ensures AbstractAll(rs, e) == Flat(Parts(rs, e))
  {
    if rs != [] {
      AllIsFlat(rs[..|rs| - 1], e);
      assert Parts(rs, e)[..|rs| - 1] == Parts(rs[..|rs| - 1], e);
    }
  }

  lemma ConcatCovers(a: seq<Range>, b: seq<Range>, v: int)
    ensures Covers(Spans(a + b), v) <==> Covers(Spans(a), v) || Covers(Spans(b), v)
  {
    SpansConcat(a, b, 4);
    CoversConcat(Spans(a), Spans(b), v);
  }

  predicate InPart(parts: seq<seq<Range>>, v: int) {
    exists k :: 0 <= k < |parts| && Covers(Spans(parts[k]), v)
  }

  lemma {:induction false} FlatCovers(parts: seq<seq<Range>>, v: int)
    ensures Covers(Spans(Flat(parts)), v) <==> InPart(parts, v)
  {
    if parts != [] {
      var most, last := parts[..|parts| - 1], parts[|parts| - 1];
      FlatCovers(most, v);
      ConcatCovers(Flat(most), last, v);
      if k :| 0 <= k < |most| && Covers(Spans(most[k]), v) {
        assert parts[k] == most[k];
      }
      if k :| 0 <= k < |parts| && Covers(Spans(parts[k]), v) {
        assert k < |most| ==> most[k] == parts[k];
      }
    }
  }

  lemma {:induction false} FlatClean(parts: seq<seq<Range>>, k: nat, n: nat)
    requires k < |parts| && AllClean(Flat(parts), n)
    ensures AllClean(parts[k], n)
  {
    var most, last := parts[..|parts| - 1], parts[|parts| - 1];
    SpansConcat(Flat(most), last, n);
    if k < |most| {
      FlatClean(most, k, n);
    }
  }

  /** The ranges of a canonical list do not overlap. */
  lemma {:induction false} Separate(rs: seq<Interval>, i: nat, j: nat)
    requires Canonical(rs) && i < j < |rs|
    ensures rs[i].hi + 1 < rs[j].lo && rs[j].lo <= rs[j].hi
  {
    if i > 0 {
      Separate(rs[1..], i - 1, j - 1);
    } else if j > 1 {
      Separate(rs[1..], 0, j - 1);
    } else {
      assert rs[1..][0] == rs[1];
    }
  }

  lemma OneHolder(rs: seq<Range>, i: nat, j: nat, v: int)
    requires Canonical(Spans(rs)) && i < |rs| && j < |rs| && Span(rs[i]).Has(v) && Span(rs[j]).Has(v)
    ensures i == j
  {
    if i != j {
      Separate(Spans(rs), if i < j then i else j, if i < j then j else i);
    }
  }

  predicate Exact(rs: seq<Range>, e: Range, t: Interval, n: nat) {
    Spans(AbstractAll(rs, e)) == MinusAll(Spans(rs), t) && AllClean(AbstractAll(rs, e), n)
  }

  lemma NotExcepted(rs: seq<Range>, e: Range, t: Interval, n: nat, j: nat, v: int)
    requires t.lo <= t.hi && Exact(rs, e, t, n)
    requires j < |rs| && Covers(Spans(Parts(rs, e)[j]), v)
    ensures !t.Has(v)
  {
    AllIsFlat(rs, e);
    FlatCovers(Parts(rs, e), v);
    MinusAllCovers(Spans(rs), t, v);
  }

  /** If the result is right, no piece holds an excepted address, and every piece lies in its range. */
  lemma PieceInRange(rs: seq<Range>, e: Range, t: Interval, n: nat, j: nat, v: int)
    requires AllClean(rs, n) && Reads(e, t, n) && Exact(rs, e, t, n)
    requires j < |rs| && Covers(Spans(Parts(rs, e)[j]), v)
    ensures Span(rs[j]).Has(v) && !t.Has(v)
  {
    NotExcepted(rs, e, t, n, j, v);
    OneStep(rs[j], e, t, n);
    if Fails(Span(rs[j]), t, n) {
      AllIsFlat(rs, e);
      FlatClean(Parts(rs, e), j, n);
      forall w | t.Has(w)
        ensures !Covers(Spans(Parts(rs, e)[j]), w)
      {
        if Covers(Spans(Parts(rs, e)[j]), w) {
          NotExcepted(rs, e, t, n, j, w);
        }
      }
    } else {
      MinusCovers(Span(rs[j]), t, v);
    }
  }

  lemma {:induction false} HasCovered(rs: seq<Interval>, i: nat, v: int)
    requires i < |rs| && rs[i].Has(v)
    ensures Covers(rs, v)
  {
    if i > 0 {
      HasCovered(rs[1..], i - 1, v);
    }
  }

  /** And every address of a range that is not excepted is in a piece of that range. */
  lemma RangeInPiece(rs: seq<Range>, e: Range, t: Interval, n: nat, k: nat, v: int)
    requires AllClean(rs, n) && Reads(e, t, n) && Canonical(Spans(rs)) && Exact(rs, e, t, n)
    requires k < |rs| && Span(rs[k]).Has(v) && !t.Has(v)
    ensures Covers(Spans(Parts(rs, e)[k]), v)
  {
    HasCovered(Spans(rs), k, v);
    MinusAllCovers(Spans(rs), t, v);
    AllIsFlat(rs, e);
    FlatCovers(Parts(rs, e), v);
    var j :| 0 <= j < |rs| && Covers(Spans(Parts(rs, e)[j]), v);
    PieceInRange(rs, e, t, n, j, v);
    OneHolder(rs, j, k, v);
  }

  lemma NothingWrong(rs: seq<Range>, e: Range, t: Interval, n: nat, k: nat)
    requires AllClean(rs, n) && Reads(e, t, n) && Canonical(Spans(rs)) && Exact(rs, e, t, n) && k < |rs|
    ensures !Fails(Span(rs[k]), t, n)
  {
    var part := Parts(rs, e)[k];
    OneStep(rs[k], e, t, n);
    AllIsFlat(rs, e);
    FlatClean(Parts(rs, e), k, n);
    forall v
      ensures Covers(Spans(part), v) <==> Span(rs[k]).Has(v) && !t.Has(v)
    {
      if Covers(Spans(part), v) {
        PieceInRange(rs, e, t, n, k, v);
      } else if Span(rs[k]).Has(v) && !t.Has(v) {
        RangeInPiece(rs, e, t, n, k, v);
      }
    }
  }

  /** One except against separate ranges: the result is the difference, with plain addresses as ends,
    * if and only if the except fails on no range. */
  lemma StepExact(rs: seq<Range>, e: Range, t: Interval, n: nat)
    requires AllClean(rs, n) && Reads(e, t, n) && Canonical(Spans(rs))
    ensures Exact(rs, e, t, n) <==> !FailsOnSome(rs, t, n)
  {
    if Exact(rs, e, t, n) {
      forall k | 0 <= k < |rs|
        ensures !Fails(Span(rs[k]), t, n)
      {
        NothingWrong(rs, e, t, n, k);
      }
    } else if !FailsOnSome(rs, t, n) {
      AllRight(rs, e, t, n);
    }
  }

  // ---- What reads how ----

  /** Two aligned blocks are apart, or one lies in the other. */
  lemma AlignedNest(a: nat, p: nat, b: nat, q: nat)
    requires p > 0 && q > 0 && a % p == 0 && b % q == 0 && q % p == 0
    ensures a + p <= b || b + q <= a || (b <= a && a + p <= b + q)
  {
    var i, j, m := a / p, b / q, q / p;
    assert a == i * p && q == m * p;
    assert b == j * q == (j * m) * p by {
      Reassociate(j, m, p);
    }
    assert b + q == (j * m + m) * p;
    if a < b {
      MultipleGap(i, j * m, p);
    } else if a < b + q {
      MultipleGap(i, j * m + m, p);
    }
  }

  lemma Reassociate(j: nat, m: nat, p: nat)
    ensures j * (m * p) == (j * m) * p
  {
  }

  lemma MultipleGap(i: nat, k: nat, p: nat)
    requires p > 0 && i * p < k * p
    ensures i * p + p <= k * p
  {
    TimesMono(k, i, p);
    TimesMono(i + 1, k, p);
    assert i * p + p == (i + 1) * p;
  }

  lemma TimesMono(i: nat, k: nat, p: nat)
    ensures i <= k ==> i * p <= k * p
  {
  }

  lemma PowDivides(a: nat, b: nat)
    requires a <= b
    ensures Pow2(b) % Pow2(a) == 0
  {
    Pow2Add(b - a, a);
    DivModUnique(Pow2(b), Pow2(a), Pow2(b - a), 0);
  }

  function HostWidth(prefix: nat, n: nat): nat {
    if prefix >= 8 * n then 0 else 8 * n - prefix
  }

  /** The block of a CIDR starts at a multiple of its size. */
  lemma BlockAligned(c: CidrText)
    requires c.Cidr?
    ensures var k := HostWidth(c.prefix, |c.addr|);
            Block(c).lo >= 0 && Block(c).lo % Pow2(k) == 0 && Block(c).hi == Block(c).lo + Pow2(k) - 1
  {
    StartAligned(Val(c.addr), Size(c.prefix, |c.addr|));
  }

  lemma StartAligned(v: nat, size: nat)
    requires size > 0
    ensures v - v % size >= 0 && (v - v % size) % size == 0
  {
    assert v == (v / size) * size + v % size;
    DivModUnique(v - v % size, size, v / size, 0);
  }

  /** A block that meets the IPv4-mapped block lies in it, or holds it. */
  lemma MappedNest(c: CidrText)
    requires c.Cidr?
    ensures var b := Block(c);
            b.hi < MAPPED_LO || MAPPED_HI < b.lo || (MAPPED_LO <= b.lo && b.hi <= MAPPED_HI)
            || (b.lo <= MAPPED_LO && MAPPED_HI <= b.hi)
  {
    var k := HostWidth(c.prefix, |c.addr|);
    BlockAligned(c);
    Pow2Of49();
    if k <= 32 {
      PowDivides(k, 32);
      AlignedNest(Block(c).lo, Pow2(k), MAPPED_LO, Pow2(32));
    } else {
      PowDivides(32, k);
      AlignedNest(MAPPED_LO, Pow2(32), Block(c).lo, Pow2(k));
    }
  }

  /** A network address in the IPv4-mapped block makes the whole CIDR lie in it. */
  lemma NetworkInside(c: CidrText)
    requires c.Cidr? && IsMapped(Network(c))
    ensures Inside(Block(c), 16)
  {
    NetworkValue(c);
    MappedNest(c);
    MappedBlock(Network(c));
    MappedRange(c);
    Pow2Of49();
    Pow2Mono(HostWidth(c.prefix, 16), 32);
    BlockAligned(c);
    assert MAPPED_LO < Block(c).lo || Block(c).hi <= MAPPED_HI;
  }

  lemma InsideReads(c: CidrText)
    requires c.Cidr? && IsMapped(Network(c))
    ensures Reads(RangeOf(c), Block(c), 16)
  {
    NetworkValue(c);
    NetworkInside(c);
    MappedRange(c);
    MappedReads(Network(c));
    BlockAligned(c);
  }

  lemma OutsideReads(c: CidrText, n: nat)
    requires (n == 4 || n == 16) && c.Cidr? && |c.addr| == n && !IsMapped(Network(c))
    ensures Reads(RangeOf(c), Block(c), n)
  {
    BlockAligned(c);
    RangeIsBlock(c);
    if n == 16 {
      MappedNest(c);
      NetworkValue(c);
      MappedBlock(Network(c));
      MappedBlock(RangeOf(c).0);
      MappedBlock(RangeOf(c).1);
    }
  }

  /** Every CIDR of the family is read in one of the three ways. */
  lemma ReadsBlock(c: CidrText, n: nat)
    requires (n == 4 || n == 16) && c.Cidr? && |c.addr| == n
    ensures Reads(RangeOf(c), Block(c), n)
  {
    if IsMapped(Network(c)) {
      InsideReads(c);
    } else {
      OutsideReads(c, n);
    }
  }
}
