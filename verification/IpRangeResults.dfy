/** What GetCIDRRangesWithExcept returns, as sets of addresses. */
module IpRangeResults {
  import opened IpBytes
  import opened Cidr
  import opened Intervals
  import opened IpRanges
  import opened IpRangeSteps
  import opened IpRangeMapped
  import opened IpRangeLists

  // ---- The difference of the blocks ----

  function Blocks(cs: seq<CidrText>): seq<Interval>
    requires forall c :: c in cs ==> c.Cidr?
  {
    seq(|cs|, i requires 0 <= i < |cs| => Block(cs[i]))
  }

  /** A CIDR and excepts of one address family. */
  predicate SameFamily(cidr: CidrText, excepts: seq<CidrText>, n: nat) {
    && (n == 4 || n == 16)
    && cidr.Cidr? && |cidr.addr| == n
    && (forall e :: e in excepts ==> e.Cidr? && |e.addr| == n)
  }

  /** The CIDR minus the excepts, one after the other. */
  function Difference(c: Interval, es: seq<Interval>): seq<Interval> {
    if es == [] then [c] else MinusAll(Difference(c, es[..|es| - 1]), es[|es| - 1])
  }

  predicate InNone(es: seq<Interval>, v: int) {
    forall e :: e in es ==> !e.Has(v)
  }

  predicate Ordered(es: seq<Interval>) {
    forall e :: e in es ==> e.lo <= e.hi
  }

  lemma {:induction false} DifferenceCovers(c: Interval, es: seq<Interval>, v: int)
    requires c.lo <= c.hi && Ordered(es)
    ensures Covers(Difference(c, es), v) <==> c.Has(v) && InNone(es, v)
  {
    if es == [] {
      assert Covers([c], v) <==> c.Has(v) || Covers([c][1..], v);
    } else {
      var m := |es| - 1;
      DifferenceCovers(c, es[..m], v);
      MinusAllCovers(Difference(c, es[..m]), es[m], v);
      assert forall e :: e in es <==> e in es[..m] || e == es[m];
    }
  }

  lemma {:induction false} DifferenceCanonical(c: Interval, es: seq<Interval>)
    requires c.lo <= c.hi && Ordered(es)
    ensures Canonical(Difference(c, es)) && |Difference(c, es)| <= 1 + |es|
  {
    if es != [] {
      var m := |es| - 1;
      DifferenceCanonical(c, es[..m]);
      MinusAllCanonical(Difference(c, es[..m]), es[m]);
    }
  }

  /** What the CIDR and the excepts so far leave. */
  predicate Left(c: Interval, es: seq<Interval>, v: int) {
    c.Has(v) && InNone(es, v)
  }

  /** The call is exact: the ranges are the difference of the blocks, and their ends are n-byte
    * addresses of which none is IPv4-mapped. */
  predicate ExactOn(cidr: CidrText, excepts: seq<CidrText>, n: nat)
    requires cidr.Cidr? && forall e :: e in excepts ==> e.Cidr?
  {
    var rs := RangesWithExcept(cidr, excepts);
    Spans(rs) == Difference(Block(cidr), Blocks(excepts)) && AllClean(rs, n)
  }

  // ---- When an except fails ----

  /** Neither the first nor the last address is IPv4-mapped. */
  predicate MappedFree(e: Interval, n: nat) {
    n == 16 ==> !(MAPPED_LO <= e.lo <= MAPPED_HI) && !(MAPPED_LO <= e.hi <= MAPPED_HI)
  }

  /** The except ends with an edge address that is still left after the earlier excepts, while the
    * address after it is left too, or the one before it is not. */
  predicate NextAfter(c: Interval, before: seq<Interval>, t: Interval, n: nat) {
    IsEdge(t.hi, n) && Left(c, before, t.hi) && (Left(c, before, t.hi + 1) || !Left(c, before, t.hi - 1))
  }

  /** The except begins right after the IPv4-mapped block, and both sides of its start are left. */
  predicate PreviousAfter(c: Interval, before: seq<Interval>, t: Interval, n: nat) {
    n == 16 && t.lo == MAPPED_HI + 1 && Left(c, before, t.lo - 1) && Left(c, before, t.lo)
  }

  /** The except ends with the IPv4-mapped block. That block is left; or the except holds an address v
    * above ::ffff:ffff that is left, and begins at or below ::ffff:ffff, or has an address up to v that is
    * not left, or begins before v and all addresses between ::ffff:ffff and its start are left. */
  ghost predicate EndingAfter(c: Interval, before: seq<Interval>, t: Interval) {
    || Left(c, before, MAPPED_LO)
    || exists v :: Left(c, before, v) && t.Has(v) && LOW_HI < v && Cramped(c, before, t, v)
  }

  ghost predicate Cramped(c: Interval, before: seq<Interval>, t: Interval, v: int) {
    || t.lo <= LOW_HI
    || (exists u :: t.lo <= u <= v && !Left(c, before, u))
    || (t.lo < v && forall u :: LOW_HI <= u < t.lo ==> Left(c, before, u))
  }

  /** The except lies in the IPv4-mapped block. That block is left, or the except's IPv4 number and the
    * next number are. */
  predicate InsideAfter(c: Interval, before: seq<Interval>, t: Interval) {
    || Left(c, before, MAPPED_LO)
    || (Left(c, before, t.lo - MAPPED_LO) && Left(c, before, t.lo - MAPPED_LO + 1))
  }

  ghost predicate FailsAfter(c: Interval, before: seq<Interval>, t: Interval, n: nat) {
    if Inside(t, n) then InsideAfter(c, before, t)
    else if Ending(t, n) then EndingAfter(c, before, t)
    else NextAfter(c, before, t, n) || PreviousAfter(c, before, t, n)
  }

  /** The k-th except fails. */
  ghost predicate FailsAt(c: Interval, es: seq<Interval>, k: nat, n: nat)
    requires k < |es|
  {
    FailsAfter(c, es[..k], es[k], n)
  }

  /** Some except fails. */
  ghost predicate FailsOn(c: Interval, es: seq<Interval>, n: nat) {
    exists k :: 0 <= k < |es| && FailsAt(c, es, k, n)
  }

  // ---- Canonical lists ----

  lemma {:induction false} CoveredBy(rs: seq<Interval>, v: int) returns (i: nat)
    requires Covers(rs, v)
    ensures i < |rs| && rs[i].Has(v)
  {
    if rs[0].Has(v) {
      i := 0;
    } else {
      var j := CoveredBy(rs[1..], v);
      i := j + 1;
    }
  }

  lemma {:induction false} RangeOrdered(rs: seq<Interval>, i: nat)
    requires Canonical(rs) && i < |rs|
    ensures rs[i].lo <= rs[i].hi
  {
    if i > 0 {
      RangeOrdered(rs[1..], i - 1);
    }
  }

  lemma StartNotCovered(rs: seq<Interval>, i: nat)
    requires Canonical(rs) && i < |rs|
    ensures !Covers(rs, rs[i].lo - 1)
  {
    if Covers(rs, rs[i].lo - 1) {
      var j := CoveredBy(rs, rs[i].lo - 1);
      RangeOrdered(rs, i);
      if i != j {
        Separate(rs, if i < j then i else j, if i < j then j else i);
      }
    }
  }

  /** Two neighbouring covered addresses lie in one range. */
  lemma NeighboursTogether(rs: seq<Interval>, v: int)
    requires Canonical(rs)
    ensures (exists i :: 0 <= i < |rs| && rs[i].lo <= v < rs[i].hi) <==> Covers(rs, v) && Covers(rs, v + 1)
  {
    if i :| 0 <= i < |rs| && rs[i].lo <= v < rs[i].hi {
      HasCovered(rs, i, v);
      HasCovered(rs, i, v + 1);
    }
    if Covers(rs, v) && Covers(rs, v + 1) {
      var i := CoveredBy(rs, v + 1);
      if rs[i].lo == v + 1 {
        StartNotCovered(rs, i);
      }
      assert rs[i].lo <= v < rs[i].hi;
    }
  }

  // ---- The next except fails on some range exactly when FailsAfter says so ----

  /** The ranges are what is left, and their ends are not IPv4-mapped. */
  ghost predicate Holds(rs: seq<Interval>, c: Interval, before: seq<Interval>, n: nat) {
    && Canonical(rs) && (forall v :: Covers(rs, v) <==> Left(c, before, v))
    && (forall i :: 0 <= i < |rs| ==> MappedFree(rs[i], n))
  }

  lemma NextSome(rs: seq<Interval>, c: Interval, before: seq<Interval>, t: Interval, n: nat)
    requires Holds(rs, c, before, n)
    ensures (exists i :: 0 <= i < |rs| && NextFails(rs[i], t, n)) <==> NextAfter(c, before, t, n)
  {
    NeighboursTogether(rs, t.hi);
    if i :| 0 <= i < |rs| && NextFails(rs[i], t, n) {
      HasCovered(rs, i, t.hi);
      StartNotCovered(rs, i);
    }
    if NextAfter(c, before, t, n) {
      if Left(c, before, t.hi + 1) {
        var i :| 0 <= i < |rs| && rs[i].lo <= t.hi < rs[i].hi;
        assert NextFails(rs[i], t, n);
      } else {
        var i := CoveredBy(rs, t.hi);
        if rs[i].lo < t.hi {
          HasCovered(rs, i, t.hi - 1);
        }
        assert NextFails(rs[i], t, n);
      }
    }
  }

  lemma PreviousSome(rs: seq<Interval>, c: Interval, before: seq<Interval>, t: Interval, n: nat)
    requires Holds(rs, c, before, n)
    ensures (exists i :: 0 <= i < |rs| && PreviousFails(rs[i], t, n)) <==> PreviousAfter(c, before, t, n)
  {
    NeighboursTogether(rs, t.lo - 1);
    if i :| 0 <= i < |rs| && PreviousFails(rs[i], t, n) {
      assert rs[i].lo <= t.lo - 1 < rs[i].hi;
    }
    if PreviousAfter(c, before, t, n) {
      var i :| 0 <= i < |rs| && rs[i].lo <= t.lo - 1 < rs[i].hi;
      assert PreviousFails(rs[i], t, n);
    }
  }

  lemma MappedSome(rs: seq<Interval>, c: Interval, before: seq<Interval>)
    requires Holds(rs, c, before, 16)
    ensures (exists i :: 0 <= i < |rs| && HoldsMapped(rs[i])) <==> Left(c, before, MAPPED_LO)
  {
    if i :| 0 <= i < |rs| && HoldsMapped(rs[i]) {
      HasCovered(rs, i, MAPPED_LO);
    }
    if Left(c, before, MAPPED_LO) {
      var i := CoveredBy(rs, MAPPED_LO);
      assert MappedFree(rs[i], 16);
      assert HoldsMapped(rs[i]);
    }
  }

  lemma InsideSome(rs: seq<Interval>, c: Interval, before: seq<Interval>, t: Interval)
    requires Holds(rs, c, before, 16)
    ensures (exists i :: 0 <= i < |rs| && Strays(rs[i], t)) <==> InsideAfter(c, before, t)
  {
    var x := t.lo - MAPPED_LO;
    MappedSome(rs, c, before);
    NeighboursTogether(rs, x);
    if i :| 0 <= i < |rs| && Strays(rs[i], t) {
      assert HoldsMapped(rs[i]) || rs[i].lo <= x < rs[i].hi;
    }
    if InsideAfter(c, before, t) {
      var i :| 0 <= i < |rs| && (HoldsMapped(rs[i]) || rs[i].lo <= x < rs[i].hi);
      assert Strays(rs[i], t);
    }
  }

  lemma EndingSome(rs: seq<Interval>, c: Interval, before: seq<Interval>, t: Interval)
    requires Holds(rs, c, before, 16) && Ending(t, 16)
    ensures (exists i :: 0 <= i < |rs| && MisplacedEnd(rs[i], t)) <==> EndingAfter(c, before, t)
  {
    MappedSome(rs, c, before);
    if i :| 0 <= i < |rs| && MisplacedEnd(rs[i], t) {
      if !HoldsMapped(rs[i]) {
        EndingWitness(rs, c, before, t, i);
      }
    }
    if Left(c, before, MAPPED_LO) {
      var i :| 0 <= i < |rs| && HoldsMapped(rs[i]);
      assert MisplacedEnd(rs[i], t);
    } else if EndingAfter(c, before, t) {
      var v :| Left(c, before, v) && t.Has(v) && LOW_HI < v && Cramped(c, before, t, v);
      var i := CoveredBy(rs, v);
      CrampedMisplaced(rs, c, before, t, i, v);
    }
  }

  lemma EndingWitness(rs: seq<Interval>, c: Interval, before: seq<Interval>, t: Interval, i: nat)
    requires Holds(rs, c, before, 16) && Ending(t, 16)
    requires i < |rs| && MisplacedEnd(rs[i], t) && !HoldsMapped(rs[i])
    ensures EndingAfter(c, before, t)
  {
    var r := rs[i];
    RangeOrdered(rs, i);
    assert MappedFree(r, 16);
    HasCovered(rs, i, r.hi);
    if r.lo < t.lo {
      forall u | LOW_HI <= u < t.lo
        ensures Left(c, before, u)
      {
        HasCovered(rs, i, u);
      }
    } else if LOW_HI < t.lo {
      StartNotCovered(rs, i);
      assert t.lo <= r.lo - 1 <= r.hi && !Left(c, before, r.lo - 1);
    }
    assert Cramped(c, before, t, r.hi);
  }

  lemma CrampedMisplaced(rs: seq<Interval>, c: Interval, before: seq<Interval>, t: Interval, i: nat, v: int)
    requires Holds(rs, c, before, 16) && Ending(t, 16)
    requires i < |rs| && rs[i].Has(v) && t.Has(v) && LOW_HI < v && Cramped(c, before, t, v)
    ensures MisplacedEnd(rs[i], t)
  {
    var r := rs[i];
    if LOW_HI < t.lo {
      StartNotCovered(rs, i);
      assert !Left(c, before, r.lo - 1);
      if u :| t.lo <= u <= v && !Left(c, before, u) {
        if r.lo <= u {
          HasCovered(rs, i, u);
        }
        assert t.lo < r.lo;
      } else {
        assert r.lo <= LOW_HI;
      }
    }
  }

  lemma PlainSome(rs: seq<Interval>, c: Interval, before: seq<Interval>, t: Interval, n: nat)
    requires Holds(rs, c, before, n)
    ensures (exists i :: 0 <= i < |rs| && PlainFails(rs[i], t, n))
            <==> NextAfter(c, before, t, n) || PreviousAfter(c, before, t, n)
  {
    NextSome(rs, c, before, t, n);
    PreviousSome(rs, c, before, t, n);
    if i :| 0 <= i < |rs| && PlainFails(rs[i], t, n) {
      assert NextFails(rs[i], t, n) || PreviousFails(rs[i], t, n);
    }
    if NextAfter(c, before, t, n) {
      var i :| 0 <= i < |rs| && NextFails(rs[i], t, n);
      assert PlainFails(rs[i], t, n);
    }
    if PreviousAfter(c, before, t, n) {
      var i :| 0 <= i < |rs| && PreviousFails(rs[i], t, n);
      assert PlainFails(rs[i], t, n);
    }
  }

  lemma FailsSome(rs: seq<Interval>, c: Interval, before: seq<Interval>, t: Interval, n: nat)
    requires Holds(rs, c, before, n)
    ensures (exists i :: 0 <= i < |rs| && Fails(rs[i], t, n)) <==> FailsAfter(c, before, t, n)
  {
    if Inside(t, n) {
      InsideSome(rs, c, before, t);
      assert forall i :: 0 <= i < |rs| ==> (Fails(rs[i], t, n) <==> Strays(rs[i], t));
    } else if Ending(t, n) {
      EndingSome(rs, c, before, t);
      assert forall i :: 0 <= i < |rs| ==> (Fails(rs[i], t, n) <==> MisplacedEnd(rs[i], t));
    } else {
      PlainSome(rs, c, before, t, n);
      assert forall i :: 0 <= i < |rs| ==> (Fails(rs[i], t, n) <==> PlainFails(rs[i], t, n));
    }
  }

  // ---- The loop over the excepts ----

  lemma BlocksOrdered(es: seq<CidrText>)
    requires forall e :: e in es ==> e.Cidr?
    ensures Ordered(Blocks(es))
  {
  }

  lemma Shorter(cidr: CidrText, excepts: seq<CidrText>, n: nat)
    requires excepts != [] && SameFamily(cidr, excepts, n)
    ensures var m := |excepts| - 1;
            SameFamily(cidr, excepts[..m], n) && Blocks(excepts)[..m] == Blocks(excepts[..m])
            && Blocks(excepts)[m] == Block(excepts[m]) && excepts[m].Cidr? && |excepts[m].addr| == n
  {
    assert excepts[|excepts| - 1] in excepts;
  }

  /** The first range is the CIDR itself, unless one of its ends is IPv4-mapped. */
  lemma FirstRange(cidr: CidrText, n: nat)
    requires SameFamily(cidr, [], n)
    ensures ExactOn(cidr, [], n) <==> MappedFree(Block(cidr), n)
  {
    var rs := RangesWithExcept(cidr, []);
    ReadsBlock(cidr, n);
    OnePiece(rs, RangeOf(cidr), n);
    if n == 16 {
      FirstEnds(cidr);
    }
  }

  lemma FirstEnds(cidr: CidrText)
    requires cidr.Cidr? && |cidr.addr| == 16 && Reads(RangeOf(cidr), Block(cidr), 16)
    ensures Clean(RangeOf(cidr), 16) <==> MappedFree(Block(cidr), 16)
    ensures Clean(RangeOf(cidr), 16) ==> Span(RangeOf(cidr)) == Block(cidr)
  {
    if |RangeOf(cidr).0| == |RangeOf(cidr).1| == 16 {
      MappedBlock(RangeOf(cidr).0);
      MappedBlock(RangeOf(cidr).1);
    }
  }

  /** After an exact prefix the ranges are what is left. */
  lemma LeftAfter(cidr: CidrText, excepts: seq<CidrText>, n: nat)
    requires SameFamily(cidr, excepts, n) && ExactOn(cidr, excepts, n)
    ensures Holds(Spans(RangesWithExcept(cidr, excepts)), Block(cidr), Blocks(excepts), n)
  {
    var c, es, rs := Block(cidr), Blocks(excepts), RangesWithExcept(cidr, excepts);
    BlocksOrdered(excepts);
    DifferenceCanonical(c, es);
    forall v
      ensures Covers(Difference(c, es), v) <==> Left(c, es, v)
    {
      DifferenceCovers(c, es, v);
    }
    forall i | 0 <= i < |rs|
      ensures MappedFree(Spans(rs)[i], n)
    {
      if n == 16 {
        Ends(rs[i]);
      }
    }
  }

  lemma SomeSpan(rs: seq<Range>, t: Interval, n: nat)
    ensures FailsOnSome(rs, t, n) <==> exists i :: 0 <= i < |Spans(rs)| && Fails(Spans(rs)[i], t, n)
  {
    assert forall i :: 0 <= i < |rs| ==> Spans(rs)[i] == Span(rs[i]);
  }

  /** One more except after an exact prefix. */
  lemma LastStep(cidr: CidrText, excepts: seq<CidrText>, n: nat)
    requires excepts != [] && SameFamily(cidr, excepts, n) && ExactOn(cidr, excepts[..|excepts| - 1], n)
    ensures ExactOn(cidr, excepts, n) <==> !FailsAt(Block(cidr), Blocks(excepts), |excepts| - 1, n)
  {
    var m, c, es := |excepts| - 1, Block(cidr), Blocks(excepts);
    var rs := RangesWithExcept(cidr, excepts[..m]);
    Shorter(cidr, excepts, n);
    ReadsBlock(excepts[m], n);
    LeftAfter(cidr, excepts[..m], n);
    StepExact(rs, RangeOf(excepts[m]), es[m], n);
    FailsSome(Spans(rs), c, es[..m], es[m], n);
    SomeSpan(rs, es[m], n);
  }

  /** If no except fails, the call computes the difference of the blocks. */
  lemma {:induction false} NoFailDifference(cidr: CidrText, excepts: seq<CidrText>, n: nat)
    requires SameFamily(cidr, excepts, n) && MappedFree(Block(cidr), n)
    requires !FailsOn(Block(cidr), Blocks(excepts), n)
    ensures ExactOn(cidr, excepts, n)
  {
    if excepts == [] {
      FirstRange(cidr, n);
    } else {
      var m := |excepts| - 1;
      Shorter(cidr, excepts, n);
      NoFailPrefix(Block(cidr), Blocks(excepts), m, n);
      NoFailDifference(cidr, excepts[..m], n);
      assert !FailsAt(Block(cidr), Blocks(excepts), m, n);
      LastStep(cidr, excepts, n);
    }
  }

  lemma FailsAtPrefix(c: Interval, es: seq<Interval>, m: nat, k: nat, n: nat)
    requires k < m <= |es|
    ensures FailsAt(c, es[..m], k, n) <==> FailsAt(c, es, k, n)
  {
    assert es[..m][..k] == es[..k] && es[..m][k] == es[k];
  }

  lemma NoFailPrefix(c: Interval, es: seq<Interval>, m: nat, n: nat)
    requires m <= |es| && !FailsOn(c, es, n)
    ensures !FailsOn(c, es[..m], n)
  {
    forall k | 0 <= k < m
      ensures !FailsAt(c, es[..m], k, n)
    {
      FailsAtPrefix(c, es, m, k, n);
      assert !FailsAt(c, es, k, n);
    }
  }

  /** The ranges returned are exactly the addresses with the CIDR's prefix and no except's
    * prefix, in canonical form: ascending, non-empty, apart, and at most one more than excepts. */
  lemma ExactDifference(cidr: CidrText, excepts: seq<CidrText>, n: nat)
    requires SameFamily(cidr, excepts, n) && MappedFree(Block(cidr), n)
    requires !FailsOn(Block(cidr), Blocks(excepts), n)
    ensures var rs := RangesWithExcept(cidr, excepts);
            && AllClean(rs, n)
            && (forall v: nat :: Covers(Spans(rs), v) <==>
                                 SamePrefix(cidr, v) && forall e :: e in excepts ==> !SamePrefix(e, v))
            && Canonical(Spans(rs)) && |rs| <= 1 + |excepts|
  {
    NoFailDifference(cidr, excepts, n);
    BlocksOrdered(excepts);
    DifferenceCanonical(Block(cidr), Blocks(excepts));
    var rs := RangesWithExcept(cidr, excepts);
    assert |Spans(rs)| == |rs|;
    forall v: nat
      ensures Covers(Spans(rs), v) <==> SamePrefix(cidr, v) && forall e :: e in excepts ==> !SamePrefix(e, v)
    {
      DifferenceCovers(Block(cidr), Blocks(excepts), v);
      BlockIsPrefix(cidr, v);
      InNoneIsPrefix(excepts, v);
    }
  }

  lemma InNoneIsPrefix(es: seq<CidrText>, v: nat)
    requires forall e :: e in es ==> e.Cidr?
    ensures InNone(Blocks(es), v) <==> forall e :: e in es ==> !SamePrefix(e, v)
  {
    forall e | e in es
      ensures Block(e) in Blocks(es) && (Block(e).Has(v) <==> SamePrefix(e, v))
    {
      BlockIsPrefix(e, v);
      var i :| 0 <= i < |es| && es[i] == e;
      assert Blocks(es)[i] == Block(e);
    }
    forall x | x in Blocks(es)
      ensures exists e :: e in es && x == Block(e)
    {
      var i :| 0 <= i < |es| && x == Blocks(es)[i];
      assert es[i] in es;
    }
  }

  /** Membership by prefix bits, section 3.1 of RFC 4632. */
  predicate SamePrefix(c: CidrText, v: nat)
    requires c.Cidr?
  {
    v / Size(c.prefix, |c.addr|) == Val(c.addr) / Size(c.prefix, |c.addr|)
  }

  /** Nothing fails when no except begins or ends with an IPv4-mapped address, ends with an edge of the
    * CIDR, or begins right after the IPv4-mapped block of a CIDR that holds it. */
  lemma NothingFails(cidr: CidrText, excepts: seq<CidrText>, n: nat)
    requires SameFamily(cidr, excepts, n)
    requires forall e :: e in excepts ==> MappedFree(Block(e), n)
    requires forall e :: e in excepts && IsEdge(Block(e).hi, n) ==> !Block(cidr).Has(Block(e).hi)
    requires forall e :: e in excepts && n == 16 && Block(e).lo == MAPPED_HI + 1 ==> !Block(cidr).Has(MAPPED_HI)
    ensures !FailsOn(Block(cidr), Blocks(excepts), n)
  {
    forall k | 0 <= k < |excepts|
      ensures !FailsAt(Block(cidr), Blocks(excepts), k, n)
    {
      assert excepts[k] in excepts && Blocks(excepts)[k] == Block(excepts[k]);
    }
  }

  /** The call is exact, on the given excepts and on every shorter prefix of them, if and only if no end
    * of the CIDR is IPv4-mapped and no except fails. */
  lemma ExactIffNoFail(cidr: CidrText, excepts: seq<CidrText>, n: nat)
    requires SameFamily(cidr, excepts, n)
    ensures (forall m :: 0 <= m <= |excepts| ==> ExactOn(cidr, excepts[..m], n))
            <==> MappedFree(Block(cidr), n) && !FailsOn(Block(cidr), Blocks(excepts), n)
  {
    var c, es := Block(cidr), Blocks(excepts);
    FirstRange(cidr, n);
    assert excepts[..0] == [];
    if MappedFree(c, n) {
      if FailsOn(c, es, n) {
        var k := FirstFail(c, es, n);
        FirstFailInexact(cidr, excepts, k, n);
      } else {
        forall m | 0 <= m <= |excepts|
          ensures ExactOn(cidr, excepts[..m], n)
        {
          assert es[..m] == Blocks(excepts[..m]);
          NoFailPrefix(c, es, m, n);
          NoFailDifference(cidr, excepts[..m], n);
        }
      }
    }
  }

  lemma FirstFailInexact(cidr: CidrText, excepts: seq<CidrText>, k: nat, n: nat)
    requires SameFamily(cidr, excepts, n) && MappedFree(Block(cidr), n) && k < |excepts|
    requires FailsAt(Block(cidr), Blocks(excepts), k, n) && !FailsOn(Block(cidr), Blocks(excepts)[..k], n)
    ensures !ExactOn(cidr, excepts[..k + 1], n)
  {
    var some := excepts[..k + 1];
    BlocksPrefix(excepts, k);
    FailsAtPrefix(Block(cidr), Blocks(excepts), k + 1, k, n);
    NoFailDifference(cidr, some[..k], n);
    LastStep(cidr, some, n);
  }

  lemma BlocksPrefix(es: seq<CidrText>, k: nat)
    requires k < |es| && forall e :: e in es ==> e.Cidr?
    ensures es[..k + 1][..k] == es[..k]
    ensures Blocks(es[..k + 1])[..k] == Blocks(es[..k]) == Blocks(es)[..k]
    ensures Blocks(es[..k + 1]) == Blocks(es)[..k + 1]
  {
  }

  lemma FirstFail(c: Interval, es: seq<Interval>, n: nat) returns (k: nat)
    requires FailsOn(c, es, n)
    ensures k < |es| && FailsAt(c, es, k, n) && !FailsOn(c, es[..k], n)
  {
    k :| 0 <= k < |es| && FailsAt(c, es, k, n);
    if FailsOn(c, es[..k], n) {
      var j := FirstFail(c, es[..k], n);
      assert es[..k][..j] == es[..j];
      FailsAtPrefix(c, es, k, j, n);
      k := j;
    }
  }

  /** Neither the order nor the repetition of the excepts matters. */
  lemma OrderIndependent(cidr: CidrText, a: seq<CidrText>, b: seq<CidrText>, n: nat)
    requires SameFamily(cidr, a, n) && SameFamily(cidr, b, n) && MappedFree(Block(cidr), n)
    requires forall e :: e in a <==> e in b
    requires !FailsOn(Block(cidr), Blocks(a), n) && !FailsOn(Block(cidr), Blocks(b), n)
    ensures RangesWithExcept(cidr, a) == RangesWithExcept(cidr, b)
  {
    var ra, rb := RangesWithExcept(cidr, a), RangesWithExcept(cidr, b);
    NoFailDifference(cidr, a, n);
    NoFailDifference(cidr, b, n);
    SameDifference(Block(cidr), Blocks(a), Blocks(b)) by {
      SameBlocks(a, b);
      SameBlocks(b, a);
    }
    SpansInjective(ra, rb, n);
  }

  lemma SameDifference(c: Interval, a: seq<Interval>, b: seq<Interval>)
    requires c.lo <= c.hi && Ordered(a) && forall e :: e in a <==> e in b
    ensures Difference(c, a) == Difference(c, b)
  {
    DifferenceCanonical(c, a);
    DifferenceCanonical(c, b);
    forall v
      ensures Covers(Difference(c, a), v) <==> Covers(Difference(c, b), v)
    {
      DifferenceCovers(c, a, v);
      DifferenceCovers(c, b, v);
    }
    CanonicalUnique(Difference(c, a), Difference(c, b));
  }

  lemma SpansInjective(a: seq<Range>, b: seq<Range>, n: nat)
    requires AllClean(a, n) && AllClean(b, n) && Spans(a) == Spans(b)
    ensures a == b
  {
    assert |a| == |Spans(a)| == |Spans(b)| == |b|;
    forall i | 0 <= i < |a|
      ensures a[i] == b[i]
    {
      assert Spans(a)[i] == Spans(b)[i];
      ValInjective(a[i].0, b[i].0);
      ValInjective(a[i].1, b[i].1);
    }
  }

  lemma SameBlocks(a: seq<CidrText>, b: seq<CidrText>)
    requires forall e :: e in a || e in b ==> e.Cidr?
    requires forall e :: e in a ==> e in b
    ensures forall x :: x in Blocks(a) ==> x in Blocks(b)
  {
    forall x | x in Blocks(a)
      ensures x in Blocks(b)
    {
      var i :| 0 <= i < |a| && x == Blocks(a)[i];
      assert a[i] in a;
      var j :| 0 <= j < |b| && b[j] == a[i];
      assert Blocks(b)[j] == x;
    }
  }
}
