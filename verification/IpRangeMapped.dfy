/** One except that meets the IPv4-mapped block (section 2.5.5.2 of RFC 4291): its end, or all of it,
  * reads as IPv4, and is compared as a number below 2^32. */
module IpRangeMapped {
  import opened IpBytes
  import opened Intervals
  import opened IpRanges
  import opened IpRangeSteps

  const LOW_HI := 0xffff_ffff

  /** A range of IPv6 addresses that begins below the IPv4-mapped block and ends with it. */
  predicate EndsMapped(e: Range) {
    |e.0| == |e.1| == 16 && Val(e.0) < MAPPED_LO && Val(e.1) == MAPPED_HI
  }

  /** A plain range that meets the IPv4-mapped block holds it, and an address on either side. */
  predicate HoldsMapped(r: Interval) {
    r.lo < MAPPED_LO && MAPPED_HI < r.hi
  }

  /** The except ends with the IPv4-mapped block, and the range meets the except and reaches over
    * 255.255.255.255: all such ranges are handled wrong, but those below the block that begin with the
    * except, or are cut by it, above that number. */
  predicate MisplacedEnd(r: Interval, t: Interval) {
    && r.lo <= t.hi && t.lo <= r.hi && LOW_HI < r.hi
    && (HoldsMapped(r) || if r.lo < t.lo then r.lo <= LOW_HI && t.lo < r.hi else r.lo != t.lo || r.lo <= LOW_HI)
  }

  /** The except lies in the IPv4-mapped block, and the range holds the block, or holds the except's
    * IPv4 number, not at its end. */
  predicate Strays(r: Interval, t: Interval) {
    HoldsMapped(r) || r.lo <= t.lo - MAPPED_LO < r.hi
  }

  /** The ends of a plain range are not in the block. */
  lemma Ends(r: Range)
    requires Clean(r, 16)
    ensures Val(r.0) < MAPPED_LO || MAPPED_HI < Val(r.0)
    ensures Val(r.1) < MAPPED_LO || MAPPED_HI < Val(r.1)
  {
    MappedBlock(r.0);
    MappedBlock(r.1);
  }

  /** An IPv4 address among IPv6 ones is compared by its number, and equals none of them. */
  lemma PositionLow(ip: Ip, r: Range)
    requires Clean(r, 16) && |ip| == 4
    ensures Position(ip, r) ==
            if Val(ip) < Val(r.0) then BeforeStart else if Val(ip) < Val(r.1) then Between else AfterEnd
  {
  }

  lemma LowReading(ip: Ip)
    requires |ip| == 16 && Val(ip) == MAPPED_HI
    ensures |Normalize(ip)| == 4 && Val(Normalize(ip)) == LOW_HI
  {
    MappedBlock(ip);
    MappedReads(ip);
  }

  /** The successor of an IPv4 address, 0.0.0.0 after the last one. */
  lemma LowNext(ip: Ip)
    requires |ip| == 4
    ensures Val(ip) <= LOW_HI
    ensures |OffsetIp(ip, 1)| == 4 && Val(OffsetIp(ip, 1)) == if Val(ip) == LOW_HI then 0 else Val(ip) + 1
  {
    ValBound(ip);
    Pow2Of49();
    NextAddress(ip, 4);
  }

  lemma LowPrevious(ip: Ip)
    requires |ip| == 4
    ensures |OffsetIp(ip, -1)| == 4 && Val(OffsetIp(ip, -1)) == if Val(ip) == 0 then 0 else Val(ip) - 1
  {
    if Val(ip) == 0 {
      FixedBytesVal(0, 4);
    } else {
      PreviousAddress(ip, 4);
    }
  }

  // ---- An except that ends with the block ----

  /** What the case table makes of such an except, whose end has the reading low. */
  function MappedEndCut(r: Range, e: Range, low: Ip): seq<Range> {
    if Val(r.1) < Val(e.0) then [r]
    else if Val(r.0) < Val(e.0) then
      HeadOf(r.0, e.0) + if Val(r.0) <= LOW_HI < Val(r.1) && Val(e.0) != Val(r.1) then TailOf(low, r.1) else []
    else if LOW_HI < Val(r.0) then (if Val(e.0) == Val(r.0) then [] else [r])
    else if LOW_HI < Val(r.1) then TailOf(low, r.1)
    else []
  }

  lemma MappedEndTable(r: Range, e: Range)
    requires Clean(r, 16) && EndsMapped(e)
    ensures AbstractOne(r, e) == MappedEndCut(r, e, Normalize(e.1))
  {
    MappedBlock(e.0);
    LowReading(e.1);
    PositionValue(e.0, r, 16);
    PositionLow(Normalize(e.1), r);
    CleanAppend(r, 16);
  }

  lemma LowTail(low: Ip, hi: Ip)
    requires |low| == 4 && Val(low) == LOW_HI
    ensures TailOf(low, hi) == [(OffsetIp(low, 1), hi)] && !Clean((OffsetIp(low, 1), hi), 16)
  {
    LowNext(low);
  }

  lemma MappedEndRight(r: Range, e: Range, low: Ip)
    requires Clean(r, 16) && EndsMapped(e) && !MisplacedEnd(Span(r), Span(e))
    ensures Right(MappedEndCut(r, e, low), Span(r), Span(e), 16)
  {
    Ends(r);
    if Val(r.1) < Val(e.0) || MAPPED_HI < Val(r.0) {
      RightPiece(MappedEndCut(r, e, low), r, Span(r), Span(e), 16);
    } else if Val(r.0) < Val(e.0) {
      MappedEndHead(r, e, low);
    } else {
      NoPiece(MappedEndCut(r, e, low), Span(r), Span(e), 16);
    }
  }

  lemma MappedEndHead(r: Range, e: Range, low: Ip)
    requires Clean(r, 16) && EndsMapped(e) && Val(r.0) < Val(e.0) <= Val(r.1) < MAPPED_LO
    requires !(Val(r.0) <= LOW_HI < Val(r.1) && Val(e.0) != Val(r.1))
    ensures Right(MappedEndCut(r, e, low), Span(r), Span(e), 16)
  {
    MappedBlock(e.0);
    HeadPiece(r.0, e.0, 16);
    var p := (r.0, OffsetIp(e.0, -1));
    assert MappedEndCut(r, e, low) == [p] + [] == [p];
    RightPiece(MappedEndCut(r, e, low), p, Span(r), Span(e), 16);
  }

  lemma MappedEndWrong(r: Range, e: Range, low: Ip)
    requires Clean(r, 16) && EndsMapped(e) && MisplacedEnd(Span(r), Span(e)) && |low| == 4 && Val(low) == LOW_HI
    ensures Wrong(MappedEndCut(r, e, low), Span(r), Span(e), 16)
  {
    var ps := MappedEndCut(r, e, low);
    Ends(r);
    if Val(r.0) <= LOW_HI {
      LowTail(low, r.1);
      UncleanPiece(ps, |ps| - 1, Span(r), Span(e), 16);
    } else if Val(r.0) < Val(e.0) {
      MappedBlock(e.0);
      HeadPiece(r.0, e.0, 16);
      LostPart(ps, (r.0, OffsetIp(e.0, -1)), Span(r), Span(e), 16);
    } else if Val(r.0) == Val(e.0) {
      LostAll(ps, Span(r), Span(e), Val(r.1), 16);
    } else {
      SpuriousPiece(ps, r, Span(r), Span(e), Val(r.0), 16);
    }
  }

  /** One such except against one plain range. */
  lemma MappedEndStep(r: Range, e: Range)
    requires Clean(r, 16) && EndsMapped(e)
    ensures Right(AbstractOne(r, e), Span(r), Span(e), 16) <==> !MisplacedEnd(Span(r), Span(e))
    ensures Wrong(AbstractOne(r, e), Span(r), Span(e), 16) <==> MisplacedEnd(Span(r), Span(e))
  {
    MappedEndTable(r, e);
    RightNotWrong(MappedEndCut(r, e, Normalize(e.1)), Span(r), Span(e), 16);
    LowReading(e.1);
    if MisplacedEnd(Span(r), Span(e)) {
      MappedEndWrong(r, e, Normalize(e.1));
    } else {
      MappedEndRight(r, e, Normalize(e.1));
    }
  }

  // ---- An except inside the block ----

  /** Such an except reads as one IPv4 address x. */
  lemma InsideTable(r: Range, x: Ip)
    requires Clean(r, 16) && |x| == 4
    ensures AbstractOne(r, (x, x)) ==
            if Val(r.0) <= Val(x) < Val(r.1) then HeadOf(r.0, x) + TailOf(x, r.1) else [r]
  {
    PositionLow(x, r);
    CleanAppend(r, 16);
  }

  /** One such except against one plain range. */
  lemma InsideStep(r: Range, x: Ip, t: Interval)
    requires Clean(r, 16) && |x| == 4 && MAPPED_LO <= t.lo <= t.hi <= MAPPED_HI && Val(x) == t.lo - MAPPED_LO
    ensures Right(AbstractOne(r, (x, x)), Span(r), t, 16) <==> !Strays(Span(r), t)
    ensures Wrong(AbstractOne(r, (x, x)), Span(r), t, 16) <==> Strays(Span(r), t)
  {
    var ps := AbstractOne(r, (x, x));
    RightNotWrong(ps, Span(r), t, 16);
    Ends(r);
    InsideTable(r, x);
    if Val(r.0) <= Val(x) < Val(r.1) {
      AroundWrong(ps, r, x, t);
    } else if HoldsMapped(Span(r)) {
      SpuriousPiece(ps, r, Span(r), t, t.lo, 16);
    } else {
      RightPiece(ps, r, Span(r), t, 16);
    }
  }

  lemma AroundWrong(ps: seq<Range>, r: Range, x: Ip, t: Interval)
    requires Clean(r, 16) && |x| == 4 && Val(x) < Val(r.1) && ps == HeadOf(r.0, x) + TailOf(x, r.1)
    ensures Wrong(ps, Span(r), t, 16)
  {
    LowNext(x);
    assert TailOf(x, r.1) == [(OffsetIp(x, 1), r.1)];
    UncleanPiece(ps, |ps| - 1, Span(r), t, 16);
  }
}
