/** The inputs on which the result is not the difference. */
module IpRangeWraps {
  import opened IpBytes
  import opened Cidr
  import opened Intervals
  import opened IpRanges
  import opened IpRangeSteps
  import opened IpRangeMapped
  import opened IpRangeLists
  import opened IpRangeResults

  // ---- How often an address below 2^32 is listed ----

  function Multiplicity(rs: seq<Interval>, v: int): nat {
    if rs == [] then 0 else (if rs[0].Has(v) then 1 else 0) + Multiplicity(rs[1..], v)
  }

  lemma {:induction false} MultiplicityConcat(a: seq<Interval>, b: seq<Interval>, v: int)
    ensures Multiplicity(a + b, v) == Multiplicity(a, v) + Multiplicity(b, v)
  {
    if a == [] {
      assert a + b == b;
    } else {
      assert (a + b)[1..] == a[1..] + b;
      MultiplicityConcat(a[1..], b, v);
    }
  }

  lemma {:induction false} CanonicalOnce(rs: seq<Interval>, v: int)
    requires Canonical(rs)
    ensures Multiplicity(rs, v) == if Covers(rs, v) then 1 else 0
  {
    if rs != [] {
      CanonicalOnce(rs[1..], v);
      if Covers(rs[1..], v) {
        CanonicalStart(rs[1..], v);
      }
    }
  }

  /** A range by the numbers of its ends, which is how ranges are compared. */
  function Num(r: Range): Interval {
    Interval(BigInt(r.0), BigInt(r.1))
  }

  predicate StandardEnds(r: Range) {
    Standard(r.0) && Standard(r.1)
  }

  predicate AllStandard(rs: seq<Range>) {
    forall i :: 0 <= i < |rs| ==> StandardEnds(rs[i])
  }

  /** The number of ranges that hold v. */
  function Holding(rs: seq<Range>, v: int): nat {
    if rs == [] then 0 else Holding(rs[..|rs| - 1], v) + if Num(rs[|rs| - 1]).Has(v) then 1 else 0
  }

  lemma {:induction false} HoldingConcat(a: seq<Range>, b: seq<Range>, v: int)
    ensures Holding(a + b, v) == Holding(a, v) + Holding(b, v)
  {
    if b == [] {
      assert a + b == a;
    } else {
      assert (a + b)[..|a + b| - 1] == a + b[..|b| - 1];
      HoldingConcat(a, b[..|b| - 1], v);
    }
  }

  lemma HoldingOne(r: Range, v: int)
    ensures Holding([r], v) == if Num(r).Has(v) then 1 else 0
  {
    assert [r][..0] == [];
  }

  // ---- One range ----

  lemma OffsetStandard(ip: Ip, offset: int)
    requires Standard(ip)
    ensures Standard(OffsetIp(ip, offset))
  {
    FixedBytesVal(if BigInt(ip) + offset <= 0 then 0 else BigInt(ip) + offset, |Normalize(ip)|);
  }

  lemma AppendStandard(rs: seq<Range>, lo: Ip, hi: Ip)
    requires AllStandard(rs) && Standard(lo) && Standard(hi)
    ensures AllStandard(RangeAppend(rs, (lo, hi)))
  {
  }

  lemma ConcatStandard(a: seq<Range>, b: seq<Range>)
    requires AllStandard(a) && AllStandard(b)
    ensures AllStandard(a + b)
  {
  }

  lemma PiecesStandard(r: Range, e: Range)
    requires StandardEnds(r) && StandardEnds(e)
    ensures AllStandard(AbstractOne(r, e))
  {
    var rng, prev, next := NormalizeRange(r), OffsetIp(Normalize(e.0), -1), OffsetIp(Normalize(e.1), 1);
    OffsetStandard(Normalize(e.0), -1);
    OffsetStandard(Normalize(e.1), 1);
    AppendStandard([], rng.0, rng.1);
    AppendStandard([], rng.0, prev);
    AppendStandard([], next, rng.1);
    ConcatStandard(RangeAppend([], (rng.0, prev)), RangeAppend([], (next, rng.1)));
  }

  lemma PreviousNumber(ip: Ip, n: nat)
    requires (n == 4 || n == 16) && |ip| == n && !IsMapped(ip) && Val(ip) > 0
    ensures BigInt(OffsetIp(ip, -1)) == Val(ip) - 1 || BigInt(OffsetIp(ip, -1)) == LOW_HI
  {
    PreviousAddress(ip, n);
    if n == 16 {
      MappedBlock(ip);
      MappedBlock(OffsetIp(ip, -1));
      if IsMapped(OffsetIp(ip, -1)) {
        MappedReads(OffsetIp(ip, -1));
      }
    }
  }

  lemma NextNumber(ip: Ip, n: nat)
    requires (n == 4 || n == 16) && |ip| == n && !IsMapped(ip) && Val(ip) < LOW_HI
    ensures BigInt(OffsetIp(ip, 1)) == Val(ip) + 1
  {
    TopAbove(n);
    NextAddress(ip, n);
    if n == 16 {
      MappedBlock(OffsetIp(ip, 1));
    }
  }

  lemma HeadHolds(lo: Ip, ip: Ip, n: nat, v: nat)
    requires (n == 4 || n == 16) && |ip| == n && !IsMapped(ip) && BigInt(lo) <= v < Val(ip) && v <= LOW_HI
    ensures Holding(HeadOf(lo, ip), v) == 1
  {
    var p := (lo, OffsetIp(ip, -1));
    PreviousNumber(ip, n);
    assert HeadOf(lo, ip) == [p];
    HoldingOne(p, v);
  }

  lemma TailHolds(ip: Ip, hi: Ip, n: nat, v: nat)
    requires (n == 4 || n == 16) && |ip| == n && !IsMapped(ip) && Val(ip) < v <= BigInt(hi) && v <= LOW_HI
    ensures Holding(TailOf(ip, hi), v) == 1
  {
    var q := (OffsetIp(ip, 1), hi);
    NextNumber(ip, n);
    assert TailOf(ip, hi) == [q];
    HoldingOne(q, v);
  }

  lemma NormalizeTwice(r: Range)
    requires StandardEnds(r)
    ensures NormalizeRange(NormalizeRange(r)) == NormalizeRange(r) && Num(NormalizeRange(r)) == Num(r)
  {
  }

  /** A range that holds a number below the except keeps it in its head. */
  lemma KeepsBelow(r: Range, e: Range, n: nat, v: nat)
    requires StandardEnds(r) && Clean(e, n) && v <= LOW_HI && v < Val(e.0) && Num(r).Has(v)
    ensures Holding(AbstractOne(r, e), v) >= 1
  {
    var rng := NormalizeRange(r);
    NormalizeTwice(r);
    BelowCases(r, e, n, v);
    HeadHolds(rng.0, e.0, n, v);
    HoldingOne(rng, v);
    HoldingConcat(HeadOf(rng.0, e.0), TailOf(e.1, rng.1), v);
  }

  lemma BelowCases(r: Range, e: Range, n: nat, v: nat)
    requires StandardEnds(r) && Clean(e, n) && v < Val(e.0) && Num(r).Has(v)
    ensures var rng := NormalizeRange(r);
            || AbstractOne(r, e) == [rng] || AbstractOne(r, e) == HeadOf(rng.0, e.0)
            || AbstractOne(r, e) == HeadOf(rng.0, e.0) + TailOf(e.1, rng.1)
  {
    NormalizeTwice(r);
    var first := Position(e.0, NormalizeRange(r));
    assert first != BeforeStart && first != AtStart;
  }

  /** And one that holds a number above the except keeps it in its tail. */
  lemma KeepsAbove(r: Range, e: Range, n: nat, v: nat)
    requires StandardEnds(r) && Clean(e, n) && Val(e.1) < v <= LOW_HI && Num(r).Has(v)
    ensures Holding(AbstractOne(r, e), v) >= 1
  {
    var rng := NormalizeRange(r);
    NormalizeTwice(r);
    AboveCases(r, e, n, v);
    TailHolds(e.1, rng.1, n, v);
    HoldingOne(rng, v);
    HoldingConcat(HeadOf(rng.0, e.0), TailOf(e.1, rng.1), v);
  }

  lemma AboveCases(r: Range, e: Range, n: nat, v: nat)
    requires StandardEnds(r) && Clean(e, n) && Val(e.1) < v && Num(r).Has(v)
    ensures var rng := NormalizeRange(r);
            || AbstractOne(r, e) == [rng] || AbstractOne(r, e) == TailOf(e.1, rng.1)
            || AbstractOne(r, e) == HeadOf(rng.0, e.0) + TailOf(e.1, rng.1)
  {
    AbovePositions(r, e, n, v);
    NormalizeTwice(r);
  }

  lemma AbovePositions(r: Range, e: Range, n: nat, v: nat)
    requires StandardEnds(r) && Clean(e, n) && Val(e.1) < v && Num(r).Has(v)
    ensures var first, last := Position(e.0, NormalizeRange(r)), Position(e.1, NormalizeRange(r));
            && first in {BeforeStart, AtStart, Between} && last in {BeforeStart, AtStart, Between}
            && (last == BeforeStart ==> first == BeforeStart) && (first == Between ==> last == Between)
  {
    NormalizeTwice(r);
    if Val(e.0) == Val(e.1) {
      ValInjective(e.0, e.1);
    }
  }

  /** An address outside the except is never lost. */
  lemma Keeps(r: Range, e: Range, n: nat, v: nat)
    requires StandardEnds(r) && Clean(e, n) && v <= LOW_HI && !Span(e).Has(v)
    ensures Holding(AbstractOne(r, e), v) >= if Num(r).Has(v) then 1 else 0
  {
    if Num(r).Has(v) {
      if v < Val(e.0) {
        KeepsBelow(r, e, n, v);
      } else {
        KeepsAbove(r, e, n, v);
      }
    }
  }

  /** A wrap lists every address below 2^32 outside the except once more. */
  lemma WrapGains(r: Range, e: Range, n: nat, v: nat)
    requires Clean(r, n) && Clean(e, n) && v <= LOW_HI && !Span(e).Has(v) && NextFails(Span(r), Span(e), n)
    ensures Holding(AbstractOne(r, e), v) >= 1 + if Num(r).Has(v) then 1 else 0
  {
    var q := (OffsetIp(e.1, 1), r.1);
    TopAbove(n);
    WrapTail(r, e, n);
    Table(r, e, n);
    HoldingOne(q, v);
    if Val(r.0) < Val(e.0) {
      HoldingConcat(HeadOf(r.0, e.0), [q], v);
      if Num(r).Has(v) {
        HeadHolds(r.0, e.0, n, v);
      }
    }
  }

  lemma WrapTail(r: Range, e: Range, n: nat)
    requires Clean(r, n) && Clean(e, n) && NextFails(Span(r), Span(e), n)
    ensures TailOf(e.1, r.1) == [(OffsetIp(e.1, 1), r.1)] && BigInt(OffsetIp(e.1, 1)) == 0
  {
    TopAbove(n);
    ValBound(r.1);
    if Val(e.1) == Top(n) {
      AfterTop(r.1, e.1, n);
    } else {
      AfterGap(e.1, r.1);
    }
  }

  // ---- All ranges ----

  lemma {:induction false} StepKeeps(rs: seq<Range>, e: Range, n: nat, v: nat)
    requires AllStandard(rs) && Clean(e, n) && v <= LOW_HI && !Span(e).Has(v)
    ensures AllStandard(AbstractAll(rs, e)) && Holding(AbstractAll(rs, e), v) >= Holding(rs, v)
  {
    if rs != [] {
      var m := |rs| - 1;
      StepKeeps(rs[..m], e, n, v);
      Keeps(rs[m], e, n, v);
      PiecesStandard(rs[m], e);
      HoldingConcat(AbstractAll(rs[..m], e), AbstractOne(rs[m], e), v);
    }
  }

  lemma {:induction false} StepGains(rs: seq<Range>, e: Range, n: nat, v: nat, k: nat)
    requires AllStandard(rs) && Clean(e, n) && v <= LOW_HI && !Span(e).Has(v)
    requires k < |rs| && Clean(rs[k], n) && NextFails(Span(rs[k]), Span(e), n)
    ensures Holding(AbstractAll(rs, e), v) > Holding(rs, v)
  {
    var m := |rs| - 1;
    HoldingConcat(AbstractAll(rs[..m], e), AbstractOne(rs[m], e), v);
    if k == m {
      StepKeeps(rs[..m], e, n, v);
      WrapGains(rs[m], e, n, v);
    } else {
      assert rs[..m][k] == rs[k];
      StepGains(rs[..m], e, n, v, k);
      Keeps(rs[m], e, n, v);
    }
  }

  // ---- The whole call ----

  /** No end of an except is IPv4-mapped, and none begins right after an IPv4-mapped block in the CIDR. */
  predicate AllPlain(c: Interval, es: seq<Interval>, n: nat) {
    forall k :: 0 <= k < |es| ==> MappedFree(es[k], n) && (n == 16 && es[k].lo == MAPPED_HI + 1 ==> !c.Has(MAPPED_HI))
  }

  lemma LastClean(cidr: CidrText, excepts: seq<CidrText>, n: nat)
    requires excepts != [] && SameFamily(cidr, excepts, n) && AllPlain(Block(cidr), Blocks(excepts), n)
    ensures var m := |excepts| - 1;
            && SameFamily(cidr, excepts[..m], n) && Blocks(excepts)[..m] == Blocks(excepts[..m])
            && AllPlain(Block(cidr), Blocks(excepts[..m]), n)
            && Clean(RangeOf(excepts[m]), n) && Span(RangeOf(excepts[m])) == Blocks(excepts)[m]
  {
    var m := |excepts| - 1;
    Shorter(cidr, excepts, n);
    ReadsBlock(excepts[m], n);
    assert MappedFree(Blocks(excepts)[m], n);
  }

  lemma {:induction false} FailRepeats(cidr: CidrText, excepts: seq<CidrText>, v: nat, n: nat)
    requires SameFamily(cidr, excepts, n) && MappedFree(Block(cidr), n)
    requires AllPlain(Block(cidr), Blocks(excepts), n) && v <= LOW_HI && InNone(Blocks(excepts), v)
    ensures AllStandard(RangesWithExcept(cidr, excepts))
    ensures Holding(RangesWithExcept(cidr, excepts), v)
            >= (if Block(cidr).Has(v) then 1 else 0) + if FailsOn(Block(cidr), Blocks(excepts), n) then 1 else 0
  {
    if excepts == [] {
      FirstHolding(cidr, v, n);
    } else {
      var m, c, es := |excepts| - 1, Block(cidr), Blocks(excepts);
      var rs, e := RangesWithExcept(cidr, excepts[..m]), RangeOf(excepts[m]);
      LastClean(cidr, excepts, n);
      assert !es[m].Has(v);
      FailRepeats(cidr, excepts[..m], v, n);
      StepKeeps(rs, e, n, v);
      if FailsOn(c, es, n) && !FailsOn(c, es[..m], n) {
        var k := NewFail(cidr, excepts, n);
        StepGains(rs, e, n, v, k);
      }
    }
  }

  lemma FirstHolding(cidr: CidrText, v: nat, n: nat)
    requires SameFamily(cidr, [], n) && MappedFree(Block(cidr), n)
    ensures AllStandard(RangesWithExcept(cidr, []))
    ensures Holding(RangesWithExcept(cidr, []), v) == if Block(cidr).Has(v) then 1 else 0
  {
    FirstRange(cidr, n);
    assert Clean(RangesWithExcept(cidr, [])[0], n);
    OnePiece(RangesWithExcept(cidr, []), RangeOf(cidr), n);
    HoldingOne(RangeOf(cidr), v);
  }

  /** The range on which the last except is the first one to fail. */
  lemma NewFail(cidr: CidrText, excepts: seq<CidrText>, n: nat) returns (k: nat)
    requires excepts != [] && SameFamily(cidr, excepts, n) && MappedFree(Block(cidr), n)
    requires AllPlain(Block(cidr), Blocks(excepts), n) && FailsOn(Block(cidr), Blocks(excepts), n)
    requires !FailsOn(Block(cidr), Blocks(excepts)[..|excepts| - 1], n)
    ensures var rs := RangesWithExcept(cidr, excepts[..|excepts| - 1]);
            k < |rs| && Clean(rs[k], n) && NextFails(Span(rs[k]), Blocks(excepts)[|excepts| - 1], n)
  {
    var m, c, es := |excepts| - 1, Block(cidr), Blocks(excepts);
    BlocksOrdered(excepts);
    LastWraps(c, es, n);
    Shorter(cidr, excepts, n);
    NoFailDifference(cidr, excepts[..m], n);
    LeftAfter(cidr, excepts[..m], n);
    k := WrappingRange(RangesWithExcept(cidr, excepts[..m]), c, es[..m], es[m], n);
  }

  lemma WrappingRange(rs: seq<Range>, c: Interval, before: seq<Interval>, t: Interval, n: nat) returns (k: nat)
    requires AllClean(rs, n) && NextAfter(c, before, t, n) && Holds(Spans(rs), c, before, n)
    ensures k < |rs| && Clean(rs[k], n) && NextFails(Span(rs[k]), t, n)
  {
    NextSome(Spans(rs), c, before, t, n);
    k :| 0 <= k < |Spans(rs)| && NextFails(Spans(rs)[k], t, n);
  }

  lemma LastWraps(c: Interval, es: seq<Interval>, n: nat)
    requires es != [] && FailsOn(c, es, n) && !FailsOn(c, es[..|es| - 1], n) && AllPlain(c, es, n)
    requires Ordered(es)
    ensures NextAfter(c, es[..|es| - 1], es[|es| - 1], n)
  {
    OnlyLastFails(c, es, n);
    assert MappedFree(es[|es| - 1], n);
  }

  lemma OnlyLastFails(c: Interval, es: seq<Interval>, n: nat)
    requires es != [] && FailsOn(c, es, n) && !FailsOn(c, es[..|es| - 1], n)
    ensures FailsAt(c, es, |es| - 1, n)
  {
    var k :| 0 <= k < |es| && FailsAt(c, es, k, n);
    if k < |es| - 1 {
      FailsAtPrefix(c, es, |es| - 1, k, n);
    }
  }

  /** If some address below 2^32 is in no except, the call on plain excepts is exact if and only if no
    * except fails. */
  lemma ExactIffNoWrap(cidr: CidrText, excepts: seq<CidrText>, v: nat, n: nat)
    requires SameFamily(cidr, excepts, n) && MappedFree(Block(cidr), n)
    requires AllPlain(Block(cidr), Blocks(excepts), n) && v <= LOW_HI && InNone(Blocks(excepts), v)
    ensures ExactOn(cidr, excepts, n) <==> !FailsOn(Block(cidr), Blocks(excepts), n)
  {
    if !FailsOn(Block(cidr), Blocks(excepts), n) {
      NoFailDifference(cidr, excepts, n);
    } else if ExactOn(cidr, excepts, n) {
      FailRepeats(cidr, excepts, v, n);
      ExactHolding(cidr, excepts, v, n);
      assert false;
    }
  }

  /** An exact result lists every address at most once. */
  lemma ExactHolding(cidr: CidrText, excepts: seq<CidrText>, v: nat, n: nat)
    requires SameFamily(cidr, excepts, n) && ExactOn(cidr, excepts, n)
    ensures Holding(RangesWithExcept(cidr, excepts), v) <= if Block(cidr).Has(v) then 1 else 0
  {
    var rs := RangesWithExcept(cidr, excepts);
    LeftAfter(cidr, excepts, n);
    assert forall i :: 0 <= i < |rs| ==> Clean(rs[i], n) && Num(rs[i]) == Span(rs[i]);
    SpansHolding(rs, v);
    CanonicalOnce(Spans(rs), v);
  }

  lemma {:induction false} SpansHolding(rs: seq<Range>, v: int)
    requires forall i :: 0 <= i < |rs| ==> Num(rs[i]) == Span(rs[i])
    ensures Holding(rs, v) == Multiplicity(Spans(rs), v)
  {
    if rs != [] {
      var m := |rs| - 1;
      SpansHolding(rs[..m], v);
      LastMultiplicity(rs, v);
    }
  }

  lemma LastMultiplicity(rs: seq<Range>, v: int)
    requires rs != []
    ensures Multiplicity(Spans(rs), v)
            == Multiplicity(Spans(rs[..|rs| - 1]), v) + if Span(rs[|rs| - 1]).Has(v) then 1 else 0
  {
    var last := Span(rs[|rs| - 1]);
    assert Spans(rs) == Spans(rs[..|rs| - 1]) + [last];
    MultiplicityConcat(Spans(rs[..|rs| - 1]), [last], v);
    assert [last][1..] == [];
  }

  // ---- Inputs on which it fails ----

  lemma OneExcept(c: CidrText, e: CidrText)
    requires c.Cidr? && e.Cidr?
    ensures RangesWithExcept(c, [e]) == AbstractOne(RangeOf(c), RangeOf(e))
    ensures Difference(Block(c), Blocks([e])) == Minus(Block(c), Block(e))
  {
    assert [e][..0] == [] && [RangeOf(c)][..0] == [];
    assert AbstractAll([RangeOf(c)], RangeOf(e)) == AbstractAll([], RangeOf(e)) + AbstractOne(RangeOf(c), RangeOf(e));
    assert Blocks([e]) == [Block(e)] && [Block(e)][..0] == [];
    assert MinusAll([Block(c)], Block(e)) == Minus(Block(c), Block(e)) + MinusAll([], Block(e));
  }

  /** The last address minus itself yields the whole address space: 255.255.255.255/32 yields
    * 0.0.0.0-255.255.255.255. */
  lemma LastMinusItself(last: Ip, n: nat)
    requires (n == 4 || n == 16) && |last| == n && Val(last) == Top(n)
    ensures var c := Cidr(last, 8 * n);
            && SameFamily(c, [c], n) && Difference(Block(c), Blocks([c])) == []
            && Spans(RangesWithExcept(c, [c])) == [Interval(0, Top(n))]
  {
    var c: CidrText := Cidr(last, 8 * n);
    EdgeMinusItself(c, n);
    TopWrong(RangeOf(c), RangeOf(c), n);
  }

  /** ::fffe:ffff:ffff/128 minus itself yields a range that starts with an address that reads
    * as 0.0.0.0. */
  lemma GapMinusItself(gap: Ip, n: nat)
    requires n == 16 && |gap| == n && Val(gap) == MAPPED_LO - 1
    ensures var c := Cidr(gap, 8 * n);
            && SameFamily(c, [c], n) && Difference(Block(c), Blocks([c])) == []
            && |RangesWithExcept(c, [c])| == 1
            && IsMapped(RangesWithExcept(c, [c])[0].0) && BigInt(RangesWithExcept(c, [c])[0].0) == 0
  {
    var c: CidrText := Cidr(gap, 8 * n);
    EdgeMinusItself(c, n);
    TopAbove(n);
    AfterGap(RangeOf(c).1, RangeOf(c).1);
  }

  predicate IsEdgeCidr(c: CidrText, n: nat) {
    (n == 4 || n == 16) && c.Cidr? && c.prefix == 8 * n && |c.addr| == n && IsEdge(Val(c.addr), n)
  }

  lemma EdgeMinusItself(c: CidrText, n: nat)
    requires IsEdgeCidr(c, n)
    ensures SameFamily(c, [c], n)
    ensures Difference(Block(c), Blocks([c])) == []
    ensures Clean(RangeOf(c), n) && Span(RangeOf(c)) == Interval(Val(c.addr), Val(c.addr))
    ensures RangesWithExcept(c, [c]) == Cut(RangeOf(c), RangeOf(c))
  {
    TopAbove(n);
    OneAddressBlock(c);
    ReadsBlock(c, n);
    OneExcept(c, c);
    Table(RangeOf(c), RangeOf(c), n);
  }

  lemma OneAddressBlock(c: CidrText)
    requires c.Cidr? && c.prefix == 8 * |c.addr|
    ensures Block(c) == Interval(Val(c.addr), Val(c.addr))
  {
    assert Size(c.prefix, |c.addr|) == 1;
    DivModUnique(Val(c.addr), 1, Val(c.addr), 0);
  }

  lemma WholeSpace(c: CidrText, n: nat)
    requires c.Cidr? && |c.addr| == n && c.prefix == 0 && Val(c.addr) == 0
    ensures Block(c) == Interval(0, Top(n))
  {
    BlockAligned(c);
    DivModUnique(0, Pow2(8 * n), 0, 0);
  }

  /** The block of an address that is a multiple of its size. */
  lemma AlignedAt(c: CidrText, k: nat, size: nat, q: nat)
    requires c.Cidr? && c.prefix + k == 8 * |c.addr| && Val(c.addr) == q * size
    requires (k == 32 && size == 0x1_0000_0000) || (k == 48 && size == 0x1_0000_0000_0000)
    ensures Block(c) == Interval(Val(c.addr), Val(c.addr) + size - 1)
  {
    Pow2Of49();
    assert Size(c.prefix, |c.addr|) == Pow2(k) == size;
    DivModUnique(Val(c.addr), size, q, 0);
  }

  /** ::1:0:0/96 minus ::/80, which holds it, comes back whole: the except's last address
    * ::ffff:ffff:ffff reads as 255.255.255.255 and so lies before the CIDR. */
  lemma ExceptEndingMapped(c: CidrText, e: CidrText)
    requires c.Cidr? && e.Cidr? && |c.addr| == |e.addr| == 16 && c.prefix == 96 && Val(c.addr) == 0x1_0000_0000
    requires e.prefix == 80 && Val(e.addr) == 0
    ensures Difference(Block(c), Blocks([e])) == [] && RangesWithExcept(c, [e]) == [RangeOf(c)]
  {
    AlignedAt(c, 32, 0x1_0000_0000, 1);
    AlignedAt(e, 48, 0x1_0000_0000_0000, 0);
    OneExcept(c, e);
    Passed(c, e);
  }

  lemma Passed(c: CidrText, e: CidrText)
    requires c.Cidr? && e.Cidr? && |c.addr| == |e.addr| == 16 && Block(e) == Interval(0, MAPPED_HI)
    requires LOW_HI < Block(c).lo && Block(c).hi < MAPPED_LO
    ensures AbstractOne(RangeOf(c), RangeOf(e)) == [RangeOf(c)]
  {
    ReadsBlock(c, 16);
    ReadsBlock(e, 16);
    MappedEndTable(RangeOf(c), RangeOf(e));
  }

  /** ::/96 minus the IPv4-mapped address of k, which is not in it, loses the address k. */
  lemma ExceptInsideMapped(c: CidrText, e: CidrText, k: nat)
    requires c.Cidr? && e.Cidr? && |c.addr| == |e.addr| == 16 && c.prefix == 96 && Val(c.addr) == 0
    requires e.prefix == 128 && Val(e.addr) == MAPPED_LO + k && 0 < k < LOW_HI
    ensures Difference(Block(c), Blocks([e])) == [Interval(0, LOW_HI)]
    ensures Spans(RangesWithExcept(c, [e])) == [Interval(0, k - 1), Interval(k + 1, LOW_HI)]
  {
    AlignedAt(c, 32, 0x1_0000_0000, 0);
    OneAddressBlock(e);
    OneExcept(c, e);
    CutOut(c, e, k);
  }

  lemma CutOut(c: CidrText, e: CidrText, k: nat)
    requires c.Cidr? && e.Cidr? && |c.addr| == |e.addr| == 16 && Block(c) == Interval(0, LOW_HI)
    requires Block(e) == Interval(MAPPED_LO + k, MAPPED_LO + k) && 0 < k < LOW_HI
    ensures Spans(AbstractOne(RangeOf(c), RangeOf(e))) == [Interval(0, k - 1), Interval(k + 1, LOW_HI)]
  {
    ReadsBlock(c, 16);
    ReadsBlock(e, 16);
    CutLow(RangeOf(c), RangeOf(e), k);
  }

  lemma CutLow(r: Range, e: Range, k: nat)
    requires Clean(r, 16) && Span(r) == Interval(0, LOW_HI)
    requires |e.0| == 4 && e.1 == e.0 && Val(e.0) == k && 0 < k < LOW_HI
    ensures Spans(AbstractOne(r, e)) == [Interval(0, k - 1), Interval(k + 1, LOW_HI)]
  {
    assert e == (e.0, e.0);
    SplitAt(r, e.0);
  }

  /** ::/0 minus ::1:0:0:0/80, the block after the IPv4-mapped one, leaves a range whose end reads as
    * 255.255.255.255. */
  lemma ExceptAfterMapped(c: CidrText, e: CidrText, n: nat)
    requires n == 16 && c.Cidr? && e.Cidr? && |c.addr| == |e.addr| == n && c.prefix == 0 && Val(c.addr) == 0
    requires e.prefix == 80 && Val(e.addr) == 0x1_0000_0000_0000
    ensures Block(c) == Interval(0, Top(n))
    ensures |RangesWithExcept(c, [e])| > 0 && IsMapped(RangesWithExcept(c, [e])[0].1)
            && BigInt(RangesWithExcept(c, [e])[0].1) == LOW_HI
  {
    WholeSpace(c, n);
    AlignedAt(e, 48, 0x1_0000_0000_0000, 1);
    OneExcept(c, e);
    TopAbove(n);
    EndsLow(c, e, n);
  }

  lemma EndsLow(c: CidrText, e: CidrText, n: nat)
    requires n == 16 && c.Cidr? && e.Cidr? && |c.addr| == |e.addr| == n && Block(c) == Interval(0, Top(n))
             && MAPPED_HI < Top(n)
    requires Block(e).lo == MAPPED_HI + 1
    ensures var ps := AbstractOne(RangeOf(c), RangeOf(e));
            |ps| > 0 && IsMapped(ps[0].1) && BigInt(ps[0].1) == LOW_HI
  {
    ReadsBlock(c, n);
    ReadsBlock(e, n);
    BeforeBlock(RangeOf(e).0);
    Table(RangeOf(c), RangeOf(e), n);
    ValBound(RangeOf(e).0);
  }

  lemma SplitAt(r: Range, x: Ip)
    requires Clean(r, 16) && |x| == 4 && Val(r.0) < Val(x) < Val(r.1) == LOW_HI
    ensures Spans(AbstractOne(r, (x, x))) == [Interval(Val(r.0), Val(x) - 1), Interval(Val(x) + 1, LOW_HI)]
  {
    var p, q := (r.0, OffsetIp(x, -1)), (OffsetIp(x, 1), r.1);
    LowNext(x);
    LowPrevious(x);
    SplitPieces(r, x);
    assert Spans([p] + [q]) == [Span(p), Span(q)];
  }

  lemma SplitPieces(r: Range, x: Ip)
    requires Clean(r, 16) && |x| == 4 && Val(r.0) < Val(x) < Val(r.1) == LOW_HI
    ensures AbstractOne(r, (x, x)) == [(r.0, OffsetIp(x, -1))] + [(OffsetIp(x, 1), r.1)]
  {
    InsideTable(r, x);
    LowNext(x);
    LowPrevious(x);
  }
}
