/** The whole call for IPv4, on all excepts. A wrap puts the whole address space at the end of the list,
  * and what the later excepts leave of it is what the call returns too much. */
module IpRangeIpv4 {
  import opened IpBytes
  import opened Cidr
  import opened Intervals
  import opened IpRanges
  import opened IpRangeSteps
  import opened IpRangeLists
  import opened IpRangeResults

  const LAST := Top(4)
  const WHOLE := Interval(0, LAST)

  // ---- The call on intervals ----

  function StepOne(r: Interval, t: Interval): seq<Interval> {
    if r.lo == LAST && t.hi == LAST then [WHOLE] else Minus(r, t)
  }

  function StepAll(rs: seq<Interval>, t: Interval): seq<Interval> {
    if rs == [] then [] else StepOne(rs[0], t) + StepAll(rs[1..], t)
  }

  function Process(rs: seq<Interval>, es: seq<Interval>): seq<Interval> {
    if es == [] then rs else StepAll(Process(rs, es[..|es| - 1]), es[|es| - 1])
  }

  lemma {:induction false} StepAllConcat(a: seq<Interval>, b: seq<Interval>, t: Interval)
    ensures StepAll(a + b, t) == StepAll(a, t) + StepAll(b, t)
  {
    if a == [] {
      assert a + b == b;
    } else {
      assert (a + b)[1..] == a[1..] + b;
      StepAllConcat(a[1..], b, t);
    }
  }

  lemma StepAllLast(rs: seq<Interval>, last: Interval, t: Interval)
    ensures StepAll(rs + [last], t) == StepAll(rs, t) + StepOne(last, t)
  {
    StepAllConcat(rs, [last], t);
    assert StepAll([last], t) == StepOne(last, t) + StepAll([], t);
  }

  lemma SpansLast(rs: seq<Range>)
    requires rs != []
    ensures Spans(rs) == Spans(rs[..|rs| - 1]) + [Span(rs[|rs| - 1])]
  {
  }

  lemma OneSpan(r: Range, e: Range)
    requires Clean(r, 4) && Clean(e, 4)
    ensures AllClean(AbstractOne(r, e), 4) && Spans(AbstractOne(r, e)) == StepOne(Span(r), Span(e))
  {
    Table(r, e, 4);
    ValBound(r.1);
    if Val(r.0) == LAST && Val(e.1) == LAST {
      TopWrong(r, e, 4);
      AfterTop(r.1, e.1, 4);
      OnePiece(Cut(r, e), Cut(r, e)[0], 4);
    } else {
      Pieces(r, e, 4);
    }
  }

  lemma {:induction false} AllSpans(rs: seq<Range>, e: Range)
    requires AllClean(rs, 4) && Clean(e, 4)
    ensures AllClean(AbstractAll(rs, e), 4) && Spans(AbstractAll(rs, e)) == StepAll(Spans(rs), Span(e))
  {
    if rs != [] {
      var m := |rs| - 1;
      AllSpans(rs[..m], e);
      OneSpan(rs[m], e);
      SpansLast(rs);
      StepAllLast(Spans(rs[..m]), Span(rs[m]), Span(e));
      SpansConcat(AbstractAll(rs[..m], e), AbstractOne(rs[m], e), 4);
    }
  }

  /** The call computes these intervals, and all ends are IPv4 addresses. */
  lemma {:induction false} ProcessSpans(cidr: CidrText, excepts: seq<CidrText>)
    requires SameFamily(cidr, excepts, 4)
    ensures var rs := RangesWithExcept(cidr, excepts);
            AllClean(rs, 4) && Spans(rs) == Process([Block(cidr)], Blocks(excepts))
  {
    if excepts == [] {
      FirstRange(cidr, 4);
    } else {
      var m := |excepts| - 1;
      Shorter(cidr, excepts, 4);
      ProcessSpans(cidr, excepts[..m]);
      ReadsBlock(excepts[m], 4);
      AllSpans(RangesWithExcept(cidr, excepts[..m]), RangeOf(excepts[m]));
    }
  }

  lemma {:induction false} ProcessConcat(a: seq<Interval>, b: seq<Interval>, es: seq<Interval>)
    ensures Process(a + b, es) == Process(a, es) + Process(b, es)
  {
    if es != [] {
      var m := |es| - 1;
      ProcessConcat(a, b, es[..m]);
      StepAllConcat(Process(a, es[..m]), Process(b, es[..m]), es[m]);
    }
  }

  lemma {:induction false} ProcessSplit(rs: seq<Interval>, a: seq<Interval>, b: seq<Interval>)
    ensures Process(rs, a + b) == Process(Process(rs, a), b)
  {
    if b == [] {
      assert a + b == a;
    } else {
      var m := |b| - 1;
      assert (a + b)[..|a + b| - 1] == a + b[..m];
      ProcessSplit(rs, a, b[..m]);
    }
  }

  // ---- Without a wrap ----

  predicate StartsLast(rs: seq<Interval>) {
    exists i :: 0 <= i < |rs| && rs[i].lo == LAST
  }

  lemma {:induction false} StepIsMinus(rs: seq<Interval>, t: Interval)
    requires t.hi == LAST ==> !StartsLast(rs)
    ensures StepAll(rs, t) == MinusAll(rs, t)
  {
    if rs != [] {
      assert rs[0] == rs[0] && forall i :: 0 <= i < |rs| - 1 ==> rs[1..][i] == rs[i + 1];
      StepIsMinus(rs[1..], t);
    }
  }

  /** The blocks of a call: ordered, and within the address space. */
  predicate Within(c: Interval) {
    0 <= c.lo <= c.hi <= LAST
  }

  predicate AllWithin(es: seq<Interval>) {
    forall i :: 0 <= i < |es| ==> Within(es[i])
  }

  lemma WithinOrdered(es: seq<Interval>)
    requires AllWithin(es)
    ensures Ordered(es)
  {
  }

  /** Before an except the difference starts a range with the last address only if the except fails, or does not
    * reach that address. */
  lemma NoStart(c: Interval, es: seq<Interval>, t: Interval)
    requires Within(c) && AllWithin(es) && t.hi == LAST && !FailsAfter(c, es, t, 4)
    ensures !StartsLast(Difference(c, es))
  {
    var rs := Difference(c, es);
    WithinOrdered(es);
    DifferenceCanonical(c, es);
    if i :| 0 <= i < |rs| && rs[i].lo == LAST {
      RangeOrdered(rs, i);
      HasCovered(rs, i, LAST);
      StartNotCovered(rs, i);
      DifferenceCovers(c, es, LAST);
      DifferenceCovers(c, es, LAST - 1);
    }
  }

  lemma {:induction false} NoWrapProcess(c: Interval, es: seq<Interval>)
    requires Within(c) && AllWithin(es) && !FailsOn(c, es, 4)
    ensures Process([c], es) == Difference(c, es)
  {
    if es != [] {
      var m := |es| - 1;
      NoFailPrefix(c, es, m, 4);
      NoWrapProcess(c, es[..m]);
      assert !FailsAt(c, es, m, 4);
      if es[m].hi == LAST {
        NoStart(c, es[..m], es[m]);
      }
      StepIsMinus(Difference(c, es[..m]), es[m]);
    }
  }

  // ---- One wrap ----

  lemma OneFail(c: Interval, es: seq<Interval>, k: nat)
    requires Within(c) && AllWithin(es) && k < |es| && FailsAt(c, es, k, 4)
    ensures es[k].hi == LAST && Left(c, es[..k], LAST) && !Left(c, es[..k], LAST - 1)
    ensures !FailsOn(c, es[..k], 4)
  {
    assert !Left(c, es[..k], LAST + 1);
    forall j | 0 <= j < k
      ensures !FailsAt(c, es[..k], j, 4)
    {
      assert es[..k][j] == es[j] && es[j] in es[..k];
    }
  }

  /** The range that holds the last address is the last range, and is that address. */
  lemma LastRangeAt(rs: seq<Interval>, i: nat)
    requires Canonical(rs) && i < |rs| && rs[i].Has(LAST) && !Covers(rs, LAST - 1)
    requires forall v :: Covers(rs, v) ==> v <= LAST
    ensures i == |rs| - 1 && rs[i] == Interval(LAST, LAST)
  {
    if rs[i].lo < LAST {
      HasCovered(rs, i, LAST - 1);
    }
    HasCovered(rs, i, rs[i].hi);
    var n := |rs| - 1;
    if i < n {
      Separate(rs, i, n);
      HasCovered(rs, n, rs[n].lo);
    }
  }

  lemma LastRange(c: Interval, es: seq<Interval>)
    requires Within(c) && AllWithin(es) && Left(c, es, LAST) && !Left(c, es, LAST - 1)
    ensures var rs := Difference(c, es);
            rs != [] && rs[|rs| - 1] == Interval(LAST, LAST) && !StartsLast(rs[..|rs| - 1])
  {
    var rs := Difference(c, es);
    WithinOrdered(es);
    DifferenceCanonical(c, es);
    forall v
      ensures Covers(rs, v) <==> Left(c, es, v)
    {
      DifferenceCovers(c, es, v);
    }
    var i := CoveredBy(rs, LAST);
    LastRangeAt(rs, i);
    if j :| 0 <= j < i && rs[..i][j].lo == LAST {
      Separate(rs, j, i);
      RangeOrdered(rs, j);
    }
  }

  lemma LastMinus(pre: seq<Interval>, t: Interval)
    requires t.lo <= t.hi == LAST
    ensures MinusAll(pre + [Interval(LAST, LAST)], t) == MinusAll(pre, t)
  {
    var last := Interval(LAST, LAST);
    MinusAllConcat(pre, [last], t);
    assert MinusAll([last], t) == Minus(last, t) + MinusAll([], t) == [];
  }

  lemma LastGoes(rs: seq<Interval>, t: Interval)
    requires rs != [] && rs[|rs| - 1] == Interval(LAST, LAST) && !StartsLast(rs[..|rs| - 1])
    requires t.lo <= t.hi == LAST
    ensures StepAll(rs, t) == MinusAll(rs, t) + [WHOLE]
  {
    var pre, last := rs[..|rs| - 1], Interval(LAST, LAST);
    assert rs == pre + [last];
    StepAllLast(pre, last, t);
    StepIsMinus(pre, t);
    LastMinus(pre, t);
  }

  /** The failing except adds the whole space. */
  lemma WrapStep(c: Interval, es: seq<Interval>, k: nat)
    requires Within(c) && AllWithin(es) && k < |es| && FailsAt(c, es, k, 4)
    ensures Process([c], es[..k + 1]) == Difference(c, es[..k + 1]) + [WHOLE]
  {
    assert es[..k + 1] == es[..k] + [es[k]] && (es[..k] + [es[k]])[..k] == es[..k];
    OneFail(c, es, k);
    NoWrapProcess(c, es[..k]);
    LastRange(c, es[..k]);
    assert Within(es[k]);
    LastGoes(Difference(c, es[..k]), es[k]);
    DifferenceNext(c, es[..k], es[k]);
  }

  lemma NotLeft(c: Interval, a: seq<Interval>, b: seq<Interval>, v: int)
    requires !InNone(a, v)
    ensures !Left(c, a + b, v)
  {
    var e :| e in a && e.Has(v);
    assert e in a + b;
  }

  lemma NoLaterStart(c: Interval, es: seq<Interval>)
    requires Within(c) && AllWithin(es) && !Left(c, es, LAST)
    ensures !StartsLast(Difference(c, es))
  {
    var rs := Difference(c, es);
    WithinOrdered(es);
    DifferenceCanonical(c, es);
    DifferenceCovers(c, es, LAST);
    if i :| 0 <= i < |rs| && rs[i].lo == LAST {
      RangeOrdered(rs, i);
      HasCovered(rs, i, LAST);
    }
  }

  lemma DifferenceNext(c: Interval, es: seq<Interval>, t: Interval)
    ensures Difference(c, es + [t]) == MinusAll(Difference(c, es), t)
  {
    assert (es + [t])[..|es|] == es;
  }

  lemma PlainNext(c: Interval, es: seq<Interval>, t: Interval)
    requires Within(c) && AllWithin(es) && !Left(c, es, LAST)
    ensures StepAll(Difference(c, es), t) == Difference(c, es + [t])
  {
    NoLaterStart(c, es);
    StepIsMinus(Difference(c, es), t);
    DifferenceNext(c, es, t);
  }

  lemma Snoc(a: seq<Interval>, b: seq<Interval>)
    requires b != []
    ensures a + b == (a + b[..|b| - 1]) + [b[|b| - 1]]
  {
  }

  lemma NextAfterWrap(c: Interval, before: seq<Interval>, rest: seq<Interval>)
    requires Within(c) && AllWithin(before) && AllWithin(rest) && !InNone(before, LAST) && rest != []
    ensures var m := |rest| - 1;
            StepAll(Difference(c, before + rest[..m]), rest[m]) == Difference(c, before + rest)
  {
    var m := |rest| - 1;
    NotLeft(c, before, rest[..m], LAST);
    PlainNext(c, before + rest[..m], rest[m]);
    Snoc(before, rest);
  }

  /** After it nothing fails any more. */
  lemma {:induction false} AfterWrap(c: Interval, before: seq<Interval>, rest: seq<Interval>)
    requires Within(c) && AllWithin(before) && AllWithin(rest) && !InNone(before, LAST)
    ensures Process(Difference(c, before), rest) == Difference(c, before + rest)
  {
    if rest == [] {
      assert before + rest == before;
    } else {
      AfterWrap(c, before, rest[..|rest| - 1]);
      NextAfterWrap(c, before, rest);
    }
  }

  /** If the k-th except fails, the call returns the difference, and behind it what the later excepts leave of the
    * whole address space. */
  lemma WrapAddsWhole(c: Interval, es: seq<Interval>, k: nat)
    requires Within(c) && AllWithin(es) && k < |es| && FailsAt(c, es, k, 4)
    ensures Process([c], es) == Difference(c, es) + Process([WHOLE], es[k + 1..])
  {
    var first, rest := es[..k + 1], es[k + 1..];
    assert es == first + rest && first[k] == es[k] && es[k] in first;
    OneFail(c, es, k);
    ProcessSplit([c], first, rest);
    WrapStep(c, es, k);
    ProcessConcat(Difference(c, first), [WHOLE], rest);
    AfterWrap(c, first, rest);
  }

  // ---- When nothing remains of it ----

  ghost predicate CoverAll(es: seq<Interval>) {
    forall v :: 0 <= v <= LAST ==> !InNone(es, v)
  }

  /** The excepts cover all addresses, and when the last address is taken after its predecessor, so do those
    * after. */
  ghost predicate Vanishes(es: seq<Interval>)
    decreases |es|
  {
    CoverAll(es) && forall k :: 0 <= k < |es| && FailsAt(WHOLE, es, k, 4) ==> Vanishes(es[k + 1..])
  }

  lemma EmptyDifference(c: Interval, es: seq<Interval>)
    requires c.lo <= c.hi && Ordered(es)
    ensures Difference(c, es) == [] <==> forall v :: c.Has(v) ==> !InNone(es, v)
  {
    var rs := Difference(c, es);
    DifferenceCanonical(c, es);
    if rs == [] {
      forall v | c.Has(v)
        ensures !InNone(es, v)
      {
        DifferenceCovers(c, es, v);
      }
    } else {
      assert Covers(rs, rs[0].lo);
      DifferenceCovers(c, es, rs[0].lo);
    }
  }

  lemma {:induction false} VanishesIff(es: seq<Interval>)
    requires AllWithin(es)
    ensures Process([WHOLE], es) == [] <==> Vanishes(es)
    decreases |es|
  {
    WithinOrdered(es);
    EmptyDifference(WHOLE, es);
    assert CoverAll(es) <==> forall v :: WHOLE.Has(v) ==> !InNone(es, v);
    if k :| 0 <= k < |es| && FailsAt(WHOLE, es, k, 4) {
      WrapAddsWhole(WHOLE, es, k);
      VanishesIff(es[k + 1..]);
      forall j | 0 <= j < |es| && FailsAt(WHOLE, es, j, 4)
        ensures j == k
      {
        SameFail(WHOLE, es, j, k);
      }
    } else {
      NoWrapProcess(WHOLE, es);
    }
  }

  lemma FailsOnce(c: Interval, es: seq<Interval>, j: nat, k: nat)
    requires Within(c) && AllWithin(es) && j < k < |es| && FailsAt(c, es, j, 4)
    ensures !FailsAt(c, es, k, 4)
  {
    OneFail(c, es, j);
    assert es[..k][j] == es[j] && es[j] in es[..k] && es[j].Has(LAST);
    if es[k].hi == LAST {
      assert !Left(c, es[..k], LAST);
    }
  }

  /** At most one except fails. */
  lemma SameFail(c: Interval, es: seq<Interval>, j: nat, k: nat)
    requires Within(c) && AllWithin(es) && j < |es| && k < |es| && FailsAt(c, es, j, 4) && FailsAt(c, es, k, 4)
    ensures j == k
  {
    if j < k {
      FailsOnce(c, es, j, k);
    } else if k < j {
      FailsOnce(c, es, k, j);
    }
  }

  lemma BlockWithin(c: CidrText)
    requires c.Cidr? && |c.addr| == 4
    ensures Within(Block(c))
  {
    ReadsBlock(c, 4);
    ValBound(RangeOf(c).1);
  }

  lemma BlocksWithin(es: seq<CidrText>)
    requires forall e :: e in es ==> e.Cidr? && |e.addr| == 4
    ensures AllWithin(Blocks(es))
  {
    forall i | 0 <= i < |es|
      ensures Within(Blocks(es)[i])
    {
      assert es[i] in es;
      BlockWithin(es[i]);
    }
  }

  lemma ProcessExact(c: Interval, es: seq<Interval>)
    requires Within(c) && AllWithin(es)
    ensures Process([c], es) == Difference(c, es)
            <==> forall k :: 0 <= k < |es| && FailsAt(c, es, k, 4) ==> Vanishes(es[k + 1..])
  {
    if k :| 0 <= k < |es| && FailsAt(c, es, k, 4) {
      WrapAddsWhole(c, es, k);
      NothingAdded(Difference(c, es), Process([WHOLE], es[k + 1..]));
      VanishesIff(es[k + 1..]);
      forall j | 0 <= j < |es| && FailsAt(c, es, j, 4)
        ensures j == k
      {
        SameFail(c, es, j, k);
      }
    } else {
      NoWrapProcess(c, es);
    }
  }

  lemma NothingAdded(a: seq<Interval>, b: seq<Interval>)
    ensures a + b == a <==> b == []
  {
    assert |a + b| == |a| + |b|;
  }

  /** For IPv4, on all inputs: the call is exact if and only if no except takes the last address out of the CIDR
    * after its predecessor is gone, or the later excepts remove the whole address space again. */
  lemma ExactIffV4(cidr: CidrText, excepts: seq<CidrText>)
    requires SameFamily(cidr, excepts, 4)
    ensures ExactOn(cidr, excepts, 4)
            <==> forall k :: 0 <= k < |excepts| && FailsAt(Block(cidr), Blocks(excepts), k, 4)
                             ==> Vanishes(Blocks(excepts)[k + 1..])
  {
    BlockWithin(cidr);
    BlocksWithin(excepts);
    ProcessSpans(cidr, excepts);
    ProcessExact(Block(cidr), Blocks(excepts));
  }

  /** And otherwise the call returns the difference and more. */
  lemma ReturnedV4(cidr: CidrText, excepts: seq<CidrText>, k: nat)
    requires SameFamily(cidr, excepts, 4) && k < |excepts| && FailsAt(Block(cidr), Blocks(excepts), k, 4)
    ensures Spans(RangesWithExcept(cidr, excepts))
            == Difference(Block(cidr), Blocks(excepts)) + Process([WHOLE], Blocks(excepts)[k + 1..])
  {
    BlockWithin(cidr);
    BlocksWithin(excepts);
    ProcessSpans(cidr, excepts);
    WrapAddsWhole(Block(cidr), Blocks(excepts), k);
  }

  /** 255.255.255.255/32 minus itself and minus 0.0.0.0/0: the first except fails, and the second one hides it. */
  lemma LaterExceptHides(c: CidrText, all: CidrText)
    requires c.Cidr? && all.Cidr? && |c.addr| == |all.addr| == 4
    requires Block(c) == Interval(LAST, LAST) && Block(all) == WHOLE
    ensures FailsOn(Block(c), Blocks([c, all]), 4) && ExactOn(c, [c, all], 4)
  {
    var es := Blocks([c, all]);
    assert es == [Interval(LAST, LAST), WHOLE] && es[..0] == [] && es[1..] == [WHOLE];
    assert FailsAt(Block(c), es, 0, 4);
    assert [WHOLE][..0] == [] && !FailsAt(WHOLE, [WHOLE], 0, 4) by {
      assert Left(WHOLE, [], LAST - 1);
    }
    assert CoverAll([WHOLE]) by {
      assert WHOLE in [WHOLE];
    }
    assert Vanishes([WHOLE]);
    BlockWithin(c);
    BlocksWithin([c, all]);
    forall k | 0 <= k < 2 && FailsAt(Block(c), es, k, 4)
      ensures Vanishes(es[k + 1..])
    {
      SameFail(Block(c), es, k, 0);
    }
    ExactIffV4(c, [c, all]);
  }
}
