/** A CIDR minus a list of CIDRs, as a list of address ranges. */
module IpRanges {
  import opened Common
  import opened IpBytes
  import opened Cidr

  type Range = (Ip, Ip)

  /** compareIP */
  predicate Less(a: Ip, b: Ip) {
    BigInt(a) < BigInt(b)
  }

  /** equalIP */
  predicate Equal(a: Ip, b: Ip) {
    Normalize(a) == Normalize(b)
  }

  datatype Location = BeforeStart | AtStart | Between | AtEnd | AfterEnd

  function Position(ip: Ip, rng: Range): Location {
    if Less(ip, rng.0) then BeforeStart
    else if Equal(ip, rng.0) then AtStart
    else if Less(ip, rng.1) then Between
    else if Equal(ip, rng.1) then AtEnd
    else AfterEnd
  }

  /** rangeAppend drops a range whose end lies before its start. */
  function RangeAppend(ranges: seq<Range>, r: Range): seq<Range> {
    if !Less(r.1, r.0) then ranges + [r] else ranges
  }

  lemma AppendIsConcat(ranges: seq<Range>, r: Range)
    ensures RangeAppend(ranges, r) == ranges + RangeAppend([], r)
  {
  }

  function NormalizeRange(r: Range): Range {
    (Normalize(r.0), Normalize(r.1))
  }

  /** What one range becomes, by the positions of the first and last excepted address. */
  function AbstractOne(range: Range, excepted: Range): seq<Range> {
    var rng, except := NormalizeRange(range), NormalizeRange(excepted);
    var head := RangeAppend([], (rng.0, OffsetIp(except.0, -1)));
    var tail := RangeAppend([], (OffsetIp(except.1, 1), rng.1));
    match (Position(except.0, rng), Position(except.1, rng))
    case (BeforeStart, BeforeStart) => RangeAppend([], rng)
    case (BeforeStart, AtStart) => tail
    case (BeforeStart, Between) => tail
    case (AtStart, AtStart) => tail
    case (AtStart, Between) => tail
    case (Between, Between) => head + tail
    case (Between, _) => head
    case (AtEnd, _) => head
    case (AfterEnd, _) => RangeAppend([], rng)
    case (_, _) => []
  }

  function AbstractAll(ranges: seq<Range>, except: Range): seq<Range> {
    if ranges == [] then []
    else AbstractAll(ranges[..|ranges| - 1], except) + AbstractOne(ranges[|ranges| - 1], except)
  }

  /** rangesAbstractRange */
  method RangesAbstractRange(ranges: seq<Range>, excepted: Range) returns (results: seq<Range>)
    ensures results == AbstractAll(ranges, excepted)
  {
    results := [];
    for i := 0 to |ranges|
      invariant results == AbstractAll(ranges[..i], excepted)
    {
      results := AppendPieces(results, ranges[i], excepted);
      assert ranges[..i + 1][..i] == ranges[..i];
    }
    assert ranges[..|ranges|] == ranges;
  }

  /** The body of its loop. */
  method AppendPieces(before: seq<Range>, range: Range, excepted: Range) returns (results: seq<Range>)
    ensures results == before + AbstractOne(range, excepted)
  {
    var rng, except := NormalizeRange(range), NormalizeRange(excepted);
    var exceptPrev := CalculateOffsetIP(except.0, -1);
    var exceptNext := CalculateOffsetIP(except.1, 1);
    var first, last := Position(except.0, rng), Position(except.1, rng);
    AppendIsConcat(before, rng);
    AppendIsConcat(before, (rng.0, exceptPrev));
    AppendIsConcat(before, (exceptNext, rng.1));
    AppendIsConcat(before + RangeAppend([], (rng.0, exceptPrev)), (exceptNext, rng.1));
    results := before;
    if first == BeforeStart {
      if last == BeforeStart {
        results := RangeAppend(results, rng);
      } else if last == AtStart || last == Between {
        results := RangeAppend(results, (exceptNext, rng.1));
      }
    } else if first == AtStart {
      if last == AtStart || last == Between {
        results := RangeAppend(results, (exceptNext, rng.1));
      }
    } else if first == Between {
      if last == Between {
        results := RangeAppend(results, (rng.0, exceptPrev));
        results := RangeAppend(results, (exceptNext, rng.1));
      } else {
        results := RangeAppend(results, (rng.0, exceptPrev));
      }
    } else if first == AtEnd {
      results := RangeAppend(results, (rng.0, exceptPrev));
    } else {
      results := RangeAppend(results, rng);
    }
  }

  /** The ranges left after the first |excepts| excepts. */
  function RangesWithExcept(cidr: CidrText, excepts: seq<CidrText>): seq<Range>
    requires cidr.Cidr? && forall e :: e in excepts ==> e.Cidr?
  {
    if excepts == [] then [RangeOf(cidr)]
    else
      AbstractAll(RangesWithExcept(cidr, excepts[..|excepts| - 1]), RangeOf(excepts[|excepts| - 1]))
  }

  /** GetCIDRRangesWithExcept, with the ranges as pairs instead of formatted strings. It fails
    * exactly when one of the strings is not a CIDR. */
  method GetCidrRangesWithExcept(cidr: CidrText, excepts: seq<CidrText>) returns (r: Result<seq<Range>, string>)
    ensures r.Err? <==> cidr.Malformed? || exists e :: e in excepts && e.Malformed?
    ensures r.Ok? ==> r.value == RangesWithExcept(cidr, excepts)
  {
    var main := ParseCidrRange(cidr);
    if main.Err? {
      return Err(main.error);
    }
    var calculatedRanges := [main.value];
    for i := 0 to |excepts|
      invariant forall e :: e in excepts[..i] ==> e.Cidr?
      invariant calculatedRanges == RangesWithExcept(cidr, excepts[..i])
    {
      var except := ParseCidrRange(excepts[i]);
      if except.Err? {
        return Err(except.error);
      }
      calculatedRanges := RangesAbstractRange(calculatedRanges, except.value);
      assert excepts[..i + 1][..i] == excepts[..i];
    }
    assert excepts[..|excepts|] == excepts;
    r := Ok(calculatedRanges);
  }
}
