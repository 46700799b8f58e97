/** One except against one range, when the ends of both are plain addresses of their family. */
module IpRangeSteps {
  import opened IpBytes
  import opened Intervals
  import opened IpRanges

  function Top(n: nat): nat {
    Pow2(8 * n) - 1
  }

  function Span(r: Range): Interval {
    Interval(Val(r.0), Val(r.1))
  }

  function Spans(rs: seq<Range>): seq<Interval> {
    seq(|rs|, i requires 0 <= i < |rs| => Span(rs[i]))
  }

  /** An ordered pair of n-byte addresses, neither of them IPv4-mapped. */
  predicate Clean(r: Range, n: nat) {
    && (n == 4 || n == 16) && |r.0| == |r.1| == n
    && !IsMapped(r.0) && !IsMapped(r.1)
    && Val(r.0) <= Val(r.1)
  }

  predicate AllClean(rs: seq<Range>, n: nat) {
    forall i :: 0 <= i < |rs| ==> Clean(rs[i], n)
  }

  /** The addresses whose successor is not the next address of the family: after the last one
    * comes the first one, and ::fffe:ffff:ffff is followed by an address that reads as IPv4. */
  predicate IsEdge(v: int, n: nat) {
    v == Top(n) || (n == 16 && v == MAPPED_LO - 1)
  }

  /** The address after the except bounds a piece, and is not the next one of the family. */
  predicate NextFails(r: Interval, t: Interval, n: nat) {
    IsEdge(t.hi, n) && r.Has(t.hi) && (t.hi < r.hi || r.lo == t.hi)
  }

  /** The address before the except bounds a piece, and reads as IPv4. */
  predicate PreviousFails(r: Interval, t: Interval, n: nat) {
    n == 16 && t.lo == MAPPED_HI + 1 && r.lo < t.lo <= r.hi
  }

  /** The pieces are the interval difference, with plain addresses as ends. */
  predicate Right(ps: seq<Range>, r: Interval, t: Interval, n: nat) {
    AllClean(ps, n) && Spans(ps) == Minus(r, t)
  }

  /** Some piece has an end of the wrong kind, or an excepted address is in some piece, or the pieces
    * stay inside the range and miss an address that is not excepted. */
  ghost predicate Wrong(ps: seq<Range>, r: Interval, t: Interval, n: nat) {
    || !AllClean(ps, n)
    || (exists v :: t.Has(v) && Covers(Spans(ps), v))
    || ((forall v :: Covers(Spans(ps), v) ==> r.Has(v))
        && exists v :: r.Has(v) && !t.Has(v) && !Covers(Spans(ps), v))
  }

  // ---- Addresses ----

  lemma OffsetBytes(ip: Ip, offset: int, n: nat)
    requires (n == 4 || n == 16) && |ip| == n && !IsMapped(ip) && Val(ip) + offset >= 0
    ensures OffsetIp(ip, offset) == FixedBytes(Val(ip) + offset, n)
  {
  }

  lemma NextModulo(v: nat, p: nat)
    requires v < p
    ensures (v + 1) % p == if v == p - 1 then 0 else v + 1
  {
    if v == p - 1 {
      DivModUnique(p, p, 1, 0);
    } else {
      DivModUnique(v + 1, p, 0, v + 1);
    }
  }

  lemma NextBytes(v: nat, n: nat, ip: Ip)
    requires v < Pow2(8 * n) && ip == FixedBytes(v + 1, n)
    ensures |ip| == n && Val(ip) == if v == Top(n) then 0 else v + 1
  {
    FixedBytesVal(v + 1, n);
    NextModulo(v, Pow2(8 * n));
  }

  lemma NextAddress(ip: Ip, n: nat)
    requires (n == 4 || n == 16) && |ip| == n && !IsMapped(ip)
    ensures |OffsetIp(ip, 1)| == n && Val(OffsetIp(ip, 1)) == if Val(ip) == Top(n) then 0 else Val(ip) + 1
  {
    ValBound(ip);
    OffsetBytes(ip, 1, n);
    NextBytes(Val(ip), n, OffsetIp(ip, 1));
  }

  lemma PreviousBytes(v: nat, n: nat, ip: Ip)
    requires 0 < v < Pow2(8 * n) && ip == FixedBytes(v - 1, n)
    ensures |ip| == n && Val(ip) == v - 1
  {
    FixedBytesVal(v - 1, n);
    DivModUnique(v - 1, Pow2(8 * n), 0, v - 1);
  }

  lemma PreviousAddress(ip: Ip, n: nat)
    requires (n == 4 || n == 16) && |ip| == n && !IsMapped(ip) && Val(ip) > 0
    ensures |OffsetIp(ip, -1)| == n && Val(OffsetIp(ip, -1)) == Val(ip) - 1
  {
    ValBound(ip);
    OffsetBytes(ip, -1, n);
    PreviousBytes(Val(ip), n, OffsetIp(ip, -1));
  }

  /** Comparing addresses of one family compares their values. */
  lemma PositionValue(ip: Ip, r: Range, n: nat)
    requires Clean(r, n) && |ip| == n && !IsMapped(ip)
    ensures Position(ip, r) ==
            if Val(ip) < Val(r.0) then BeforeStart
            else if Val(ip) == Val(r.0) then AtStart
            else if Val(ip) < Val(r.1) then Between
            else if Val(ip) == Val(r.1) then AtEnd
            else AfterEnd
  {
    if Val(ip) == Val(r.0) {
      ValInjective(ip, r.0);
    }
    if Val(ip) == Val(r.1) {
      ValInjective(ip, r.1);
    }
  }

  lemma CleanAppend(r: Range, n: nat)
    requires Clean(r, n)
    ensures RangeAppend([], r) == [r]
  {
  }

  lemma HeadPiece(lo: Ip, ip: Ip, n: nat)
    requires (n == 4 || n == 16) && |lo| == |ip| == n && !IsMapped(lo) && !IsMapped(ip) && Val(lo) < Val(ip)
    requires n == 16 ==> Val(ip) != MAPPED_HI + 1
    ensures |OffsetIp(ip, -1)| == n && Val(OffsetIp(ip, -1)) == Val(ip) - 1
    ensures Clean((lo, OffsetIp(ip, -1)), n)
    ensures RangeAppend([], (lo, OffsetIp(ip, -1))) == [(lo, OffsetIp(ip, -1))]
  {
    PreviousAddress(ip, n);
    if n == 16 {
      MappedBlock(ip);
      MappedBlock(OffsetIp(ip, -1));
    }
    CleanAppend((lo, OffsetIp(ip, -1)), n);
  }

  lemma TailPiece(ip: Ip, hi: Ip, n: nat)
    requires (n == 4 || n == 16) && |ip| == |hi| == n && !IsMapped(ip) && !IsMapped(hi) && Val(ip) < Val(hi)
    requires !IsEdge(Val(ip), n)
    ensures |OffsetIp(ip, 1)| == n && Val(OffsetIp(ip, 1)) == Val(ip) + 1
    ensures Clean((OffsetIp(ip, 1), hi), n)
    ensures RangeAppend([], (OffsetIp(ip, 1), hi)) == [(OffsetIp(ip, 1), hi)]
  {
    NextAddress(ip, n);
    if n == 16 {
      MappedBlock(ip);
      MappedBlock(OffsetIp(ip, 1));
    }
    CleanAppend((OffsetIp(ip, 1), hi), n);
  }

  // ---- The case table, by values ----

  /** What is left of the except, and what is right of it. */
  function HeadOf(lo: Ip, ip: Ip): seq<Range> {
    RangeAppend([], (lo, OffsetIp(ip, -1)))
  }

  function TailOf(ip: Ip, hi: Ip): seq<Range> {
    RangeAppend([], (OffsetIp(ip, 1), hi))
  }

  /** Which of the two pieces appear. */
  function Cut(r: Range, e: Range): seq<Range> {
    if Val(e.1) < Val(r.0) || Val(r.1) < Val(e.0) then [r]
    else if Val(r.0) < Val(e.0) then HeadOf(r.0, e.0) + if Val(e.1) < Val(r.1) then TailOf(e.1, r.1) else []
    else if Val(e.1) < Val(r.1) || Val(r.0) == Val(e.1) then TailOf(e.1, r.1)
    else []
  }

  lemma Table(r: Range, e: Range, n: nat)
    requires Clean(r, n) && Clean(e, n)
    ensures AbstractOne(r, e) == Cut(r, e)
  {
    PositionValue(e.0, r, n);
    PositionValue(e.1, r, n);
    CleanAppend(r, n);
  }

  lemma OnePiece(rs: seq<Range>, p: Range, n: nat)
    requires rs == [p]
    ensures Spans(rs) == [Span(p)] && (AllClean(rs, n) <==> Clean(p, n))
    ensures forall v :: Covers(Spans(rs), v) <==> Span(p).Has(v)
  {
    assert Clean(rs[0], n) <==> Clean(p, n);
    assert [Span(p)][1..] == [];
  }

  lemma NoPiece(ps: seq<Range>, r: Interval, t: Interval, n: nat)
    requires ps == [] && t.lo <= r.lo <= r.hi <= t.hi
    ensures Right(ps, r, t, n)
  {
    assert Spans(ps) == [];
  }

  lemma RightPiece(ps: seq<Range>, q: Range, r: Interval, t: Interval, n: nat)
    requires ps == [q] && Clean(q, n) && t.lo <= t.hi && Minus(r, t) == [Span(q)]
    ensures Right(ps, r, t, n)
  {
    OnePiece(ps, q, n);
  }

  lemma RightPieces(ps: seq<Range>, p: Range, q: Range, r: Interval, t: Interval, n: nat)
    requires ps == [p] + [q] && Clean(p, n) && Clean(q, n) && r.lo < t.lo <= t.hi < r.hi
    requires Span(p) == Interval(r.lo, t.lo - 1) && Span(q) == Interval(t.hi + 1, r.hi)
    ensures Right(ps, r, t, n)
  {
    assert Spans(ps) == [Span(p)] + [Span(q)];
  }

  /** The case split computes the plain interval difference. */
  lemma Pieces(r: Range, e: Range, n: nat)
    requires Clean(r, n) && Clean(e, n)
    requires !NextFails(Span(r), Span(e), n) && !PreviousFails(Span(r), Span(e), n)
    ensures Right(Cut(r, e), Span(r), Span(e), n)
  {
    if Val(e.1) < Val(r.0) || Val(r.1) < Val(e.0) {
      OnePiece(Cut(r, e), r, n);
    } else if Val(r.0) < Val(e.0) {
      PiecesFromHead(r, e, n);
    } else {
      PiecesFromTail(r, e, n);
    }
  }

  lemma PiecesFromTail(r: Range, e: Range, n: nat)
    requires Clean(r, n) && Clean(e, n) && Val(e.0) <= Val(r.0) <= Val(e.1)
    requires !NextFails(Span(r), Span(e), n)
    ensures Right(Cut(r, e), Span(r), Span(e), n)
  {
    if Val(e.1) < Val(r.1) {
      TailPiece(e.1, r.1, n);
      RightPiece(Cut(r, e), (OffsetIp(e.1, 1), r.1), Span(r), Span(e), n);
    } else {
      if Val(r.0) == Val(e.1) {
        NextDropped(r, e, n);
      }
      NoPiece(Cut(r, e), Span(r), Span(e), n);
    }
  }

  lemma PiecesFromHead(r: Range, e: Range, n: nat)
    requires Clean(r, n) && Clean(e, n) && Val(r.0) < Val(e.0) <= Val(r.1)
    requires !NextFails(Span(r), Span(e), n) && !PreviousFails(Span(r), Span(e), n)
    ensures Right(Cut(r, e), Span(r), Span(e), n)
  {
    var p, q := (r.0, OffsetIp(e.0, -1)), (OffsetIp(e.1, 1), r.1);
    HeadPiece(r.0, e.0, n);
    if Val(e.1) < Val(r.1) {
      TailPiece(e.1, r.1, n);
      RightPieces(Cut(r, e), p, q, Span(r), Span(e), n);
    } else {
      RightPiece(Cut(r, e), p, Span(r), Span(e), n);
    }
  }

  /** A one-address range that ends the except, away from the edges: the tail is empty. */
  lemma NextDropped(r: Range, e: Range, n: nat)
    requires Clean(r, n) && Clean(e, n) && !IsEdge(Val(e.1), n)
    requires Val(r.0) == Val(e.1) == Val(r.1)
    ensures TailOf(e.1, r.1) == []
  {
    NextAddress(e.1, n);
    if n == 16 {
      MappedBlock(e.1);
      MappedBlock(OffsetIp(e.1, 1));
    }
  }

  // ---- Where it goes wrong ----

  lemma AfterTop(hi: Ip, ip: Ip, n: nat)
    requires (n == 4 || n == 16) && |hi| == |ip| == n && !IsMapped(hi) && !IsMapped(ip) && Val(hi) == Val(ip) == Top(n)
    ensures Clean((OffsetIp(ip, 1), hi), n) && Span((OffsetIp(ip, 1), hi)) == Interval(0, Top(n))
    ensures RangeAppend([], (OffsetIp(ip, 1), hi)) == [(OffsetIp(ip, 1), hi)]
  {
    NextAddress(ip, n);
    if n == 16 {
      MappedBlock(OffsetIp(ip, 1));
    }
    CleanAppend((OffsetIp(ip, 1), hi), n);
  }

  lemma AfterGap(ip: Ip, hi: Ip)
    requires |ip| == |hi| == 16 && Val(ip) == MAPPED_LO - 1 != Top(16)
    ensures IsMapped(OffsetIp(ip, 1)) && BigInt(OffsetIp(ip, 1)) == 0
    ensures RangeAppend([], (OffsetIp(ip, 1), hi)) == [(OffsetIp(ip, 1), hi)]
  {
    MappedBlock(ip);
    NextAddress(ip, 16);
    var next := OffsetIp(ip, 1);
    MappedBlock(next);
    MappedReads(next);
  }

  lemma BeforeBlock(ip: Ip)
    requires |ip| == 16 && Val(ip) == MAPPED_HI + 1
    ensures IsMapped(OffsetIp(ip, -1)) && BigInt(OffsetIp(ip, -1)) == MAPPED_HI - MAPPED_LO
  {
    MappedBlock(ip);
    PreviousAddress(ip, 16);
    var prev := OffsetIp(ip, -1);
    MappedBlock(prev);
    MappedReads(prev);
  }

  lemma UncleanPiece(ps: seq<Range>, i: nat, r: Interval, t: Interval, n: nat)
    requires i < |ps| && !Clean(ps[i], n)
    ensures Wrong(ps, r, t, n)
  {
  }

  lemma NextWrong(r: Range, e: Range, n: nat)
    requires Clean(r, n) && Clean(e, n) && NextFails(Span(r), Span(e), n)
    ensures Wrong(Cut(r, e), Span(r), Span(e), n)
  {
    if Val(e.1) == Top(n) {
      TopWrong(r, e, n);
    } else {
      GapWrong(r, e, n);
    }
  }

  lemma GapWrong(r: Range, e: Range, n: nat)
    requires Clean(r, n) && Clean(e, n) && NextFails(Span(r), Span(e), n) && Val(e.1) != Top(n)
    ensures Wrong(Cut(r, e), Span(r), Span(e), n)
  {
    AfterGap(e.1, r.1);
    UncleanPiece(Cut(r, e), |Cut(r, e)| - 1, Span(r), Span(e), n);
  }

  /** After the last address comes the first one: the piece is the whole space. */
  lemma TopWrong(r: Range, e: Range, n: nat)
    requires Clean(r, n) && Clean(e, n) && NextFails(Span(r), Span(e), n) && Val(e.1) == Top(n)
    ensures Cut(r, e) == [(OffsetIp(e.1, 1), r.1)] && Span(Cut(r, e)[0]) == Interval(0, Top(n))
    ensures Wrong(Cut(r, e), Span(r), Span(e), n)
  {
    ValBound(r.1);
    AfterTop(r.1, e.1, n);
    SpuriousPiece(Cut(r, e), (OffsetIp(e.1, 1), r.1), Span(r), Span(e), Top(n), n);
  }

  lemma SpuriousPiece(ps: seq<Range>, q: Range, r: Interval, t: Interval, v: int, n: nat)
    requires ps == [q] && Span(q).Has(v) && t.Has(v)
    ensures Wrong(ps, r, t, n)
  {
    OnePiece(ps, q, n);
  }

  /** The piece before the except ends with 255.255.255.255, or is dropped. */
  lemma PreviousWrong(r: Range, e: Range, n: nat)
    requires Clean(r, n) && Clean(e, n) && PreviousFails(Span(r), Span(e), n) && !NextFails(Span(r), Span(e), n)
    ensures Wrong(Cut(r, e), Span(r), Span(e), n)
  {
    BeforeBlock(e.0);
    if HeadOf(r.0, e.0) == [] {
      HeadLost(r, e, n);
    } else {
      assert Cut(r, e)[0] == (r.0, OffsetIp(e.0, -1));
      UncleanPiece(Cut(r, e), 0, Span(r), Span(e), n);
    }
  }

  lemma HeadLost(r: Range, e: Range, n: nat)
    requires Clean(r, n) && Clean(e, n) && Val(r.0) < Val(e.0) <= Val(r.1) && !NextFails(Span(r), Span(e), n)
    requires HeadOf(r.0, e.0) == []
    ensures Wrong(Cut(r, e), Span(r), Span(e), n)
  {
    if Val(e.1) < Val(r.1) {
      TailPiece(e.1, r.1, n);
      LostPart(Cut(r, e), (OffsetIp(e.1, 1), r.1), Span(r), Span(e), n);
    } else {
      LostAll(Cut(r, e), Span(r), Span(e), Val(r.0), n);
    }
  }

  lemma LostAll(ps: seq<Range>, r: Interval, t: Interval, v: int, n: nat)
    requires ps == [] && r.Has(v) && !t.Has(v)
    ensures Wrong(ps, r, t, n)
  {
    assert Spans(ps) == [];
  }

  /** One piece is there, the other one is not. */
  lemma LostPart(ps: seq<Range>, q: Range, r: Interval, t: Interval, n: nat)
    requires ps == [q] && r.lo <= Span(q).lo && Span(q).hi <= r.hi
    requires (r.lo < t.lo && t.hi < Span(q).lo) || (t.hi < r.hi && Span(q).hi < t.lo)
    requires t.lo <= t.hi && r.lo <= r.hi
    ensures Wrong(ps, r, t, n)
  {
    OnePiece(ps, q, n);
    var v := if r.lo < t.lo && t.hi < Span(q).lo then r.lo else r.hi;
    assert r.Has(v) && !t.Has(v) && !Covers(Spans(ps), v);
  }

  predicate PlainFails(r: Interval, t: Interval, n: nat) {
    NextFails(r, t, n) || PreviousFails(r, t, n)
  }

  /** The two exclude each other. */
  lemma RightNotWrong(ps: seq<Range>, r: Interval, t: Interval, n: nat)
    requires t.lo <= t.hi
    ensures !(Right(ps, r, t, n) && Wrong(ps, r, t, n))
  {
    if Right(ps, r, t, n) {
      forall v
        ensures Covers(Spans(ps), v) <==> r.Has(v) && !t.Has(v)
      {
        MinusCovers(r, t, v);
      }
    }
  }

  /** One plain except against one plain range. */
  lemma PlainStep(r: Range, e: Range, n: nat)
    requires Clean(r, n) && Clean(e, n)
    ensures Right(AbstractOne(r, e), Span(r), Span(e), n) <==> !PlainFails(Span(r), Span(e), n)
    ensures Wrong(AbstractOne(r, e), Span(r), Span(e), n) <==> PlainFails(Span(r), Span(e), n)
  {
    Table(r, e, n);
    RightNotWrong(Cut(r, e), Span(r), Span(e), n);
    if NextFails(Span(r), Span(e), n) {
      NextWrong(r, e, n);
    } else if PreviousFails(Span(r), Span(e), n) {
      PreviousWrong(r, e, n);
    } else {
      Pieces(r, e, n);
    }
  }
}
