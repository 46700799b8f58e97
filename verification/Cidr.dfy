/** CIDRs, and the first and the last address of one. */
module Cidr {
  import opened Common
  import opened IpBytes
  import opened Intervals

  /** A CIDR string, read: address bytes and prefix length, or text that net.ParseCIDR rejects. */
  datatype RawCidr = Malformed | Cidr(addr: Ip, prefix: nat)

  predicate WellFormed(c: RawCidr) {
    c.Cidr? ==> Standard(c.addr) && c.prefix <= 8 * |c.addr|
  }

  type CidrText = c: RawCidr | WellFormed(c) witness Malformed

  // ---- Bitwise operations ----

  function And(a: nat, b: nat): nat {
    if a == 0 || b == 0 then 0
    else 2 * And(a / 2, b / 2) + if a % 2 == 1 && b % 2 == 1 then 1 else 0
  }

  function Or(a: nat, b: nat): nat {
    if a == 0 && b == 0 then 0
    else 2 * Or(a / 2, b / 2) + if a % 2 == 1 || b % 2 == 1 then 1 else 0
  }

  lemma AndStep(a: nat, m: nat)
    ensures And(a, m) == 2 * And(a / 2, m / 2) + if m % 2 == 1 then a % 2 else 0
  {
  }

  /** A mask of ones above j zeros clears the j low bits. */
  lemma {:induction false} AndHigh(a: nat, w: nat, j: nat)
    requires a < Pow2(w) && j <= w
    ensures Pow2(j) <= Pow2(w) && And(a, Pow2(w) - Pow2(j)) == a - a % Pow2(j)
  {
    Pow2Mono(j, w);
    var m := Pow2(w) - Pow2(j);
    AndStep(a, m);
    if j > 0 {
      AndHigh(a / 2, w - 1, j - 1);
      assert m / 2 == Pow2(w - 1) - Pow2(j - 1) && m % 2 == 0;
      HalfMod(a, Pow2(j - 1));
    } else if w > 0 {
      AndHigh(a / 2, w - 1, 0);
      assert m / 2 == Pow2(w - 1) - 1 && m % 2 == 1;
    }
  }

  lemma HalfMod(a: nat, p: nat)
    requires p > 0
    ensures a % (2 * p) == 2 * (a / 2 % p) + a % 2
  {
    var q, r := a / 2 / p, a / 2 % p;
    assert a == 2 * (q * p + r) + a % 2;
    assert a == q * (2 * p) + (2 * r + a % 2);
    DivModUnique(a, 2 * p, q, 2 * r + a % 2);
  }

  /** Setting j clear low bits adds 2^j - 1. */
  lemma {:induction false} OrLow(a: nat, j: nat)
    requires a % Pow2(j) == 0
    ensures Or(a, Pow2(j) - 1) == a + Pow2(j) - 1
  {
    if j > 0 {
      var p := Pow2(j - 1);
      HalfMod(a, p);
      OrLow(a / 2, j - 1);
      assert (2 * p - 1) / 2 == p - 1 && (2 * p - 1) % 2 == 1;
      assert Or(a, 2 * p - 1) == 2 * Or(a / 2, p - 1) + 1;
    } else {
      OrZero(a);
    }
  }

  lemma {:induction false} OrZero(a: nat)
    ensures Or(a, 0) == a
  {
    if a > 0 {
      OrZero(a / 2);
    }
  }

  // ---- Masks ----

  /** The number of host bits in byte i of an address with this prefix length. */
  function HostBits(prefix: nat, i: nat): (h: nat)
    ensures h <= 8
  {
    if prefix >= 8 * i + 8 then 0 else if prefix <= 8 * i then 8 else 8 * i + 8 - prefix
  }

  lemma HostBitsPow(prefix: nat, i: nat)
    ensures Pow2(HostBits(prefix, i)) <= 256
  {
    Pow2Mono(HostBits(prefix, i), 8);
    assert Pow2(8) == 256;
  }

  /** Byte i of net.CIDRMask. */
  function MaskByte(prefix: nat, i: nat): byte {
    HostBitsPow(prefix, i);
    256 - Pow2(HostBits(prefix, i))
  }

  /** The network address that net.ParseCIDR returns. */
  function Network(c: CidrText): Ip
    requires c.Cidr?
  {
    seq(|c.addr|, i requires 0 <= i < |c.addr| => MaskedByte(c.addr[i], c.prefix, i))
  }

  function MaskedByte(a: byte, prefix: nat, i: nat): (m: byte)
    ensures m == a - a % Pow2(HostBits(prefix, i))
  {
    assert Pow2(8) == 256;
    AndHigh(a, 8, HostBits(prefix, i));
    And(a, MaskByte(prefix, i))
  }

  /** One step of the loop that sets the host bits. */
  function FilledByte(a: byte, prefix: nat, i: nat): byte {
    assert Pow2(8) == 256;
    OrBound(a, 255 - MaskByte(prefix, i), 8);
    Or(a, 255 - MaskByte(prefix, i))
  }

  lemma {:induction false} OrBound(a: nat, b: nat, w: nat)
    requires a < Pow2(w) && b < Pow2(w)
    ensures Or(a, b) < Pow2(w)
  {
    if w > 0 {
      OrBound(a / 2, b / 2, w - 1);
    }
  }

  /** The first address, canonical, and the one with all host bits set. The mask is indexed
    * from its first byte even when the start address was shortened to 4 bytes. */
  function RangeOf(c: CidrText): (Ip, Ip)
    requires c.Cidr?
  {
    var start := Normalize(Network(c));
    (start, seq(|start|, i requires 0 <= i < |start| => FilledByte(start[i], c.prefix, i)))
  }

  /** parseCIDRRange. */
  method ParseCidrRange(c: CidrText) returns (r: Result<(Ip, Ip), string>)
    ensures c.Malformed? <==> r.Err?
    ensures c.Cidr? ==> r == Ok(RangeOf(c))
  {
    if c.Malformed? {
      return Err("invalid CIDR address");
    }
    var startIP := Normalize(Network(c));
    var endIP := new byte[|startIP|](i requires 0 <= i < |startIP| => startIP[i]);
    for i := |startIP| downto 0
      invariant forall k :: 0 <= k < i ==> endIP[k] == startIP[k]
      invariant forall k :: i <= k < |startIP| ==> endIP[k] == FilledByte(startIP[k], c.prefix, k)
    {
      endIP[i] := FilledByte(startIP[i], c.prefix, i);
    }
    assert endIP[..] == RangeOf(c).1;
    r := Ok((startIP, endIP[..]));
  }

  // ---- What the range is ----

  function HostOnes(prefix: nat, n: nat): Ip {
    seq(n, i requires 0 <= i < n => HostOnesByte(prefix, i))
  }

  function HostOnesByte(prefix: nat, i: nat): byte {
    HostBitsPow(prefix, i);
    Pow2(HostBits(prefix, i)) - 1
  }

  /** The number of addresses of the CIDR, and of its first n bytes. */
  function Size(prefix: nat, n: nat): nat {
    if prefix >= 8 * n then 1 else Pow2(8 * n - prefix)
  }

  lemma {:induction false} HostOnesVal(prefix: nat, n: nat)
    ensures Val(HostOnes(prefix, n)) == Size(prefix, n) - 1
  {
    if n > 0 {
      HostOnesVal(prefix, n - 1);
      assert HostOnes(prefix, n)[..n - 1] == HostOnes(prefix, n - 1);
      assert Pow2(8) == 256;
      if prefix <= 8 * (n - 1) {
        Pow2Add(8, 8 * (n - 1) - prefix);
      }
    }
  }

  lemma {:induction false} ValAdd(a: Ip, b: Ip, sum: Ip)
    requires |a| == |b| == |sum|
    requires forall i :: 0 <= i < |a| ==> sum[i] as int == a[i] as int + b[i] as int
    ensures Val(sum) == Val(a) + Val(b)
  {
    if a != [] {
      var n := |a| - 1;
      ValAdd(a[..n], b[..n], sum[..n]);
    }
  }

  lemma {:induction false} ValMono(a: Ip, b: Ip)
    requires |a| == |b|
    requires forall i :: 0 <= i < |a| ==> a[i] <= b[i]
    ensures Val(a) <= Val(b)
  {
    if a != [] {
      var n := |a| - 1;
      ValMono(a[..n], b[..n]);
    }
  }

  /** An address whose bytes have no host bits is a multiple of the block size. */
  lemma {:induction false} Aligned(a: Ip, prefix: nat)
    requires forall i :: 0 <= i < |a| ==> a[i] % Pow2(HostBits(prefix, i)) == 0
    ensures Val(a) % Size(prefix, |a|) == 0
  {
    if a != [] {
      var n := |a| - 1;
      Aligned(a[..n], prefix);
      assert Pow2(8) == 256;
      if prefix <= 8 * n {
        assert HostBits(prefix, n) == 8 && a[n] == 0;
        Pow2Add(8, 8 * n - prefix);
        assert Size(prefix, n + 1) == 256 * Size(prefix, n);
        ShiftMultiple(Val(a[..n]), Size(prefix, n));
      } else if prefix < 8 * n + 8 {
        var h := 8 * n + 8 - prefix;
        assert HostBits(prefix, n) == h && Size(prefix, n + 1) == Pow2(h);
        Pow2Add(h, 8 - h);
        AddMultiple(Val(a[..n]), a[n], Pow2(h), Pow2(8 - h));
      }
    }
  }

  lemma ShiftMultiple(v: nat, p: nat)
    requires p > 0 && v % p == 0
    ensures 256 * v % (256 * p) == 0
  {
    MulSwap(v / p, p);
    DivModUnique(256 * v, 256 * p, v / p, 0);
  }

  lemma AddMultiple(v: nat, b: nat, p: nat, q: nat)
    requires p > 0 && p * q == 256 && b % p == 0
    ensures (256 * v + b) % p == 0
  {
    var k := b / p;
    calc {
      256 * v + b;
      (p * q) * v + k * p;
      (q * v + k) * p;
    }
    DivModUnique(256 * v + b, p, q * v + k, 0);
  }

  /** The block of 2^(bits - prefix) addresses that share the first prefix bits of the address. */
  function Block(c: CidrText): Interval
    requires c.Cidr?
  {
    var v, size := Val(c.addr), Size(c.prefix, |c.addr|);
    Interval(v - v % size, v - v % size + size - 1)
  }

  /** Being in the block is having the same prefix bits. */
  lemma BlockIsPrefix(c: CidrText, v: nat)
    requires c.Cidr?
    ensures var size := Size(c.prefix, |c.addr|);
            Block(c).Has(v) <==> v / size == Val(c.addr) / size
  {
    SameQuotient(v, Val(c.addr), Size(c.prefix, |c.addr|));
  }

  lemma SameQuotient(v: nat, w: nat, size: nat)
    requires size > 0
    ensures w - w % size <= v < w - w % size + size <==> v / size == w / size
  {
    var q, r := w / size, w % size;
    assert w == q * size + r;
    if w - r <= v < w - r + size {
      DivModUnique(v, size, q, v - (w - r));
    }
    if v / size == q {
      assert v == q * size + v % size;
    }
  }

  lemma NetworkValue(c: CidrText)
    requires c.Cidr?
    ensures Val(Network(c)) == Block(c).lo
  {
    var n := |c.addr|;
    var net, ones := Network(c), HostOnes(c.prefix, n);
    var last := seq(n, i requires 0 <= i < n => FilledByte(net[i], c.prefix, i));
    forall i | 0 <= i < n
      ensures net[i] % Pow2(HostBits(c.prefix, i)) == 0
      ensures last[i] as int == net[i] as int + ones[i] as int && net[i] <= c.addr[i] <= last[i]
    {
      BlockByte(c.addr[i], c.prefix, i);
    }
    ValAdd(net, ones, last);
    HostOnesVal(c.prefix, n);
    Aligned(net, c.prefix);
    ValMono(net, c.addr);
    ValMono(c.addr, last);
    BlockStart(Val(c.addr), Val(net), Size(c.prefix, n));
  }

  /** When the network address is not IPv4-mapped, the range is that block. */
  lemma RangeIsBlock(c: CidrText)
    requires c.Cidr? && !IsMapped(Network(c))
    ensures var (s, e) := RangeOf(c);
            |s| == |e| == |c.addr| && Val(s) == Block(c).lo && Val(e) == Block(c).hi
  {
    var n := |c.addr|;
    var (s, e) := RangeOf(c);
    var ones := HostOnes(c.prefix, n);
    forall i | 0 <= i < n
      ensures e[i] as int == s[i] as int + ones[i] as int
    {
      BlockByte(c.addr[i], c.prefix, i);
    }
    NetworkValue(c);
    ValAdd(s, ones, e);
    HostOnesVal(c.prefix, n);
  }

  lemma BlockByte(a: byte, prefix: nat, i: nat)
    ensures var m := MaskedByte(a, prefix, i);
            && m % Pow2(HostBits(prefix, i)) == 0
            && FilledByte(m, prefix, i) as int == m as int + HostOnesByte(prefix, i) as int
            && m <= a <= FilledByte(m, prefix, i)
  {
    var h := HostBits(prefix, i);
    var p := Pow2(h);
    DivModUnique(a - a % p, p, a / p, 0);
    OrLow(MaskedByte(a, prefix, i), h);
  }

  lemma BlockStart(v: nat, start: nat, size: nat)
    requires size > 0 && start % size == 0 && start <= v < start + size
    ensures start == v - v % size
  {
    DivModUnique(v, size, start / size, v - start);
  }

  /** A CIDR inside the IPv4-mapped block: the mask is misread and one IPv4 address remains. */
  lemma MappedRange(c: CidrText)
    requires c.Cidr? && IsMapped(Network(c))
    ensures c.prefix >= 96
    ensures RangeOf(c).0 == RangeOf(c).1 == Network(c)[12..]
  {
    assert Network(c)[11] == 255;
    if c.prefix < 96 {
      HostBitClear(c.addr[11], c.prefix, 11);
    }
    var (s, e) := RangeOf(c);
    forall i | 0 <= i < 4
      ensures e[i] == s[i]
    {
      assert HostBits(c.prefix, i) == 0;
      OrZero(s[i]);
    }
    assert e == s;
  }

  lemma HostBitClear(a: byte, prefix: nat, i: nat)
    requires prefix < 8 * i + 8
    ensures MaskedByte(a, prefix, i) % 2 == 0
  {
    var h := HostBits(prefix, i);
    HalfMod(a, Pow2(h - 1));
    assert Pow2(h) == 2 * Pow2(h - 1);
  }

  /** parseCIDRRange yields 2^(bits - prefix) addresses exactly when the network address is not
    * IPv4-mapped, or the prefix is the full length. */
  lemma RangeSizeExact(c: CidrText)
    requires c.Cidr?
    ensures Val(RangeOf(c).1) == Val(RangeOf(c).0) + Size(c.prefix, |c.addr|) - 1
            <==> !IsMapped(Network(c)) || c.prefix == 128
  {
    if IsMapped(Network(c)) {
      MappedRange(c);
      if c.prefix < 128 {
        Pow2Mono(1, 128 - c.prefix);
      }
    } else {
      RangeIsBlock(c);
    }
  }
}
