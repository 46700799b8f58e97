/** IP addresses as bytes, the way the Go code handles them: net.IP slices of 4 or 16 bytes,
  * big integers, masks. CIDRs are given by address bytes and prefix length (section 3.1 of
  * RFC 4632); reading them from text is not part of this model. */
module IpBytes {
  type byte = b: nat | b < 256

  type Ip = seq<byte>

  // ---- Numbers ----

  function Pow2(n: nat): (p: nat)
    ensures p >= 1
  {
    if n == 0 then 1 else 2 * Pow2(n - 1)
  }

  lemma {:induction false} Pow2Add(a: nat, b: nat)
    ensures Pow2(a + b) == Pow2(a) * Pow2(b)
  {
    if a > 0 {
      Pow2Add(a - 1, b);
      assert Pow2(a + b) == 2 * Pow2(a - 1 + b);
    }
  }

  /** The value of a big-endian byte string: big.Int's SetBytes. */
  function Val(ip: Ip): nat {
    if ip == [] then 0 else 256 * Val(ip[..|ip| - 1]) + ip[|ip| - 1]
  }

  lemma {:induction false} ValBound(ip: Ip)
    ensures Val(ip) < Pow2(8 * |ip|)
  {
    if ip != [] {
      ValBound(ip[..|ip| - 1]);
      Pow2Add(8, 8 * (|ip| - 1));
      assert Pow2(8) == 256;
    }
  }

  lemma {:induction false} ValConcat(a: Ip, b: Ip)
    ensures Val(a + b) == Val(a) * Pow2(8 * |b|) + Val(b)
  {
    if b == [] {
      assert a + b == a;
    } else {
      var n := |b| - 1;
      ValConcat(a, b[..n]);
      assert (a + b)[..|a + b| - 1] == a + b[..n];
      Pow2Add(8, 8 * n);
      assert Pow2(8) == 256;
      MulSwap(Val(a), Pow2(8 * n));
      assert Val(a + b) == 256 * (Val(a) * Pow2(8 * n) + Val(b[..n])) + b[n] as int;
    }
  }

  lemma MulSwap(v: nat, p: nat)
    ensures 256 * (v * p) == v * (256 * p)
  {
  }

  /** Addresses of one length are told apart by their values. */
  lemma {:induction false} ValInjective(a: Ip, b: Ip)
    requires |a| == |b| && Val(a) == Val(b)
    ensures a == b
  {
    if a != [] {
      var n := |a| - 1;
      assert a[n] == Val(a) % 256 == b[n];
      ValInjective(a[..n], b[..n]);
      assert a == a[..n] + [a[n]] && b == b[..n] + [b[n]];
    }
  }

  // ---- Canonical length ----

  /** ::ffff:a.b.c.d (section 2.5.5.2 of RFC 4291). */
  predicate IsMapped(ip: Ip) {
    |ip| == 16 && (forall i :: 0 <= i < 10 ==> ip[i] == 0) && ip[10] == 0xff && ip[11] == 0xff
  }

  /** normalizeIP: 4 bytes for IPv4 and IPv4-mapped addresses, 16 for IPv6, nil otherwise. */
  function Normalize(ip: Ip): Ip {
    if |ip| == 4 then ip
    else if IsMapped(ip) then ip[12..]
    else if |ip| == 16 then ip
    else []
  }

  predicate Standard(ip: Ip) {
    |ip| == 4 || |ip| == 16
  }

  function BigInt(ip: Ip): nat {
    Val(Normalize(ip))
  }

  const MAPPED_LO := 0xffff_0000_0000
  const MAPPED_HI := 0xffff_ffff_ffff

  lemma {:induction false} ZeroVal(ip: Ip)
    ensures Val(ip) == 0 <==> forall i :: 0 <= i < |ip| ==> ip[i] == 0
  {
    if ip != [] {
      var n := |ip| - 1;
      ZeroVal(ip[..n]);
      assert forall i :: 0 <= i < n ==> ip[..n][i] == ip[i];
    }
  }

  lemma TwoBytes(ip: Ip)
    requires |ip| == 2
    ensures Val(ip) == 256 * (ip[0] as int) + ip[1]
  {
    assert ip[..1][..0] == [];
    assert Val(ip[..1]) == ip[0];
  }

  lemma Pow2Of49()
    ensures Pow2(16) == 0x1_0000 && Pow2(32) == 0x1_0000_0000
    ensures Pow2(48) == 0x1_0000_0000_0000 && Pow2(49) == 0x2_0000_0000_0000
  {
    assert Pow2(8) == 256;
    Pow2Add(8, 8);
    Pow2Add(16, 16);
    Pow2Add(32, 16);
    Pow2Add(48, 1);
  }

  lemma PartsValue(zeros: Ip, ones: Ip, low: Ip)
    requires |ones| == 2 && |low| == 4
    ensures Val(low) < 0x1_0000_0000 && Val(ones) < 0x1_0000
    ensures Val(zeros + ones + low) == (Val(zeros) * 0x1_0000 + Val(ones)) * 0x1_0000_0000 + Val(low)
  {
    Pow2Of49();
    ValBound(low);
    ValBound(ones);
    ValConcat(zeros + ones, low);
    ValConcat(zeros, ones);
  }

  /** A 16-byte address by its first ten bytes, the next two, and the last four. */
  lemma ThreeParts(ip: Ip)
    requires |ip| == 16
    ensures Val(ip[12..]) < 0x1_0000_0000 && Val(ip[10..12]) < 0x1_0000
    ensures Val(ip) == (Val(ip[..10]) * 0x1_0000 + Val(ip[10..12])) * 0x1_0000_0000 + Val(ip[12..])
  {
    assert ip == ip[..10] + ip[10..12] + ip[12..];
    PartsValue(ip[..10], ip[10..12], ip[12..]);
  }

  lemma MappedBytes(ip: Ip)
    requires |ip| == 16
    ensures IsMapped(ip) <==> Val(ip[..10]) == 0 && Val(ip[10..12]) == 0xffff
  {
    ZeroVal(ip[..10]);
    assert forall i :: 0 <= i < 10 ==> ip[..10][i] == ip[i];
    TwoBytes(ip[10..12]);
  }

  lemma MappedParts(zeros: nat, ones: nat, low: nat)
    requires ones < 0x1_0000 && low < 0x1_0000_0000
    ensures zeros == 0 && ones == 0xffff
            <==> MAPPED_LO <= (zeros * 0x1_0000 + ones) * 0x1_0000_0000 + low <= MAPPED_HI
  {
  }

  /** The IPv4-mapped addresses are one block of 2^32 values. */
  lemma MappedBlock(ip: Ip)
    requires |ip| == 16
    ensures IsMapped(ip) <==> MAPPED_LO <= Val(ip) <= MAPPED_HI
  {
    ThreeParts(ip);
    MappedBytes(ip);
    MappedParts(Val(ip[..10]), Val(ip[10..12]), Val(ip[12..]));
  }

  /** Reading an IPv4-mapped address leaves its last 32 bits. */
  lemma MappedReads(ip: Ip)
    requires |ip| == 16 && IsMapped(ip)
    ensures BigInt(ip) == Val(ip) - MAPPED_LO
  {
    MappedBlock(ip);
    var head, low := ip[..12], ip[12..];
    assert ip == head + low;
    ValConcat(head, low);
    ValBound(low);
    Pow2Of49();
    DivModUnique(Val(ip), 0x1_0000_0000, Val(head), Val(low));
    DivModUnique(Val(ip), 0x1_0000_0000, 0xffff, Val(ip) - MAPPED_LO);
  }

  // ---- Big integers to bytes ----

  /** The len low-order bytes of n, big-endian. */
  function FixedBytes(n: nat, len: nat): Ip {
    if len == 0 then [] else FixedBytes(n / 256, len - 1) + [n % 256]
  }

  lemma {:induction false} FixedBytesVal(n: nat, len: nat)
    ensures |FixedBytes(n, len)| == len && Val(FixedBytes(n, len)) == n % Pow2(8 * len)
  {
    if len > 0 {
      FixedBytesVal(n / 256, len - 1);
      var p := Pow2(8 * (len - 1));
      Pow2Add(8, 8 * (len - 1));
      assert Pow2(8) == 256;
      assert FixedBytes(n, len)[..len - 1] == FixedBytes(n / 256, len - 1);
      ModSplit(n, p);
    }
  }

  lemma ModSplit(n: nat, p: nat)
    requires p > 0
    ensures n % (256 * p) == 256 * (n / 256 % p) + n % 256
  {
    var q, r := n / 256 / p, n / 256 % p;
    var low := n % 256;
    assert n == 256 * (q * p + r) + low;
    assert n == q * (256 * p) + (256 * r + low) by {
      MulSwap(q, p);
    }
    assert 0 <= 256 * r + low < 256 * p;
    DivModUnique(n, 256 * p, q, 256 * r + low);
  }

  lemma DivModUnique(n: int, d: int, q: int, r: int)
    requires d > 0 && n == q * d + r && 0 <= r < d
    ensures n / d == q && n % d == r
  {
    var k := n / d - q;
    assert n == (n / d) * d + n % d;
    assert k * d == r - n % d;
    MultipleBound(k, d);
  }

  lemma MultipleBound(k: int, d: int)
    requires d > 0
    ensures k > 0 ==> k * d >= d
    ensures k < 0 ==> k * d <= -d
  {
  }

  lemma {:induction false} FixedBytesOfVal(ip: Ip)
    ensures FixedBytes(Val(ip), |ip|) == ip
  {
    if ip != [] {
      var n := |ip| - 1;
      FixedBytesOfVal(ip[..n]);
      assert Val(ip) / 256 == Val(ip[..n]) && Val(ip) % 256 == ip[n];
    }
  }

  /** big.Int's Bytes: no leading zero, and nothing for zero. */
  function MinimalBytes(n: nat): Ip {
    if n == 0 then [] else MinimalBytes(n / 256) + [n % 256]
  }

  lemma {:induction false} ZeroFixed(len: nat)
    ensures FixedBytes(0, len) == seq(len, _ => 0)
  {
    if len > 0 {
      ZeroFixed(len - 1);
    }
  }

  /** Cutting or padding the minimal bytes on the left gives the fixed ones. */
  lemma {:induction false} MinimalToFixed(n: nat, len: nat)
    ensures var b := MinimalBytes(n);
            FixedBytes(n, len) == if |b| > len then b[|b| - len..] else seq(len - |b|, _ => 0) + b
    decreases len
  {
    if n == 0 {
      ZeroFixed(len);
    } else if len > 0 {
      MinimalToFixed(n / 256, len - 1);
      var b, c := MinimalBytes(n), MinimalBytes(n / 256);
      if |b| > len {
        assert b[|b| - len..] == c[|c| - (len - 1)..] + [n % 256];
      }
    }
  }

  /** What bigIntToIP computes: values below one give the zero address. */
  function ToIp(n: int, len: nat): Ip {
    FixedBytes(if n <= 0 then 0 else n, len)
  }

  /** bigIntToIP. */
  method BigIntToIP(n: int, ipLen: nat) returns (ip: array<byte>)
    ensures ip[..] == ToIp(n, ipLen)
  {
    ip := new byte[ipLen](_ => 0);
    if n <= 0 {
      ZeroFixed(ipLen);
      return;
    }
    var b := MinimalBytes(n);
    MinimalToFixed(n, ipLen);
    if |b| > ipLen {
      b := b[|b| - ipLen..];
    }
    forall i | 0 <= i < |b| {
      ip[ipLen - |b| + i] := b[i];
    }
  }

  /** ipToBigInt and bigIntToIP undo each other on canonical addresses. */
  lemma BigIntRoundTrip(ip: Ip)
    requires Standard(ip) && !IsMapped(ip)
    ensures ToIp(BigInt(ip), |ip|) == ip
  {
    FixedBytesOfVal(ip);
  }

  lemma ToIpRoundTrip(n: nat, len: nat)
    requires len == 4 || len == 16
    requires n < Pow2(8 * len)
    ensures BigInt(ToIp(n, len)) == n <==> !(len == 16 && MAPPED_LO <= n <= MAPPED_HI)
  {
    FixedBytesVal(n, len);
    var ip := ToIp(n, len);
    DivModUnique(n, Pow2(8 * len), 0, n);
    if len == 16 {
      MappedBlock(ip);
      if IsMapped(ip) {
        MappedReads(ip);
      }
    }
  }

  /** calculateOffsetIP, on values. */
  function OffsetIp(ip: Ip, offset: int): Ip {
    ToIp(BigInt(ip) + offset, |Normalize(ip)|)
  }

  method CalculateOffsetIP(ip: Ip, offset: int) returns (r: Ip)
    ensures r == OffsetIp(ip, offset)
  {
    var normalized := Normalize(ip);
    var n := Val(normalized);
    n := n + offset;
    var bytes := BigIntToIP(n, |normalized|);
    r := bytes[..];
  }

  /** calculateOffsetIP adds exactly when, and only when, the sum stays in the family and
    * outside the IPv4-mapped block; otherwise it wraps or stops at zero. */
  lemma OffsetExact(ip: Ip, offset: int)
    requires Standard(ip)
    ensures var len := |Normalize(ip)|;
            var sum := BigInt(ip) + offset;
            BigInt(OffsetIp(ip, offset)) == sum
            <==> 0 <= sum < Pow2(8 * len) && !(len == 16 && MAPPED_LO <= sum <= MAPPED_HI)
  {
    var len := |Normalize(ip)|;
    var sum := BigInt(ip) + offset;
    if 0 <= sum < Pow2(8 * len) {
      ToIpRoundTrip(sum, len);
    } else {
      FixedBytesVal(if sum <= 0 then 0 else sum, len);
      var r := OffsetIp(ip, offset);
      ValBound(r);
      ValBound(Normalize(r));
      if len == 16 {
        Pow2Mono(8 * |Normalize(r)|, 128);
      }
    }
  }

  lemma {:induction false} Pow2Mono(a: nat, b: nat)
    requires a <= b
    ensures Pow2(a) <= Pow2(b)
  {
    if a < b {
      Pow2Mono(a, b - 1);
    }
  }
}
