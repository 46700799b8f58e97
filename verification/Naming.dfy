/** Names and ids within length limits, ending in a short base-36 hash. The hash function itself
  * is a parameter. */
module Naming {
  import opened Common
  import opened IpBytes

  const CHARSET := "0123456789abcdefghijklmnopqrstuvwxyz"
  const BASE := 36
  const UUID_HASH_LENGTH := 5
  const MAX_ID_LENGTH := 255
  const CONNECTOR := "_"

  // ---- Base 36 ----

  /** The base-36 digits of n, most significant first, and none for zero. */
  function Encode(n: nat): string {
    if n == 0 then "" else Encode(n / BASE) + [CHARSET[n % BASE]]
  }

  predicate IsDigit(c: char) {
    '0' <= c <= '9' || 'a' <= c <= 'z'
  }

  function DigitOf(c: char): (d: nat)
    requires IsDigit(c)
    ensures d < BASE
  {
    if c <= '9' then c as int - '0' as int else 10 + (c as int - 'a' as int)
  }

  predicate AllDigits(s: string) {
    forall i :: 0 <= i < |s| ==> IsDigit(s[i])
  }

  function Decode(s: string): nat
    requires AllDigits(s)
  {
    if s == [] then 0 else BASE * Decode(s[..|s| - 1]) + DigitOf(s[|s| - 1])
  }

  lemma CharsetDigit(d: nat)
    requires d < BASE
    ensures IsDigit(CHARSET[d]) && DigitOf(CHARSET[d]) == d
  {
    assert forall k :: 0 <= k < 10 ==> CHARSET[k] == ('0' as int + k) as char;
    assert forall k :: 10 <= k < 36 ==> CHARSET[k] == ('a' as int + (k - 10)) as char;
  }

  lemma DigitCharset(c: char)
    requires IsDigit(c)
    ensures CHARSET[DigitOf(c)] == c
  {
    CharsetDigit(DigitOf(c));
  }

  /** Decoding gives the number back, and the digits have no leading zero. */
  lemma {:induction false} EncodeDecodes(n: nat)
    ensures AllDigits(Encode(n)) && Decode(Encode(n)) == n
    ensures Encode(n) != [] ==> Encode(n)[0] != '0'
  {
    if n > 0 {
      EncodeDecodes(n / BASE);
      CharsetDigit(n % BASE);
      assert Encode(n)[..|Encode(n)| - 1] == Encode(n / BASE);
      if n < BASE {
        assert Encode(0) == [];
      } else {
        EncodeNonEmpty(n / BASE);
      }
    }
  }

  lemma EncodeNonEmpty(n: nat)
    requires n > 0
    ensures Encode(n) != []
  {
  }

  /** Every digit string without a leading zero is the encoding of its value. */
  lemma {:induction false} DecodeEncodes(s: string)
    requires AllDigits(s) && (s != [] ==> s[0] != '0')
    ensures Encode(Decode(s)) == s
  {
    if s != [] {
      var n := |s| - 1;
      DecodeEncodes(s[..n]);
      DecodePositive(s);
      EncodeMore(Decode(s), Decode(s[..n]), s[..n], s[n]);
      assert s == s[..n] + [s[n]];
    }
  }

  lemma EncodeStep(q: nat, d: nat)
    requires d < BASE && BASE * q + d > 0
    ensures Encode(BASE * q + d) == Encode(q) + [CHARSET[d]]
  {
    QuotientAndRest(q, d);
  }

  lemma EncodeMore(v: nat, q: nat, t: string, c: char)
    requires IsDigit(c) && v == BASE * q + DigitOf(c) && v > 0 && Encode(q) == t
    ensures Encode(v) == t + [c]
  {
    DigitCharset(c);
    EncodeStep(q, DigitOf(c));
  }

  lemma QuotientAndRest(q: nat, d: nat)
    requires d < BASE
    ensures (BASE * q + d) / BASE == q && (BASE * q + d) % BASE == d
  {
  }

  lemma {:induction false} DecodePositive(s: string)
    requires AllDigits(s) && s != [] && s[0] != '0'
    ensures Decode(s) > 0
  {
    if |s| > 1 {
      DecodePositive(s[..|s| - 1]);
    } else {
      assert s[..0] == [];
      DigitCharset(s[0]);
      assert CHARSET[0] == '0';
    }
  }

  /** Different numbers have different encodings. */
  lemma EncodeInjective(m: nat, n: nat)
    requires Encode(m) == Encode(n)
    ensures m == n
  {
    EncodeDecodes(m);
    EncodeDecodes(n);
  }

  function Pow36(k: nat): (p: nat)
    ensures p > 0
  {
    if k == 0 then 1 else BASE * Pow36(k - 1)
  }

  /** A number has more than k digits exactly from 36^k on. */
  lemma {:induction false} EncodeLength(n: nat, k: nat)
    ensures |Encode(n)| > k <==> n >= Pow36(k)
  {
    if k > 0 && n > 0 {
      EncodeLength(n / BASE, k - 1);
    }
  }

  /** Sha1WithCustomizedCharset, from the bytes of the hash: digits are appended from the least
    * significant on, then reversed in place. */
  method Base36(sum: seq<byte>) returns (r: string)
    ensures r == Encode(Val(sum))
  {
    var value: nat := Val(sum);
    var digits: string := [];
    while value > 0
      invariant Encode(Val(sum)) == Encode(value) + Reversed(digits)
    {
      assert (digits + [CHARSET[value % BASE]])[..|digits|] == digits;
      digits := digits + [CHARSET[value % BASE]];
      value := value / BASE;
    }
    var result := new char[|digits|](i requires 0 <= i < |digits| => digits[i]);
    assert result[..] == digits;
    ReverseInPlace(result);
    r := result[..];
  }

  function Reversed(s: string): string {
    if s == [] then [] else [s[|s| - 1]] + Reversed(s[..|s| - 1])
  }

  lemma {:induction false} ReversedAt(s: string, k: nat)
    requires k < |s|
    ensures |Reversed(s)| == |s| && Reversed(s)[k] == s[|s| - 1 - k]
  {
    if k > 0 {
      ReversedAt(s[..|s| - 1], k - 1);
    } else if |s| > 1 {
      ReversedAt(s[..|s| - 1], 0);
    }
  }

  method ReverseInPlace(a: array<char>)
    modifies a
    ensures a[..] == Reversed(old(a[..]))
  {
    ghost var was := a[..];
    var i, j := 0, a.Length - 1;
    while i < j
      invariant 0 <= i <= a.Length && j == a.Length - 1 - i && i <= j + 1
      invariant forall k :: 0 <= k < i ==> a[k] == was[a.Length - 1 - k] && a[a.Length - 1 - k] == was[k]
      invariant forall k :: i <= k <= j ==> a[k] == was[k]
    {
      a[i], a[j] := a[j], a[i];
      i, j := i + 1, j - 1;
    }
    forall k | 0 <= k < a.Length
      ensures a[k] == was[a.Length - 1 - k]
    {
      var m := a.Length - 1 - k;
      assert k > j ==> m < i && a[a.Length - 1 - m] == was[m];
    }
    ReversedIs(was, a[..]);
  }

  lemma ReversedIs(s: string, r: string)
    requires |r| == |s| && forall k :: 0 <= k < |s| ==> r[k] == s[|s| - 1 - k]
    ensures r == Reversed(s)
  {
    forall k | 0 <= k < |s|
      ensures |Reversed(s)| == |s| && Reversed(s)[k] == r[k]
    {
      ReversedAt(s, k);
    }
    assert s == [] ==> Reversed(s) == r;
  }

  // ---- Names ----

  /** The first five digits of the hash; None where slicing a shorter string would panic. */
  function TruncateUIDHash(sha1: string -> seq<byte>, uid: string): Option<string> {
    var digits := Encode(Val(sha1(uid)));
    if |digits| >= UUID_HASH_LENGTH then Some(digits[..UUID_HASH_LENGTH]) else None
  }

  lemma TruncateDefined(sha1: string -> seq<byte>, uid: string)
    ensures TruncateUIDHash(sha1, uid).Some? <==> Val(sha1(uid)) >= Pow36(4)
    ensures TruncateUIDHash(sha1, uid).Some? ==> |TruncateUIDHash(sha1, uid).value| == UUID_HASH_LENGTH
  {
    EncodeLength(Val(sha1(uid)), 4);
  }

  function NonEmpty(parts: seq<string>): seq<string> {
    if parts == [] then []
    else
      var before := NonEmpty(parts[..|parts| - 1]);
      if |parts[|parts| - 1]| > 0 then before + [parts[|parts| - 1]] else before
  }

  /** connectStrings with the connector "_". */
  method ConnectStrings(parts: seq<string>) returns (r: string)
    ensures r == Connect(parts)
  {
    var strParts: seq<string> := [];
    for i := 0 to |parts|
      invariant strParts == NonEmpty(parts[..i])
    {
      assert parts[..i + 1][..i] == parts[..i];
      if |parts[i]| > 0 {
        strParts := strParts + [parts[i]];
      }
    }
    assert parts[..|parts|] == parts;
    r := Join(CONNECTOR, strParts);
  }

  function Connect(parts: seq<string>): string {
    Join(CONNECTOR, NonEmpty(parts))
  }

  function Sep(s: string): nat {
    if s == "" then 0 else 1
  }

  function Length(parts: seq<string>): nat {
    if parts == [] then 0 else Length(parts[..|parts| - 1]) + |parts[|parts| - 1]| + Sep(parts[|parts| - 1])
  }

  /** The length of a connected name: all parts, and a separator between those that are not empty. */
  lemma {:induction false} ConnectLength(parts: seq<string>)
    ensures Connect(parts) == "" ==> Length(parts) == 0
    ensures Connect(parts) != "" ==> |Connect(parts)| == Length(parts) - 1
    ensures NonEmpty(parts) == [] <==> Connect(parts) == ""
  {
    if parts != [] {
      var n := |parts| - 1;
      ConnectLength(parts[..n]);
      if parts[n] != "" {
        var some := NonEmpty(parts[..n]) + [parts[n]];
        assert some[..|some| - 1] == NonEmpty(parts[..n]);
      }
    }
  }

  lemma ConnectTwo(a: string, b: string)
    ensures Connect([a, b]) == if a == "" then b else if b == "" then a else a + CONNECTOR + b
  {
    assert [a, b][..1] == [a] && [a][..0] == [];
    assert NonEmpty([a]) == if a == "" then [] else [a];
    assert NonEmpty([a, b]) == NonEmpty([a]) + if b == "" then [] else [b];
    if a != "" && b != "" {
      assert NonEmpty([a, b]) == [a, b];
      assert Join(CONNECTOR, [a, b]) == Join(CONNECTOR, [a]) + CONNECTOR + b;
    }
  }

  /** normalizeNameByLimit; None where the slice bound is negative and Go panics. */
  function NormalizeNameByLimit(name: string, suffix: string, limit: int, hashFn: string -> string): Option<string> {
    var newName := Connect([name, suffix]);
    if |newName| <= limit then Some(newName)
    else
      var hash := hashFn(if |suffix| > 0 then suffix else name);
      var nameLength := if |name| < limit - |hash| - 1 then |name| else limit - |hash| - 1;
      if nameLength < 0 then None else Some(name[..nameLength] + CONNECTOR + hash)
  }

  /** The limit is kept, exactly whenever the plain name fits or the hash and a separator do; the
    * result starts like the name and, when cut, ends with the hash. */
  lemma NormalizeFits(name: string, suffix: string, limit: int, hashFn: string -> string)
    ensures var r := NormalizeNameByLimit(name, suffix, limit, hashFn);
            var hash := hashFn(if |suffix| > 0 then suffix else name);
            && (r.Some? <==> |Connect([name, suffix])| <= limit || |hash| + 1 <= limit)
            && (r.Some? ==> |r.value| <= limit)
            && (r.Some? && |Connect([name, suffix])| > limit ==>
                  exists k :: 0 <= k <= |name| && r.value == name[..k] + CONNECTOR + hash)
  {
    var hash := hashFn(if |suffix| > 0 then suffix else name);
    var k := if |name| < limit - |hash| - 1 then |name| else limit - |hash| - 1;
    ConnectTwo(name, suffix);
    assert k >= 0 ==> k <= |name|;
  }

  /** GenerateIDByObject; None where slicing the hash would panic. */
  function GenerateIDByObject(sha1: string -> seq<byte>, name: string, uid: string): Option<string> {
    match TruncateUIDHash(sha1, uid)
    case None => None
    case Some(suffix) =>
      var desired := Connect([name, suffix]);
      if |desired| <= MAX_ID_LENGTH then Some(desired)
      else
        var valueLen := MAX_ID_LENGTH - |suffix| - 1;
        if 0 <= valueLen <= |name| then Some(Connect([name[..valueLen], suffix])) else None
  }

  /** An id never exceeds 255 characters; it is the name, cut only when it must be, and the hash. */
  lemma IdFits(sha1: string -> seq<byte>, name: string, uid: string)
    ensures var r := GenerateIDByObject(sha1, name, uid);
            && (r.Some? <==> Val(sha1(uid)) >= Pow36(4))
            && (r.Some? ==>
                  var hash := TruncateUIDHash(sha1, uid).value;
                  && |r.value| <= MAX_ID_LENGTH
                  && r.value == (if name == "" then hash
                                 else name[..if |name| <= 249 then |name| else 249] + CONNECTOR + hash))
  {
    TruncateDefined(sha1, uid);
    if TruncateUIDHash(sha1, uid).Some? {
      var hash := TruncateUIDHash(sha1, uid).value;
      ConnectTwo(name, hash);
      if |name| > 249 {
        ConnectTwo(name[..249], hash);
      } else {
        assert name[..|name|] == name;
      }
    }
  }

  function DisplayName(resName: string, prefix: string, suffix: string, project: string, cluster: string): string {
    Connect([prefix, cluster, resName, project, suffix])
  }

  function AdjustedLimit(limit: int, prefix: string, suffix: string): int {
    limit - |prefix| - |suffix| - Sep(prefix) - Sep(suffix)
  }

  /** GenerateTruncName, with a hash function that yields the truncated hash. */
  function GenerateTruncName(limit: int, resName: string, prefix: string, suffix: string, project: string,
                             cluster: string,
                             hashFn: string -> string): Option<string>
  {
    var adjusted := AdjustedLimit(limit, prefix, suffix);
    var oldName := DisplayName(resName, "", "", project, cluster);
    if |oldName| > adjusted then
      match NormalizeNameByLimit(oldName, "", adjusted, hashFn)
      case None => None
      case Some(newName) => Some(DisplayName(newName, prefix, suffix, "", ""))
    else Some(DisplayName(resName, prefix, suffix, project, cluster))
  }

  lemma DisplayLength(resName: string, prefix: string, suffix: string, project: string, cluster: string)
    ensures var total := |prefix| + Sep(prefix) + |cluster| + Sep(cluster) + |resName| + Sep(resName)
                         + |project| + Sep(project) + |suffix| + Sep(suffix);
            |DisplayName(resName, prefix, suffix, project, cluster)| == if total == 0 then 0 else total - 1
  {
    var five := AppendFive(prefix, cluster, resName, project, suffix);
    ConnectLength(five);
  }

  lemma AppendFive(a: string, b: string, c: string, d: string, e: string) returns (five: seq<string>)
    ensures five == [a, b, c, d, e]
    ensures Length(five) == |a| + Sep(a) + |b| + Sep(b) + |c| + Sep(c) + |d| + Sep(d) + |e| + Sep(e)
  {
    five := [];
    five := AppendOne(five, a);
    five := AppendOne(five, b);
    five := AppendOne(five, c);
    five := AppendOne(five, d);
    five := AppendOne(five, e);
  }

  lemma AppendOne(parts: seq<string>, p: string) returns (more: seq<string>)
    ensures more == parts + [p] && Length(more) == Length(parts) + |p| + Sep(p)
  {
    more := parts + [p];
    assert more[..|parts|] == parts;
  }

  lemma {:induction false} NonEmptyConcat(a: seq<string>, b: seq<string>)
    ensures NonEmpty(a + b) == NonEmpty(a) + NonEmpty(b)
  {
    if b == [] {
      assert a + b == a;
    } else {
      assert (a + b)[..|a + b| - 1] == a + b[..|b| - 1];
      NonEmptyConcat(a, b[..|b| - 1]);
    }
  }

  lemma {:induction false} JoinConcat(a: seq<string>, b: seq<string>)
    requires a != [] && b != []
    ensures Join(CONNECTOR, a + b) == Join(CONNECTOR, a) + CONNECTOR + Join(CONNECTOR, b)
  {
    assert (a + b)[..|a + b| - 1] == a + b[..|b| - 1];
    if |b| > 1 {
      JoinConcat(a, b[..|b| - 1]);
    } else {
      assert a + b[..0] == a;
    }
  }

  /** Connecting in two steps is connecting at once. */
  lemma ConnectConcat(a: seq<string>, b: seq<string>)
    ensures Connect(a + b) == Connect([Connect(a), Connect(b)])
  {
    NonEmptyConcat(a, b);
    ConnectTwo(Connect(a), Connect(b));
    ConnectLength(a);
    ConnectLength(b);
    if NonEmpty(a) == [] {
      assert NonEmpty(a) + NonEmpty(b) == NonEmpty(b);
    } else if NonEmpty(b) == [] {
      assert NonEmpty(a) + NonEmpty(b) == NonEmpty(a);
    } else {
      JoinConcat(NonEmpty(a), NonEmpty(b));
    }
  }

  lemma ConnectOne(a: string)
    ensures Connect([a]) == a && Connect([]) == ""
  {
    assert [a][..0] == [];
    assert NonEmpty([a]) == if a == "" then [] else [a];
  }

  /** What a truncated name is made of: prefix, cluster, name, project and suffix in this order, those that are not
    * empty; if the three in the middle are too long, what they make is cut and gets its hash. */
  lemma TruncNameIs(limit: int, resName: string, prefix: string, suffix: string, project: string, cluster: string,
                    hashFn: string -> string)
    ensures var r := GenerateTruncName(limit, resName, prefix, suffix, project, cluster, hashFn);
            var middle := Connect([cluster, resName, project]);
            r.Some? ==> exists m :: Around(prefix, m, suffix, r.value)
                                    && if |middle| <= AdjustedLimit(limit, prefix, suffix) then m == middle
                                       else CutTo(middle, hashFn(middle), m)
  {
    var r := GenerateTruncName(limit, resName, prefix, suffix, project, cluster, hashFn);
    var middle, adjusted := Connect([cluster, resName, project]), AdjustedLimit(limit, prefix, suffix);
    MiddleOnly(resName, project, cluster);
    if |middle| <= adjusted {
      AllFive(prefix, cluster, resName, project, suffix);
      assert Around(prefix, middle, suffix, r.value);
    } else if r.Some? {
      var newName := NormalizeNameByLimit(middle, "", adjusted, hashFn).value;
      NormalizeFits(middle, "", adjusted, hashFn);
      ConnectTwo(middle, "");
      assert CutTo(middle, hashFn(middle), newName);
      AroundMiddle(prefix, newName, suffix);
      assert Around(prefix, newName, suffix, r.value);
    }
  }

  predicate Around(prefix: string, m: string, suffix: string, r: string) {
    r == Connect([Connect([prefix, m]), suffix])
  }

  predicate CutTo(name: string, hash: string, m: string) {
    exists k :: 0 <= k <= |name| && m == name[..k] + CONNECTOR + hash
  }

  lemma AllFive(prefix: string, cluster: string, resName: string, project: string, suffix: string)
    ensures DisplayName(resName, prefix, suffix, project, cluster)
            == Connect([Connect([prefix, Connect([cluster, resName, project])]), suffix])
  {
    ConnectConcat([prefix], [cluster, resName, project]);
    ConnectConcat([prefix, cluster, resName, project], [suffix]);
    ConnectOne(prefix);
    ConnectOne(suffix);
    assert [prefix] + [cluster, resName, project] == [prefix, cluster, resName, project];
    assert [prefix, cluster, resName, project] + [suffix] == [prefix, cluster, resName, project, suffix];
  }

  lemma MiddleOnly(resName: string, project: string, cluster: string)
    ensures DisplayName(resName, "", "", project, cluster) == Connect([cluster, resName, project])
  {
    AllFive("", cluster, resName, project, "");
    ConnectTwo("", Connect([cluster, resName, project]));
    ConnectTwo(Connect([cluster, resName, project]), "");
  }

  lemma AroundMiddle(prefix: string, m: string, suffix: string)
    ensures DisplayName(m, prefix, suffix, "", "") == Connect([Connect([prefix, m]), suffix])
  {
    AllFive(prefix, "", m, "", suffix);
    ConnectConcat(["", m], [""]);
    ConnectOne("");
    ConnectTwo("", m);
    ConnectTwo(m, "");
    assert ["", m] + [""] == ["", m, ""];
  }

  /** A truncated name keeps its limit whenever the name without prefix and suffix fits, or the limit
    * leaves room for them, the hash and the separators; otherwise there is no name. */
  lemma TruncNameFits(limit: int, resName: string, prefix: string, suffix: string, project: string, cluster: string,
                      hashFn: string -> string)
    ensures var r := GenerateTruncName(limit, resName, prefix, suffix, project, cluster, hashFn);
            var adjusted := AdjustedLimit(limit, prefix, suffix);
            var oldName := DisplayName(resName, "", "", project, cluster);
            && (r.Some? <==> |oldName| <= adjusted || |hashFn(oldName)| + 1 <= adjusted)
            && (r.Some? ==> |r.value| <= limit)
  {
    var adjusted := AdjustedLimit(limit, prefix, suffix);
    var oldName := DisplayName(resName, "", "", project, cluster);
    ConnectTwo(oldName, "");
    NormalizeFits(oldName, "", adjusted, hashFn);
    DisplayLength(resName, "", "", project, cluster);
    if |oldName| > adjusted {
      var newName := NormalizeNameByLimit(oldName, "", adjusted, hashFn);
      if newName.Some? {
        DisplayLength(newName.value, prefix, suffix, "", "");
      }
    } else {
      DisplayLength(resName, prefix, suffix, project, cluster);
    }
  }
}
