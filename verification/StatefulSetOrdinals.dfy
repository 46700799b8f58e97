/** The ordinals of a StatefulSet: the desired window, the update predicate in 32-bit arithmetic,
  * and the ordinal of a port. */
module StatefulSetOrdinals {
  import opened Common

  const MAX_INT32 := 0x7fff_ffff
  const MAX_INT64 := 0x7fff_ffff_ffff_ffff

  /** The desired ordinals: a missing start is 0, a missing replica count is 1. The API server
    * admits no negative value. */
  datatype Desired = Desired(start: nat, replicas: nat)

  predicate Int32(d: Desired) {
    d.start <= MAX_INT32 && d.replicas <= MAX_INT32
  }

  predicate InWindow(d: Desired, i: int) {
    d.start <= i < d.start + d.replicas
  }

  // ---- The update predicate ----

  /** Some ordinal of the old window is missing from the new one. */
  ghost predicate Shrinks(before: Desired, after: Desired) {
    exists i :: InWindow(before, i) && !InWindow(after, i)
  }

  /** The int32 that an integer wraps around to. */
  function Wrap32(n: int): int {
    (n + 0x8000_0000) % 0x1_0000_0000 - 0x8000_0000
  }

  function End32(d: Desired): int {
    Wrap32(Wrap32(d.start + d.replicas) - 1)
  }

  /** The UpdateFunc of PredicateFuncsForStatefulSet. */
  predicate Admits(before: Desired, after: Desired) {
    after.start > before.start || End32(after) < End32(before)
  }

  predicate EndOverflows(d: Desired) {
    d.start + d.replicas - 1 > MAX_INT32
  }

  lemma End32Value(d: Desired)
    requires Int32(d)
    ensures var last := d.start + d.replicas - 1;
            End32(d) == if EndOverflows(d) then last - 0x1_0000_0000 else last
  {
    var sum := d.start + d.replicas;
    WrapOnce(sum);
    assert sum <= MAX_INT32 ==> Wrap32(sum) == sum;
    assert sum > MAX_INT32 ==> Wrap32(sum) == sum - 0x1_0000_0000;
    WrapOnce(Wrap32(sum) - 1);
  }

  lemma WrapOnce(n: int)
    requires -0x8000_0001 <= n < 0x1_0000_0000
    ensures Wrap32(n) == if n > MAX_INT32 then n - 0x1_0000_0000 else if n < -0x8000_0000 then n + 0x1_0000_0000 else n
  {
  }

  /** For a window that was not empty, the predicate fires exactly on a missing ordinal if and only
    * if the start moves up, or the last ordinals of both windows, or of neither, overflow. */
  lemma AdmitsExact(before: Desired, after: Desired)
    requires Int32(before) && Int32(after) && before.replicas > 0
    ensures (Admits(before, after) <==> Shrinks(before, after))
            <==> after.start > before.start || (EndOverflows(before) <==> EndOverflows(after))
  {
    var last := before.start + before.replicas - 1;
    End32Value(before);
    End32Value(after);
    if after.start > before.start {
      assert InWindow(before, before.start) && !InWindow(after, before.start);
    } else if after.start + after.replicas - 1 < last {
      assert InWindow(before, last) && !InWindow(after, last);
    }
  }

  /** When only the old window's end overflows, an event with a shrinking window is missed: from two
    * replicas that start at the last ordinal, to one that starts at 0. */
  lemma OverflowMisses()
    ensures var before, after := Desired(MAX_INT32, 2), Desired(0, 1);
            Int32(before) && Int32(after) && Shrinks(before, after) && !Admits(before, after)
  {
    End32Value(Desired(MAX_INT32, 2));
    End32Value(Desired(0, 1));
    assert InWindow(Desired(MAX_INT32, 2), MAX_INT32) && !InWindow(Desired(0, 1), MAX_INT32);
  }

  // ---- The window of the reconciler ----

  /** GetOrdinalRange, on 64-bit integers. */
  function OrdinalRange(d: Desired): (int, int) {
    var none: (int, int) := (-1, -1);
    if d.replicas <= 0 then none else (d.start, d.start + d.replicas - 1)
  }

  /** The test of handleReplicaChange is absence from the window, which an empty window makes true of every
    * ordinal but -1. */
  lemma OutOfRangeMeaning(d: Desired, idx: int)
    requires idx != -1
    ensures idx < OrdinalRange(d).0 || idx > OrdinalRange(d).1 <==> !InWindow(d, idx)
  {
  }

  // ---- The ordinal of a port ----

  function DigitValue(c: char): nat
    requires '0' <= c <= '9'
  {
    c as int - '0' as int
  }

  predicate AllDigits(s: string) {
    forall i :: 0 <= i < |s| ==> '0' <= s[i] <= '9'
  }

  function DigitsValue(s: string): nat
    requires AllDigits(s)
  {
    if s == [] then 0 else 10 * DigitsValue(s[..|s| - 1]) + DigitValue(s[|s| - 1])
  }

  /** strconv.Atoi */
  function Atoi(s: string): Option<int> {
    var digits := if s != [] && (s[0] == '+' || s[0] == '-') then s[1..] else s;
    if digits == [] || !AllDigits(digits) then None
    else
      var v: int := if s[0] == '-' then 0 - DigitsValue(digits) else DigitsValue(digits);
      if -MAX_INT64 - 1 <= v <= MAX_INT64 then Some(v) else None
  }

  /** An optional sign and at least one digit, with a value of 64 bits. */
  lemma AtoiExactly(s: string, v: int)
    ensures Atoi(s) == Some(v)
            <==> -0x8000_0000_0000_0000 <= v < 0x8000_0000_0000_0000
                 && exists d: string ::
                      d != "" && AllDigits(d)
                      && ((s == d && v == DigitsValue(d)) || (s == "+" + d && v == DigitsValue(d))
                          || (s == "-" + d && v == 0 - DigitsValue(d)))
  {
    if s != "" {
      var digits := if s[0] == '+' || s[0] == '-' then s[1..] else s;
      assert s == [s[0]] + s[1..];
      assert s == digits || s == "+" + digits || s == "-" + digits;
      assert AllDigits(digits) ==> (Atoi(s) == Some(v) ==> digits != "" && AllDigits(digits));
      forall d: string | d != "" && AllDigits(d) && (s == d || s == "+" + d || s == "-" + d)
        ensures d == digits
      {
        assert '0' <= d[0] <= '9';
        assert s == d || s[1..] == d;
      }
    }
  }

  /** parseIndexFromPodName; LastDash is strings.LastIndex(name, "-"). */
  function IndexFromPodName(name: string): int {
    var i := LastDash(name);
    if i == -1 then -1
    else match Atoi(name[i + 1..])
      case Some(v) => v
      case None => -1
  }

  function LastDash(s: string): (i: int)
    ensures -1 <= i < |s|
    ensures i >= 0 ==> s[i] == '-'
    ensures forall k :: i < k < |s| ==> s[k] != '-'
  {
    if s == [] then -1 else if s[|s| - 1] == '-' then |s| - 1 else LastDash(s[..|s| - 1])
  }

  /** A port, with the empty string for a tag it lacks. */
  datatype Port = Port(stsUid: string, namespace: string, podName: string, podUid: string, podIndex: string)

  /** stsPodOrdinalFromPort */
  function PortOrdinal(p: Port): int {
    if p.podIndex != "" && Atoi(p.podIndex).Some? then Atoi(p.podIndex).value
    else if p.podName == "" then -1
    else IndexFromPodName(p.podName)
  }

  /** strconv.Itoa on an ordinal. */
  function Itoa(n: nat): string {
    if n < 10 then [Digit(n)] else Itoa(n / 10) + [Digit(n % 10)]
  }

  function Digit(d: nat): char
    requires d < 10
  {
    ('0' as int + d) as char
  }

  lemma {:induction false} ItoaValue(n: nat)
    ensures Itoa(n) != [] && AllDigits(Itoa(n)) && DigitsValue(Itoa(n)) == n
  {
    if n >= 10 {
      ItoaValue(n / 10);
      assert Itoa(n)[..|Itoa(n)| - 1] == Itoa(n / 10);
    } else {
      assert Itoa(n)[..0] == [];
    }
  }

  lemma AtoiItoa(n: nat)
    requires n <= MAX_INT64
    ensures Atoi(Itoa(n)) == Some(n)
  {
    ItoaValue(n);
    assert '0' <= Itoa(n)[0] <= '9';
  }

  lemma LastDashAt(s: string, i: nat)
    requires i < |s| && s[i] == '-' && forall k :: i < k < |s| ==> s[k] != '-'
    ensures LastDash(s) == i
  {
    var j := LastDash(s);
    assert j >= i;
    assert j <= i;
  }

  /** The ordinal is read back from the name Kubernetes gives the Pod, whatever the StatefulSet is
    * called, dashes and digits included. */
  lemma OrdinalReadBack(sts: string, n: nat)
    requires n <= MAX_INT64
    ensures IndexFromPodName(sts + "-" + Itoa(n)) == n
  {
    ItoaValue(n);
    AtoiItoa(n);
    var name := sts + "-" + Itoa(n);
    forall k | |sts| < k < |name|
      ensures name[k] != '-'
    {
      assert name[k] == Itoa(n)[k - |sts| - 1];
    }
    LastDashAt(name, |sts|);
    assert name[|sts| + 1..] == Itoa(n);
  }

  /** The ordinal of any port: its index tag if that is a number, else the number behind the last dash of its Pod's
    * name, else -1. */
  lemma PortOrdinalExactly(p: Port, head: string, tail: string)
    ensures Atoi(p.podIndex).Some? ==> PortOrdinal(p) == Atoi(p.podIndex).value
    ensures Atoi(p.podIndex).None? && '-' !in p.podName ==> PortOrdinal(p) == -1
    ensures Atoi(p.podIndex).None? && p.podName == head + "-" + tail && '-' !in tail ==>
              PortOrdinal(p) == if Atoi(tail).Some? then Atoi(tail).value else -1
  {
    var name := head + "-" + tail;
    if p.podName == name && '-' !in tail {
      forall k | |head| < k < |name| ensures name[k] != '-' {
        assert name[k] == tail[k - |head| - 1];
      }
      LastDashAt(name, |head|);
      assert name[|head| + 1..] == tail;
    }
  }

  /** A port made for Pod n of a StatefulSet has ordinal n, by its index tag or, where the tag is
    * missing or unreadable, by the Pod name. */
  lemma PortOrdinalReadBack(p: Port, sts: string, n: nat)
    requires n <= MAX_INT64 && p.podName == sts + "-" + Itoa(n)
    requires p.podIndex == "" || Atoi(p.podIndex).None? || p.podIndex == Itoa(n)
    ensures PortOrdinal(p) == n
  {
    AtoiItoa(n);
    OrdinalReadBack(sts, n);
  }
}
