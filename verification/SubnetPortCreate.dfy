/** Creation of SubnetPort CRs for Pods. The informer cache may miss a port at any time, the
  * reconciles of one Pod are serialised, and everything else happens between any two calls to
  * the API server. */
module SubnetPortCreate {
  import opened Common

  type Uid = string
  type Name = string

  const MAX_POD_NAME := 57
  const SUFFIX := 5
  const MAX_CREATE_ATTEMPTS := 2

  // ---- Names ----

  /** strings.TrimRight(s, "-.") */
  function TrimRight(s: string): (r: string)
    ensures |r| <= |s| && r == s[..|r|]
    ensures r != [] ==> r[|r| - 1] !in "-."
  {
    if s != [] && s[|s| - 1] in "-." then TrimRight(s[..|s| - 1]) else s
  }

  /** The first limit characters of s, or all of them. */
  function Cut(s: string, limit: nat): (r: string)
    ensures |r| <= limit && |r| <= |s|
  {
    if |s| > limit then s[..limit] else s
  }

  /** GenerateSubnetPortName with the given random text. */
  function PortName(podName: string, uid: Uid, attempt: nat, random: string): Name {
    var prefix := TrimRight(Cut(podName, MAX_POD_NAME));
    if attempt == 0 then prefix + "-" + Cut(uid, SUFFIX) else prefix + "-" + random
  }

  lemma {:induction false} TrimRightMeaning(s: string)
    ensures forall i :: |TrimRight(s)| <= i < |s| ==> s[i] == '-' || s[i] == '.'
    ensures TrimRight(s) != [] ==> TrimRight(s)[|TrimRight(s)| - 1] != '-' && TrimRight(s)[|TrimRight(s)| - 1] != '.'
  {
    if s != [] && s[|s| - 1] in "-." {
      TrimRightMeaning(s[..|s| - 1]);
    }
  }

  /** The first k characters of the Pod name: as many of the first 57 as end with neither a dash nor a dot. */
  predicate CleanPrefix(podName: string, k: nat) {
    && k <= 57 && k <= |podName|
    && (k > 0 ==> podName[k - 1] != '-' && podName[k - 1] != '.')
    && forall i :: k <= i < 57 && i < |podName| ==> podName[i] == '-' || podName[i] == '.'
  }

  /** A generated name is that prefix, a dash, and the first five characters of the Pod's UID, or for a later
    * attempt the random text. */
  lemma PortNameIs(podName: string, uid: Uid, attempt: nat, random: string)
    ensures exists k: nat :: CleanPrefix(podName, k)
              && PortName(podName, uid, attempt, random)
                 == podName[..k] + "-" + if attempt > 0 then random else if |uid| > 5 then uid[..5] else uid
  {
    var cut := if |podName| > 57 then podName[..57] else podName;
    TrimRightMeaning(cut);
    assert CleanPrefix(podName, |TrimRight(cut)|);
    assert podName[..|TrimRight(cut)|] == TrimRight(cut);
  }

  // ---- The steps ----

  /** Where the reconcile of a Pod is: before the next call to Create, Get or List. */
  datatype Place = Idle | Creating(attempt: nat, name: Name) | Getting(attempt: nat, name: Name) | Listing(attempt: nat)

  /** The SubnetPorts of a namespace with the Pod that controls each, and the reconciles. */
  datatype State = State(live: map<Name, Option<Uid>>, places: map<Uid, Place>)

  const INIT := State(map[], map[])

  datatype Step =
    | Start(uid: Uid, cached: bool)    // the cache shows a port of the Pod, or none
    | Create(uid: Uid)
    | Get(uid: Uid)
    | List(uid: Uid, random: string)   // with the text for the next name
    | Fail(uid: Uid)                   // the call returns an error
    | Delete(name: Name)               // by anybody, a Pod's own reconcile included
    | Foreign(name: Name)              // somebody else creates a port

  function At(s: State, uid: Uid): Place {
    if uid in s.places then s.places[uid] else Idle
  }

  predicate Controls(s: State, uid: Uid, n: Name) {
    n in s.live && s.live[n] == Some(uid)
  }

  function Name0(podName: Uid -> string, uid: Uid): Name {
    PortName(podName(uid), uid, 0, "")
  }

  predicate Enabled(s: State, step: Step) {
    match step
    case Start(uid, _) => At(s, uid).Idle?
    case Create(uid) => At(s, uid).Creating?
    case Get(uid) => At(s, uid).Getting?
    case List(uid, _) => At(s, uid).Listing?
    case Fail(uid) => true
    case Delete(n) => n in s.live
    case Foreign(n) => n !in s.live
  }

  function Go(s: State, uid: Uid, p: Place): State {
    s.(places := s.places[uid := p])
  }

  predicate HasPort(s: State, uid: Uid) {
    exists n :: n in s.live && s.live[n] == Some(uid)
  }

  function Next(podName: Uid -> string, s: State, step: Step): State {
    if !Enabled(s, step) then s
    else match step
      case Start(uid, cached) => if cached then s else Go(s, uid, Creating(0, Name0(podName, uid)))
      case Create(uid) =>
        var n := At(s, uid).name;
        if n in s.live then Go(s, uid, Getting(At(s, uid).attempt, n))
        else Go(s, uid, Idle).(live := s.live[n := Some(uid)])
      case Get(uid) =>
        var p := At(s, uid);
        if p.name !in s.live || s.live[p.name] == Some(uid) then Go(s, uid, Idle)
        else Go(s, uid, Listing(p.attempt))
      case List(uid, random) =>
        var next := At(s, uid).attempt + 1;
        if HasPort(s, uid) || next >= MAX_CREATE_ATTEMPTS then Go(s, uid, Idle)
        else Go(s, uid, Creating(next, PortName(podName(uid), uid, next, random)))
      case Fail(uid) => Go(s, uid, Idle)
      case Delete(n) => s.(live := s.live - {n})
      case Foreign(n) => s.(live := s.live[n := None])
  }

  function Run(podName: Uid -> string, steps: seq<Step>): State {
    if steps == [] then INIT else Next(podName, Run(podName, steps[..|steps| - 1]), steps[|steps| - 1])
  }

  // ---- In every run ----

  ghost predicate AtMostOne(s: State, uid: Uid) {
    forall m, n :: Controls(s, uid, m) && Controls(s, uid, n) ==> m == n
  }

  /** The first attempt uses the deterministic name; a later one follows a List that found nothing. */
  predicate AttemptOk(podName: Uid -> string, s: State, uid: Uid) {
    match At(s, uid)
    case Idle => true
    case Creating(k, n) => k < MAX_CREATE_ATTEMPTS && (if k == 0 then n == Name0(podName, uid) else !HasPort(s, uid))
    case Getting(k, n) => k < MAX_CREATE_ATTEMPTS && (k == 0 ==> n == Name0(podName, uid))
    case Listing(k) => k < MAX_CREATE_ATTEMPTS
  }

  lemma {:induction false} AttemptsOk(podName: Uid -> string, steps: seq<Step>, uid: Uid)
    ensures AttemptOk(podName, Run(podName, steps), uid)
  {
    if steps != [] {
      AttemptsOk(podName, steps[..|steps| - 1], uid);
    }
  }

  /** A second port for a Pod appears in one way only: the reconcile, misled by the cache, starts
    * over with the deterministic name, which is free, while the Pod controls another port. */
  lemma SecondPort(podName: Uid -> string, steps: seq<Step>, step: Step, uid: Uid)
    requires AtMostOne(Run(podName, steps), uid)
    ensures !AtMostOne(Run(podName, steps + [step]), uid)
            <==> step == Create(uid) && At(Run(podName, steps), uid) == Creating(0, Name0(podName, uid))
                 && Name0(podName, uid) !in Run(podName, steps).live && HasPort(Run(podName, steps), uid)
  {
    assert (steps + [step])[..|steps|] == steps;
    AttemptsOk(podName, steps, uid);
    var s := Run(podName, steps);
    var t := Next(podName, s, step);
    if step == Create(uid) && At(s, uid).Creating? && At(s, uid).name !in s.live {
      var n := At(s, uid).name;
      assert Controls(t, uid, n);
      if HasPort(s, uid) {
        var m :| m in s.live && s.live[m] == Some(uid);
        assert Controls(t, uid, m) && m != n;
      } else {
        assert forall m :: Controls(t, uid, m) ==> m == n;
      }
    } else {
      assert forall m :: Controls(t, uid, m) ==> Controls(s, uid, m);
    }
  }

  // ---- Runs in which a name taken by another owner is not freed ----

  predicate TakenByOther(podName: Uid -> string, s: State, uid: Uid) {
    Name0(podName, uid) in s.live && s.live[Name0(podName, uid)] != Some(uid)
  }

  /** No deletion frees the deterministic name of the Pod from another owner. */
  predicate NeverFreed(podName: Uid -> string, steps: seq<Step>, uid: Uid) {
    steps == []
    || (NeverFreed(podName, steps[..|steps| - 1], uid)
        && !(steps[|steps| - 1] == Delete(Name0(podName, uid))
             && TakenByOther(podName, Run(podName, steps[..|steps| - 1]), uid)))
  }

  /** A port under another name, and a reconcile past its first attempt, mean that the
    * deterministic name is another owner's. */
  ghost predicate FallbackOk(podName: Uid -> string, s: State, uid: Uid) {
    && (forall n :: Controls(s, uid, n) && n != Name0(podName, uid) ==> TakenByOther(podName, s, uid))
    && (At(s, uid).Listing? ==> TakenByOther(podName, s, uid))
    && ((At(s, uid).Creating? || At(s, uid).Getting?) && At(s, uid).attempt > 0 ==> TakenByOther(podName, s, uid))
  }

  lemma {:induction false} FallbacksOk(podName: Uid -> string, steps: seq<Step>, uid: Uid)
    requires NeverFreed(podName, steps, uid)
    ensures FallbackOk(podName, Run(podName, steps), uid)
  {
    if steps != [] {
      var s, step := Run(podName, steps[..|steps| - 1]), steps[|steps| - 1];
      FallbacksOk(podName, steps[..|steps| - 1], uid);
      AttemptsOk(podName, steps[..|steps| - 1], uid);
      var t := Next(podName, s, step);
      forall n | Controls(t, uid, n) && n != Name0(podName, uid)
        ensures TakenByOther(podName, t, uid)
      {
        assert Controls(s, uid, n) || (step == Create(uid) && At(s, uid).Creating? && At(s, uid).attempt > 0);
      }
    }
  }

  /** At most one SubnetPort is ever controlled by a Pod, however stale the cache. */
  lemma {:induction false} OnePortPerPod(podName: Uid -> string, steps: seq<Step>, uid: Uid)
    requires NeverFreed(podName, steps, uid)
    ensures AtMostOne(Run(podName, steps), uid)
  {
    if steps != [] {
      var before, step := steps[..|steps| - 1], steps[|steps| - 1];
      OnePortPerPod(podName, before, uid);
      FallbacksOk(podName, before, uid);
      assert steps == before + [step];
      SecondPort(podName, before, step, uid);
      var s := Run(podName, before);
      if HasPort(s, uid) {
        var m :| m in s.live && s.live[m] == Some(uid);
        assert Controls(s, uid, m);
      }
    }
  }

  lemma RunAppend(podName: Uid -> string, steps: seq<Step>, step: Step)
    ensures Run(podName, steps + [step]) == Next(podName, Run(podName, steps), step)
  {
    assert (steps + [step])[..|steps|] == steps;
  }

  /** A name collision leads to a port under a random name. */
  lemma CollisionFallsBack(podName: Uid -> string, uid: Uid, random: string) returns (steps: seq<Step>)
    requires PortName(podName(uid), uid, 1, random) != Name0(podName, uid)
    ensures var n0 := Name0(podName, uid);
            steps == [Foreign(n0), Start(uid, false), Create(uid), Get(uid), List(uid, random), Create(uid)]
    ensures At(Run(podName, steps), uid).Idle?
    ensures Run(podName, steps).live
            == map[Name0(podName, uid) := None, PortName(podName(uid), uid, 1, random) := Some(uid)]
  {
    var n0 := Name0(podName, uid);
    var one := [Foreign(n0)];
    assert one[..0] == [];
    var two := one + [Start(uid, false)];
    RunAppend(podName, one, Start(uid, false));
    var three := two + [Create(uid)];
    RunAppend(podName, two, Create(uid));
    var four := three + [Get(uid)];
    RunAppend(podName, three, Get(uid));
    var five := four + [List(uid, random)];
    RunAppend(podName, four, List(uid, random));
    assert Run(podName, four).live == map[n0 := None] && !HasPort(Run(podName, four), uid);
    steps := five + [Create(uid)];
    RunAppend(podName, five, Create(uid));
  }

  /** When the other owner then goes away, a stale cache leads to a second port. */
  lemma FreedNameDuplicates(podName: Uid -> string, uid: Uid, random: string)
    requires PortName(podName(uid), uid, 1, random) != Name0(podName, uid)
    ensures var n0 := Name0(podName, uid);
            !AtMostOne(Run(podName, [Foreign(n0), Start(uid, false), Create(uid), Get(uid), List(uid, random),
                                     Create(uid), Delete(n0), Start(uid, false), Create(uid)]), uid)
  {
    var n0, n1 := Name0(podName, uid), PortName(podName(uid), uid, 1, random);
    var six := CollisionFallsBack(podName, uid, random);
    var seven := six + [Delete(n0)];
    RunAppend(podName, six, Delete(n0));
    var eight := seven + [Start(uid, false)];
    RunAppend(podName, seven, Start(uid, false));
    RunAppend(podName, eight, Create(uid));
    var s := Run(podName, eight + [Create(uid)]);
    assert Controls(s, uid, n0) && Controls(s, uid, n1);
    assert eight + [Create(uid)] == [Foreign(n0), Start(uid, false), Create(uid), Get(uid), List(uid, random),
                                     Create(uid), Delete(n0), Start(uid, false), Create(uid)];
  }
}
