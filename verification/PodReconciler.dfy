/** The loop that creates a Pod's SubnetPort, call by call, while others act in between. */
module PodReconciler {
  import opened Common
  import opened SubnetPortCreate

  datatype Outcome = Exists | Created(name: Name) | Failed

  /** The steps of the Pod's own reconcile. */
  predicate Own(step: Step, uid: Uid) {
    match step
    case Delete(_) => false
    case Foreign(_) => false
    case _ => step.uid == uid
  }

  /** A call to the API server: the steps of others before it, and whether it fails. */
  datatype Call = Call(before: seq<Step>, fails: bool)

  /** The state that a call of the reconcile finds. */
  function AfterOthers(podName: Uid -> string, s: State, uid: Uid, steps: seq<Step>): State {
    if steps == [] then s
    else
      var t, step := AfterOthers(podName, s, uid, steps[..|steps| - 1]), steps[|steps| - 1];
      if Own(step, uid) then t else Next(podName, t, step)
  }

  /** What a step of the reconcile answers, if it ends it: a failed call, an empty Get, and a List that finds no
    * port of the Pod after the second collision fail; a port of the Pod ends it well. */
  function Answer(s: State, step: Step): Option<Outcome> {
    match step
    case Start(_, cached) => if cached then Some(Exists) else None
    case Create(uid) =>
      var p := At(s, uid);
      if p.Creating? && p.name !in s.live then Some(Created(p.name)) else None
    case Get(uid) =>
      var p := At(s, uid);
      if !p.Getting? then None
      else if p.name !in s.live then Some(Failed)
      else if s.live[p.name] == Some(uid) then Some(Exists)
      else None
    case List(uid, _) =>
      if exists n :: n in s.live && s.live[n] == Some(uid) then Some(Exists)
      else if At(s, uid) == Listing(1) then Some(Failed)
      else None
    case Fail(_) => Some(Failed)
    case _ => None
  }

  /** The k-th step ends the reconcile of the Pod with the answer. */
  predicate Ends(podName: Uid -> string, trace: seq<Step>, k: nat, uid: Uid, r: Option<Outcome>)
    requires k < |trace|
  {
    Own(trace[k], uid) && Answer(Run(podName, trace[..k]), trace[k]) == r
  }

  /** No step of the reconcile between the i-th and the j-th has ended it. */
  predicate GoesOn(podName: Uid -> string, trace: seq<Step>, i: nat, j: nat, uid: Uid) {
    forall k :: i <= k < j && k < |trace| && Own(trace[k], uid) ==> Ends(podName, trace, k, uid, None)
  }

  /** The last step has ended the reconcile, and none before it since the i-th. */
  predicate Ended(podName: Uid -> string, trace: seq<Step>, i: nat, uid: Uid, r: Outcome) {
    i < |trace| && GoesOn(podName, trace, i, |trace| - 1, uid) && Ends(podName, trace, |trace| - 1, uid, Some(r))
  }

  /** Ended with this answer, or still going on. */
  predicate Settled(podName: Uid -> string, trace: seq<Step>, i: nat, uid: Uid, r: Option<Outcome>) {
    if r.Some? then Ended(podName, trace, i, uid, r.value) else GoesOn(podName, trace, i, |trace|, uid)
  }

  /** No own call has failed since the i-th step. */
  predicate NoFailure(trace: seq<Step>, i: nat, uid: Uid) {
    forall k :: i <= k < |trace| ==> trace[k] != Step.Fail(uid)
  }

  lemma GoesOnLonger(podName: Uid -> string, before: seq<Step>, trace: seq<Step>, i: nat, j: nat, uid: Uid)
    requires before <= trace && j <= |before| && GoesOn(podName, before, i, j, uid)
    ensures GoesOn(podName, trace, i, j, uid)
  {
    forall k | i <= k < j && k < |trace| && Own(trace[k], uid)
      ensures Ends(podName, trace, k, uid, None)
    {
      assert before[..k] == trace[..k] && Ends(podName, before, k, uid, None);
    }
  }

  /** A stretch that goes on, and one after it. */
  lemma SettledOn(podName: Uid -> string, before: seq<Step>, trace: seq<Step>, i: nat, uid: Uid, r: Option<Outcome>)
    requires before <= trace && i <= |before| && GoesOn(podName, before, i, |before|, uid)
    requires Settled(podName, trace, |before|, uid, r)
    ensures Settled(podName, trace, i, uid, r)
  {
    GoesOnLonger(podName, before, trace, i, |before|, uid);
  }

  /** Steps of others, and then one of the reconcile. */
  lemma OneCall(podName: Uid -> string, middle: seq<Step>, trace: seq<Step>, i: nat, uid: Uid)
    requires |trace| == |middle| + 1 && middle <= trace && i <= |middle|
    requires forall k :: i <= k < |middle| ==> !Own(middle[k], uid)
    requires Own(trace[|middle|], uid)
    ensures Settled(podName, trace, i, uid, Answer(Run(podName, middle), trace[|middle|]))
  {
    assert trace[..|middle|] == middle;
    forall k | i <= k < |middle|
      ensures !Own(trace[k], uid)
    {
      assert trace[k] == middle[k];
    }
  }

  /** Why a reconcile fails: its last call has failed, or was a Get that found nothing, or the List after the second
    * collision, which found no port of the Pod. */
  predicate Justified(podName: Uid -> string, trace: seq<Step>, uid: Uid) {
    |trace| > 0
    && var last, s := trace[|trace| - 1], Run(podName, trace[..|trace| - 1]);
       || last == Step.Fail(uid)
       || (last == Step.Get(uid) && At(s, uid).Getting? && At(s, uid).name !in s.live)
       || (last.List? && last.uid == uid && At(s, uid) == Listing(1)
           && forall n :: n in s.live ==> s.live[n] != Some(uid))
  }

  lemma EndedFailed(podName: Uid -> string, trace: seq<Step>, i: nat, uid: Uid, r: Outcome)
    requires Settled(podName, trace, i, uid, Some(r))
    ensures Ended(podName, trace, i, uid, r)
    ensures r.Failed? ==> Justified(podName, trace, uid)
  {
  }

  class PodReconciler {
    const podName: Uid -> string
    var live: map<Name, Option<Uid>>
    var places: map<Uid, Place>
    ghost var trace: seq<Step>

    function Memory(): State
      reads this
    {
      State(live, places)
    }

    ghost predicate Valid()
      reads this
    {
      Memory() == Run(podName, trace)
    }

    constructor (podName: Uid -> string)
      ensures Valid() && trace == []
    {
      this.podName := podName;
      live, places, trace := map[], map[], [];
    }

    ghost method Took(step: Step)
      requires Memory() == Next(podName, Run(podName, trace), step)
      modifies this`trace
      ensures Valid() && trace == old(trace) + [step]
    {
      trace := trace + [step];
      assert trace[..|trace| - 1] == old(trace);
    }

    method Go(uid: Uid, p: Place, step: Step)
      requires Valid() && SubnetPortCreate.Go(Memory(), uid, p) == Next(podName, Memory(), step)
      modifies this
      ensures Valid() && trace == old(trace) + [step] && At(Memory(), uid) == p && live == old(live)
    {
      places := places[uid := p];
      Took(step);
    }

    method Others(uid: Uid, steps: seq<Step>)
      requires Valid()
      modifies this
      ensures Valid() && old(trace) <= trace && At(Memory(), uid) == old(At(Memory(), uid))
      ensures Memory() == AfterOthers(podName, old(Memory()), uid, steps)
      ensures forall k :: |old(trace)| <= k < |trace| ==> !Own(trace[k], uid)
    {
      assert steps[..|steps|] == steps;
      for i := 0 to |steps|
        invariant Valid() && old(trace) <= trace && At(Memory(), uid) == old(At(Memory(), uid))
        invariant Memory() == AfterOthers(podName, old(Memory()), uid, steps[..i])
        invariant forall k :: |old(trace)| <= k < |trace| ==> !Own(trace[k], uid)
      {
        assert steps[..i + 1][..i] == steps[..i];
        if !Own(steps[i], uid) {
          var s := Next(podName, Memory(), steps[i]);
          live, places := s.live, s.places;
          Took(steps[i]);
        }
      }
    }

    /** One Create call. None: the name is taken. */
    method TryCreate(uid: Uid, attempt: nat, spName: Name, call: Call) returns (r: Option<Outcome>)
      requires Valid() && At(Memory(), uid) == Creating(attempt, spName)
      modifies this
      ensures Valid() && old(trace) <= trace && Settled(podName, trace, |old(trace)|, uid, r)
      ensures var s := AfterOthers(podName, old(Memory()), uid, call.before);
              && (r == Some(Failed) <==> call.fails)
              && (r == Some(Created(spName)) <==> !call.fails && spName !in s.live)
              && (r.None? <==> !call.fails && spName in s.live)
              && live == if r == Some(Created(spName)) then s.live[spName := Some(uid)] else s.live
      ensures if r.None? then At(Memory(), uid) == Getting(attempt, spName) else At(Memory(), uid).Idle?
      ensures !call.fails ==> NoFailure(trace, |old(trace)|, uid)
    {
      Others(uid, call.before);
      ghost var middle := trace;
      if call.fails {
        Go(uid, Idle, Step.Fail(uid));
        r := Some(Failed);
      } else if spName !in live {
        live := live[spName := Some(uid)];
        places := places[uid := Idle];
        Took(Step.Create(uid));
        r := Some(Created(spName));
      } else {
        Go(uid, Getting(attempt, spName), Step.Create(uid));
        r := None;
      }
      OneCall(podName, middle, trace, |old(trace)|, uid);
    }

    /** Get after an AlreadyExists: is the live object the Pod's own? */
    method CheckHolder(uid: Uid, attempt: nat, name: Name, call: Call) returns (r: Option<Outcome>)
      requires Valid() && At(Memory(), uid) == Getting(attempt, name)
      modifies this
      ensures Valid() && old(trace) <= trace && Settled(podName, trace, |old(trace)|, uid, r)
      ensures var s := AfterOthers(podName, old(Memory()), uid, call.before);
              && (r == Some(Exists) <==> !call.fails && name in s.live && s.live[name] == Some(uid))
              && (r == Some(Failed) <==> call.fails || name !in s.live)
              && (r.None? <==> !call.fails && name in s.live && s.live[name] != Some(uid))
              && live == s.live
      ensures if r.None? then At(Memory(), uid) == Listing(attempt) else At(Memory(), uid).Idle?
      ensures !call.fails ==> NoFailure(trace, |old(trace)|, uid)
    {
      Others(uid, call.before);
      ghost var middle := trace;
      if call.fails {
        Go(uid, Idle, Step.Fail(uid));
        r := Some(Failed);
      } else if name !in live {
        Go(uid, Idle, Step.Get(uid));
        r := Some(Failed);
      } else if live[name] == Some(uid) {
        Go(uid, Idle, Step.Get(uid));
        r := Some(Exists);
      } else {
        Go(uid, Listing(attempt), Step.Get(uid));
        r := None;
      }
      OneCall(podName, middle, trace, |old(trace)|, uid);
    }

    /** The List after that: does the Pod control any port? None: it does not, and the loop goes on, or ends without
      * a port after the second attempt. */
    method CheckOthers(uid: Uid, attempt: nat, random: string, call: Call) returns (r: Option<Outcome>)
      requires Valid() && At(Memory(), uid) == Listing(attempt) && attempt < 2
      modifies this
      ensures Valid() && old(trace) <= trace
      ensures Settled(podName, trace, |old(trace)|, uid, if r.None? && attempt == 1 then Some(Failed) else r)
      ensures var s := AfterOthers(podName, old(Memory()), uid, call.before);
              && (r == Some(Exists) <==> !call.fails && exists n :: n in s.live && s.live[n] == Some(uid))
              && (r == Some(Failed) <==> call.fails)
              && (r.None? <==> !call.fails && forall n :: n in s.live ==> s.live[n] != Some(uid))
              && live == s.live
      ensures if r.None? && attempt == 0
              then At(Memory(), uid) == Creating(1, PortName(podName(uid), uid, 1, random))
              else At(Memory(), uid).Idle?
      ensures !call.fails ==> NoFailure(trace, |old(trace)|, uid)
    {
      Others(uid, call.before);
      ghost var middle := trace;
      if call.fails {
        Go(uid, Idle, Step.Fail(uid));
        r := Some(Failed);
      } else if HasPort(Memory(), uid) {
        Go(uid, Idle, Step.List(uid, random));
        r := Some(Exists);
      } else if attempt + 1 < MAX_CREATE_ATTEMPTS {
        Go(uid, Creating(attempt + 1, PortName(podName(uid), uid, attempt + 1, random)), Step.List(uid, random));
        r := None;
      } else {
        Go(uid, Idle, Step.List(uid, random));
        r := None;
      }
      OneCall(podName, middle, trace, |old(trace)|, uid);
    }

    /** One turn of the attempt loop, with its calls. None: the name belongs to somebody else. */
    method Attempt(uid: Uid, attempt: nat, spName: Name, next: string, calls: nat -> Call)
      returns (r: Option<Outcome>)
      requires Valid() && At(Memory(), uid) == Creating(attempt, spName) && attempt < 2
      modifies this
      ensures Valid() && old(trace) <= trace
      ensures Settled(podName, trace, |old(trace)|, uid, if r.None? && attempt == 1 then Some(Failed) else r)
      ensures if r.None? && attempt == 0
              then At(Memory(), uid) == Creating(1, PortName(podName(uid), uid, 1, next))
              else At(Memory(), uid).Idle?
      ensures r.Some? && r.value.Created? ==> Controls(Memory(), uid, r.value.name)
      ensures r == Some(Exists) ==> HasPort(Memory(), uid)
      ensures (forall i :: !calls(i).fails) ==> NoFailure(trace, |old(trace)|, uid)
    {
      r := TryCreate(uid, attempt, spName, calls(0));
      if r.Some? {
        return;
      }
      ghost var created := trace;
      r := CheckHolder(uid, attempt, spName, calls(1));
      SettledOn(podName, created, trace, |old(trace)|, uid, r);
      if r.Some? {
        return;
      }
      ghost var got := trace;
      r := CheckOthers(uid, attempt, next, calls(2));
      SettledOn(podName, got, trace, |old(trace)|, uid, if r.None? && attempt == 1 then Some(Failed) else r);
    }

    /** The attempt loop. */
    method CreateUnderSomeName(uid: Uid, random: nat -> string, calls: (nat, nat) -> Call) returns (r: Outcome)
      requires Valid() && At(Memory(), uid) == Creating(0, Name0(podName, uid))
      modifies this
      ensures Valid() && At(Memory(), uid).Idle? && old(trace) <= trace
      ensures Settled(podName, trace, |old(trace)|, uid, Some(r))
      ensures r.Created? ==> Controls(Memory(), uid, r.name)
      ensures r.Exists? ==> HasPort(Memory(), uid)
      ensures (forall i, j :: !calls(i, j).fails) ==> NoFailure(trace, |old(trace)|, uid)
    {
      var attempt := 0;
      while attempt < MAX_CREATE_ATTEMPTS
        invariant attempt <= MAX_CREATE_ATTEMPTS && Valid() && old(trace) <= trace
        invariant Settled(podName, trace, |old(trace)|, uid, if attempt < 2 then None else Some(Failed))
        invariant (forall i, j :: !calls(i, j).fails) ==> NoFailure(trace, |old(trace)|, uid)
        invariant if attempt < 2
                  then At(Memory(), uid) == Creating(attempt, PortName(podName(uid), uid, attempt, random(attempt)))
                  else At(Memory(), uid).Idle?
      {
        ghost var before := trace;
        var spName := PortName(podName(uid), uid, attempt, random(attempt));
        var done := Attempt(uid, attempt, spName, random(attempt + 1), (i: nat) => calls(attempt, i));
        SettledOn(podName, before, trace, |old(trace)|, uid,
                  if done.None? && attempt == 1 then Some(Failed) else done);
        if done.Some? {
          return done.value;
        }
        attempt := attempt + 1;
      }
      return Failed;
    }

    /** reconcilePodV2 for a Pod that is running. The lookup in the cache fails, or finds a port of the Pod or none;
      * the other actors and the failures are arbitrary; two attempts are made. The steps taken are a run, so what
      * holds in all runs holds here; the answer is that of the last step of the reconcile, and no step before it
      * had one. */
    method ReconcilePodV2(uid: Uid, lookup: Result<bool, string>, random: nat -> string, calls: (nat, nat) -> Call)
      returns (r: Outcome)
      requires Valid() && At(Memory(), uid).Idle?
      modifies this
      ensures Valid() && At(Memory(), uid).Idle? && old(trace) <= trace
      ensures Ended(podName, trace, |old(trace)|, uid, r)
      ensures r.Created? ==> Controls(Memory(), uid, r.name)
      ensures r.Exists? ==> lookup == Ok(true) || HasPort(Memory(), uid)
      ensures r.Failed? ==> Justified(podName, trace, uid)
      ensures lookup == Ok(true) ==> live == old(live) && r.Exists?
      ensures lookup.Err? ==> live == old(live) && r.Failed?
      ensures lookup.Ok? && (forall i, j :: !calls(i, j).fails) ==> NoFailure(trace, |old(trace)|, uid)
    {
      if lookup.Err? {
        Go(uid, Idle, Step.Fail(uid));
        r := Failed;
        OneCall(podName, old(trace), trace, |old(trace)|, uid);
      } else if lookup.value {
        Took(Step.Start(uid, true));
        r := Exists;
        OneCall(podName, old(trace), trace, |old(trace)|, uid);
      } else {
        Go(uid, Creating(0, Name0(podName, uid)), Step.Start(uid, false));
        OneCall(podName, old(trace), trace, |old(trace)|, uid);
        ghost var started := trace;
        r := CreateUnderSomeName(uid, random, calls);
        SettledOn(podName, started, trace, |old(trace)|, uid, Some(r));
      }
      EndedFailed(podName, trace, |old(trace)|, uid, r);
    }
  }
}
