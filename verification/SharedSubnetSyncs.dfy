/** The lock functions as they run in one thread, on the shared map and channels. Every method
  * takes exactly the steps of SharedSubnetLock that it says. */
module SharedSubnetSyncs {
  import opened Common
  import opened SharedSubnetLock

  /** What the rest of the system does during one turn of the waiting loop: the steps of other
    * threads before the attempt and during the select, and whether the context ends. */
  datatype Turn = Turn(before: seq<Step>, endedAtTop: bool, during: seq<Step>, endedWaiting: bool)

  datatype WaitResult = Started(done: nat) | ContextEnded | StillWaiting

  /** A call to the API server or to NSX, with the steps that other threads take during it. */
  datatype Call = Call(during: seq<Step>, fails: bool)

  /** The thread stays where it is between the i-th and the j-th step. */
  ghost predicate Stays(steps: seq<Step>, i: nat, j: nat, t: Thread, p: Place) {
    forall k :: i <= k <= j && k <= |steps| ==> At(Run(steps[..k]), t) == p
  }

  lemma StaysLonger(steps: seq<Step>, i: nat, j: nat, more: seq<Step>, t: Thread, p: Place)
    requires j <= |steps| && Stays(steps, i, j, t, p)
    ensures Stays(steps + more, i, j, t, p)
  {
    forall k | i <= k <= j && k <= |steps + more|
      ensures At(Run((steps + more)[..k]), t) == p
    {
      assert (steps + more)[..k] == steps[..k];
    }
  }

  // ---- What the turns say ----

  /** The steps of others, those that they can take. */
  function AfterOthers(s: State, t: Thread, steps: seq<Step>): State {
    if steps == [] then s
    else
      var u, step := AfterOthers(s, t, steps[..|steps| - 1]), steps[|steps| - 1];
      if Actor(step) != t && Enabled(u, step) then Next(u, step) else u
  }

  lemma AfterOneMore(s: State, t: Thread, steps: seq<Step>, i: nat)
    requires i < |steps|
    ensures var u := AfterOthers(s, t, steps[..i]);
            AfterOthers(s, t, steps[..i + 1])
            == if Actor(steps[i]) != t && Enabled(u, steps[i]) then Next(u, steps[i]) else u
  {
    assert steps[..i + 1][..i] == steps[..i];
  }

  /** In a turn that starts in s, the attempt finds the source free. */
  predicate FindsFree(s: State, t: Thread, source: Source, turn: Turn) {
    source !in AfterOthers(s, t, turn.before).syncs
  }

  /** The state in which the select is decided, if the source is busy. */
  function InSelect(s: State, t: Thread, turn: Turn): State {
    AfterOthers(Next(AfterOthers(s, t, turn.before), Step.TryWait(t)), t, turn.during)
  }

  /** The channel found in the map has been closed by then. */
  predicate Closed(s: State, t: Thread, source: Source, turn: Turn) {
    var first, later := AfterOthers(s, t, turn.before), InSelect(s, t, turn);
    source in first.syncs && first.syncs[source] < |later.channels| && later.channels[first.syncs[source]].closes > 0
  }

  /** How a turn ends: the context has ended, the source is taken, the select still waits, or the loop goes round. */
  datatype TurnEnd = GivesUp | Starts | StillWaits | GoesRound

  function EndOf(s: State, t: Thread, source: Source, turn: Turn): TurnEnd {
    if turn.endedAtTop then GivesUp
    else if FindsFree(s, t, source, turn) then Starts
    else if turn.endedWaiting then GivesUp
    else if Closed(s, t, source, turn) then GoesRound
    else StillWaits
  }

  /** The state after a turn that goes round. */
  function AfterTurn(s: State, t: Thread, turn: Turn): State {
    Next(InSelect(s, t, turn), Step.Wake(t))
  }

  /** How the wait ends that starts in s: the first turn that does not go round decides. */
  function Outcome(s: State, t: Thread, source: Source, turns: seq<Turn>): TurnEnd
    decreases |turns|
  {
    if turns == [] then StillWaits
    else
      var end := EndOf(s, t, source, turns[0]);
      if end == GoesRound then Outcome(AfterTurn(s, t, turns[0]), t, source, turns[1..]) else end
  }

  /** The state at the start of the i-th turn, if all turns before it go round. */
  function AtTurn(s: State, t: Thread, turns: seq<Turn>, i: nat): State
    requires i <= |turns|
    decreases i
  {
    if i == 0 then s else AtTurn(AfterTurn(s, t, turns[0]), t, turns[1..], i - 1)
  }

  /** The loop goes round: no context ends, the source is busy, and its channel is closed by the select. */
  predicate Passes(s: State, t: Thread, source: Source, turn: Turn) {
    !turn.endedAtTop && !FindsFree(s, t, source, turn) && !turn.endedWaiting && Closed(s, t, source, turn)
  }

  /** All turns before the i-th go round. */
  predicate Reached(s: State, t: Thread, source: Source, turns: seq<Turn>, i: nat)
    requires i <= |turns|
  {
    forall j :: 0 <= j < i ==> Passes(AtTurn(s, t, turns, j), t, source, turns[j])
  }

  /** A context ends in the i-th turn before the thread has taken the source. */
  predicate EndsIn(s: State, t: Thread, source: Source, turns: seq<Turn>, i: nat)
    requires i < |turns|
  {
    turns[i].endedAtTop || (turns[i].endedWaiting && !FindsFree(AtTurn(s, t, turns, i), t, source, turns[i]))
  }

  /** The i-th turn has no ended context at its top and finds the source free. */
  predicate TakesIn(s: State, t: Thread, source: Source, turns: seq<Turn>, i: nat)
    requires i < |turns|
  {
    !turns[i].endedAtTop && FindsFree(AtTurn(s, t, turns, i), t, source, turns[i])
  }

  /** The answer of a wait with this outcome. */
  predicate ResultOf(end: TurnEnd, r: WaitResult) {
    match end
    case GivesUp => r == ContextEnded
    case Starts => r.Started?
    case _ => r == StillWaiting
  }

  /** The answer of a turn with this end; None when the loop goes round. */
  predicate TurnResult(end: TurnEnd, r: Option<WaitResult>) {
    if end == GoesRound then r.None? else r.Some? && ResultOf(end, r.value)
  }

  lemma OutcomeStep(s: State, t: Thread, source: Source, turns: seq<Turn>)
    requires turns != []
    ensures var end := EndOf(s, t, source, turns[0]);
            Outcome(s, t, source, turns)
            == if end == GoesRound then Outcome(AfterTurn(s, t, turns[0]), t, source, turns[1..]) else end
  {
  }

  lemma ReachedLater(s: State, t: Thread, source: Source, turns: seq<Turn>, i: nat)
    requires i < |turns| && Passes(s, t, source, turns[0])
    requires Reached(AfterTurn(s, t, turns[0]), t, source, turns[1..], i)
    ensures Reached(s, t, source, turns, i + 1)
  {
    forall j | 0 <= j < i + 1 ensures Passes(AtTurn(s, t, turns, j), t, source, turns[j]) {
      if j > 0 {
        assert Passes(AtTurn(AfterTurn(s, t, turns[0]), t, turns[1..], j - 1), t, source, turns[1..][j - 1]);
      }
    }
  }

  lemma ReachedEarlier(s: State, t: Thread, source: Source, turns: seq<Turn>, i: nat)
    requires i < |turns| && Reached(s, t, source, turns, i + 1)
    ensures Passes(s, t, source, turns[0]) && Reached(AfterTurn(s, t, turns[0]), t, source, turns[1..], i)
  {
    assert Passes(AtTurn(s, t, turns, 0), t, source, turns[0]);
    var u, rest := AfterTurn(s, t, turns[0]), turns[1..];
    forall j | 0 <= j < i ensures Passes(AtTurn(u, t, rest, j), t, source, rest[j]) {
      assert Passes(AtTurn(s, t, turns, j + 1), t, source, turns[j + 1]);
    }
  }

  /** The wait is given up exactly if a turn that is reached has an ended context, at its top or, with the source
    * busy, in its select; the source is taken exactly if a turn that is reached, with a live context, finds it
    * free. */
  lemma {:induction false} OutcomeMeaning(s: State, t: Thread, source: Source, turns: seq<Turn>)
    ensures Outcome(s, t, source, turns) == GivesUp
            <==> exists i :: 0 <= i < |turns| && Reached(s, t, source, turns, i) && EndsIn(s, t, source, turns, i)
    ensures Outcome(s, t, source, turns) == Starts
            <==> exists i :: 0 <= i < |turns| && Reached(s, t, source, turns, i) && TakesIn(s, t, source, turns, i)
    ensures Outcome(s, t, source, turns) in {GivesUp, Starts, StillWaits}
    decreases |turns|
  {
    if turns != [] {
      assert Reached(s, t, source, turns, 0);
      var u, rest := AfterTurn(s, t, turns[0]), turns[1..];
      if Passes(s, t, source, turns[0]) {
        OutcomeMeaning(u, t, source, rest);
        forall i | 0 <= i < |rest| && Reached(u, t, source, rest, i)
          ensures Reached(s, t, source, turns, i + 1)
          ensures EndsIn(u, t, source, rest, i) ==> EndsIn(s, t, source, turns, i + 1)
          ensures TakesIn(u, t, source, rest, i) ==> TakesIn(s, t, source, turns, i + 1)
        {
          ReachedLater(s, t, source, turns, i);
        }
        forall i | 0 < i < |turns| && Reached(s, t, source, turns, i)
          ensures Reached(u, t, source, rest, i - 1)
          ensures EndsIn(s, t, source, turns, i) ==> EndsIn(u, t, source, rest, i - 1)
          ensures TakesIn(s, t, source, turns, i) ==> TakesIn(u, t, source, rest, i - 1)
        {
          ReachedEarlier(s, t, source, turns, i - 1);
        }
      } else {
        forall i | 0 < i < |turns| ensures !Reached(s, t, source, turns, i) {
          assert !Passes(AtTurn(s, t, turns, 0), t, source, turns[0]);
        }
      }
    }
  }

  datatype Reconciled = RequeueAfter10sec | Requeue | Normal

  class SubnetSyncs {
    var syncs: map<Source, nat>
    var channels: seq<Channel>
    var places: map<Thread, Place>
    ghost var trace: seq<Step>

    function Memory(): State
      reads this
    {
      State(syncs, channels, places)
    }

    ghost predicate Valid()
      reads this
    {
      Memory() == Run(trace)
    }

    constructor ()
      ensures Valid() && trace == []
    {
      syncs, channels, places, trace := map[], [], map[], [];
    }

    ghost method Took(step: Step)
      requires Memory() == Next(Run(trace), step)
      modifies this`trace
      ensures Valid() && trace == old(trace) + [step]
    {
      trace := trace + [step];
      assert trace[..|trace| - 1] == old(trace);
    }

    /** The thread moves on without touching the map or a channel. */
    method Go(t: Thread, p: Place, step: Step)
      requires Valid() && Move(Memory(), t, p) == Next(Memory(), step)
      modifies this
      ensures Valid() && trace == old(trace) + [step] && At(Memory(), t) == p
      ensures channels == old(channels)
    {
      places := places[t := p];
      Took(step);
    }

    /** tryStartSharedSubnetSync, from a worker or from the waiting loop. */
    method TryStart(t: Thread, source: Source) returns (done: nat, started: bool)
      requires Valid() && (At(Memory(), t).Outside? || At(Memory(), t) == LoopTop(source))
      modifies this
      ensures Valid()
      ensures trace
              == old(trace) + [if old(At(Memory(), t)).Outside? then Step.TryStart(t, source) else Step.TryWait(t)]
      ensures started <==> source !in old(syncs)
      ensures started ==> done == |old(channels)|
      ensures syncs == if started then old(syncs)[source := done] else old(syncs)
      ensures started ==> At(Memory(), t) == Owner(source, done)
      ensures !started ==> done == old(syncs)[source]
      ensures !started ==>
                At(Memory(), t) == if old(At(Memory(), t)).Outside? then Outside else Waiting(source, done)
    {
      ghost var waits := At(Memory(), t).LoopTop?;
      if source in syncs {
        done, started := syncs[source], false;
        places := places[t := if t in places && places[t].LoopTop? then Waiting(source, done) else Outside];
      } else {
        done, started := |channels|, true;
        channels := channels + [Channel(t, source, 0)];
        syncs := syncs[source := done];
        places := places[t := Owner(source, done)];
      }
      Took(if waits then Step.TryWait(t) else Step.TryStart(t, source));
    }

    /** finishSharedSubnetSync. The channel is closed for the first time. */
    method Finish(t: Thread, source: Source, done: nat)
      requires Valid() && At(Memory(), t) == Owner(source, done)
      modifies this
      ensures Valid() && trace == old(trace) + [Step.Delete(t), Step.Close(t)]
      ensures At(Memory(), t).Outside? && syncs == old(syncs) - {source}
      ensures done < |channels| && channels[done].closes == 1
    {
      RunInv(trace);
      assert ThreadOk(Memory(), t);
      syncs := syncs - {source};
      places := places[t := Closing(source, done)];
      Took(Step.Delete(t));
      channels := channels[done := channels[done].(closes := channels[done].closes + 1)];
      places := places[t := Outside];
      Took(Step.Close(t));
    }

    /** Another thread takes a step, if it can. */
    method Other(t: Thread, step: Step)
      requires Valid()
      modifies this
      ensures Valid() && At(Memory(), t) == old(At(Memory(), t))
      ensures trace == old(trace) || trace == old(trace) + [step]
      ensures Memory() == if Actor(step) != t && Enabled(old(Memory()), step) then Next(old(Memory()), step)
                          else old(Memory())
    {
      if Actor(step) != t && Enabled(Memory(), step) {
        var u := Next(Memory(), step);
        syncs, channels, places := u.syncs, u.channels, u.places;
        Took(step);
      }
    }

    /** Other threads take steps. */
    method Others(t: Thread, steps: seq<Step>)
      requires Valid()
      modifies this
      ensures Valid() && old(trace) <= trace
      ensures Stays(trace, |old(trace)|, |trace|, t, old(At(Memory(), t)))
      ensures At(Memory(), t) == old(At(Memory(), t))
      ensures Memory() == AfterOthers(old(Memory()), t, steps)
    {
      ghost var p := At(Memory(), t);
      assert trace[..|trace|] == trace && steps[..|steps|] == steps;
      for i := 0 to |steps|
        invariant Valid() && old(trace) <= trace
        invariant At(Memory(), t) == p
        invariant Stays(trace, |old(trace)|, |trace|, t, p)
        invariant Memory() == AfterOthers(old(Memory()), t, steps[..i])
      {
        AfterOneMore(old(Memory()), t, steps, i);
        StaysLonger(trace, |old(trace)|, |trace|, [steps[i]], t, p);
        Other(t, steps[i]);
        assert trace[..|trace|] == trace;
      }
    }

    lemma KnownChannel(t: Thread)
      requires Valid() && At(Memory(), t).Waiting?
      ensures At(Memory(), t).done < |channels|
    {
      RunInv(trace);
      assert ThreadOk(Memory(), t);
    }

    /** Where the thread is when the waiting is over, or cut off. */
    predicate Leaves(t: Thread, source: Source, r: WaitResult)
      reads this
    {
      match r
      case Started(done) => At(Memory(), t) == Owner(source, done)
      case ContextEnded => At(Memory(), t).Outside?
      case StillWaiting =>
        At(Memory(), t) == LoopTop(source) || (At(Memory(), t).Waiting? && At(Memory(), t).source == source)
    }

    /** One turn of the waiting loop; None when the loop goes round. */
    method WaitTurn(t: Thread, source: Source, turn: Turn) returns (r: Option<WaitResult>)
      requires Valid() && At(Memory(), t) == LoopTop(source)
      modifies this
      ensures Valid() && old(trace) <= trace
      ensures if r.Some? then Leaves(t, source, r.value) else At(Memory(), t) == LoopTop(source)
      ensures TurnResult(EndOf(old(Memory()), t, source, turn), r)
      ensures r.None? ==> Memory() == AfterTurn(old(Memory()), t, turn)
    {
      Others(t, turn.before);
      if turn.endedAtTop {
        Go(t, Outside, Step.GiveUpAtTop(t));
        return Some(ContextEnded);
      }
      var done, started := TryStart(t, source);
      if started {
        return Some(Started(done));
      }
      Others(t, turn.during);
      KnownChannel(t);
      if turn.endedWaiting {
        Go(t, Outside, Step.GiveUpWaiting(t));
        return Some(ContextEnded);
      } else if channels[done].closes == 0 {
        return Some(StillWaiting);
      }
      Go(t, LoopTop(source), Step.Wake(t));
      return None;
    }

    /** waitStartSharedSubnetSync, followed through the given turns. */
    method WaitStart(t: Thread, source: Source, turns: seq<Turn>) returns (r: WaitResult)
      requires Valid() && At(Memory(), t).Outside?
      modifies this
      ensures Valid() && old(trace) <= trace && Leaves(t, source, r)
      ensures ResultOf(Outcome(Next(old(Memory()), Step.Poll(t, source)), t, source, turns), r)
    {
      Go(t, LoopTop(source), Step.Poll(t, source));
      ghost var end := Outcome(Memory(), t, source, turns);
      assert turns[0..] == turns;
      for i := 0 to |turns|
        invariant Valid() && old(trace) <= trace
        invariant At(Memory(), t) == LoopTop(source) && Outcome(Memory(), t, source, turns[i..]) == end
      {
        ghost var s := Memory();
        var result := WaitTurn(t, source, turns[i]);
        OutcomeStep(s, t, source, turns[i..]);
        assert turns[i..][1..] == turns[i + 1..];
        if result.Some? {
          return result.value;
        }
      }
      return StillWaiting;
    }

    /** A call made while the thread owns the source, as it has since the i-th step. */
    method CallUnderLock(t: Thread, source: Source, done: nat, call: Call, ghost i: nat) returns (failed: bool)
      requires Valid() && At(Memory(), t) == Owner(source, done)
      requires i <= |trace| && Stays(trace, i, |trace|, t, Owner(source, done))
      modifies this
      ensures Valid() && old(trace) <= trace && failed == call.fails
      ensures Stays(trace, i, |trace|, t, Owner(source, done))
      ensures At(Memory(), t) == Owner(source, done)
    {
      ghost var before := trace;
      Others(t, call.during);
      failed := call.fails;
      StaysLonger(before, i, |before|, trace[|before|..], t, Owner(source, done));
      assert trace == before + trace[|before|..];
    }

    /** The thread has owned the source from after the i-th step to the last but one step, and has then
      * released it. */
    ghost predicate Released(i: nat, t: Thread, source: Source, done: nat)
      reads this
    {
      && i + 2 <= |trace| && trace[|trace| - 2..] == [Step.Delete(t), Step.Close(t)]
      && Stays(trace, i, |trace| - 2, t, Owner(source, done)) && source !in syncs
    }

    /** finishSharedSubnetSync, deferred to a return. */
    method Release(t: Thread, source: Source, done: nat, ghost i: nat)
      requires Valid() && At(Memory(), t) == Owner(source, done)
      requires i <= |trace| && Stays(trace, i, |trace|, t, Owner(source, done))
      modifies this
      ensures Valid() && old(trace) <= trace && At(Memory(), t).Outside? && Released(i, t, source, done)
    {
      StaysLonger(trace, i, |trace|, [Step.Delete(t), Step.Close(t)], t, Owner(source, done));
      Finish(t, source, done);
    }

    /** handleSharedSubnet: a busy source is left alone. Otherwise the thread owns the source during all its
      * calls, whatever other threads do meanwhile, and whichever call fails, the source is released. */
    method HandleSharedSubnet(t: Thread, source: Source, subnet: Call, status: Call, update: Call, ports: Call)
      returns (r: Reconciled)
      requires Valid() && At(Memory(), t).Outside?
      modifies this
      ensures Valid() && At(Memory(), t).Outside? && old(trace) + [Step.TryStart(t, source)] <= trace
      ensures r == (if source in old(syncs) then RequeueAfter10sec
                    else if subnet.fails || status.fails || update.fails || ports.fails then Requeue
                    else Normal)
      ensures source in old(syncs) ==> trace == old(trace) + [Step.TryStart(t, source)]
      ensures source !in old(syncs) ==> Released(|old(trace)| + 1, t, source, |old(channels)|)
    {
      var done, started := TryStart(t, source);
      if !started {
        return RequeueAfter10sec;
      }
      ghost var i := |trace|;
      assert trace[..i] == trace;
      var failed := CallUnderLock(t, source, done, subnet, i);
      if failed {
        Release(t, source, done, i);
        return Requeue;
      }
      failed := CallUnderLock(t, source, done, status, i);
      if failed {
        Release(t, source, done, i);
        return Requeue;
      }
      failed := CallUnderLock(t, source, done, update, i);
      if failed {
        Release(t, source, done, i);
        return Requeue;
      }
      failed := CallUnderLock(t, source, done, ports, i);
      if failed {
        Release(t, source, done, i);
        return Requeue;
      }
      Release(t, source, done, i);
      return Normal;
    }
  }
}
