/** The per-source lock of shared-Subnet synchronisation: a map entry that holds the owner's
  * channel, and the closing of that channel as the wake-up of the waiters. Any number of threads
  * take steps in any order. */
module SharedSubnetLock {

  type Source = string
  type Thread = nat

  /** A channel stored in the map, with the thread that made it, and how often it was closed. */
  datatype Channel = Channel(maker: Thread, source: Source, closes: nat)

  /** Where a thread is: outside, at the top of the waiting loop, in its select, between a
    * successful LoadOrStore and the Delete, or between the Delete and the close. */
  datatype Place =
    | Outside
    | LoopTop(source: Source)
    | Waiting(source: Source, done: nat)
    | Owner(source: Source, done: nat)
    | Closing(source: Source, done: nat)

  datatype State = State(syncs: map<Source, nat>, channels: seq<Channel>, places: map<Thread, Place>)

  const INIT := State(map[], [], map[])

  function At(s: State, t: Thread): Place {
    if t in s.places then s.places[t] else Outside
  }

  datatype Step =
    | TryStart(t: Thread, source: Source)  // a reconciliation worker: does not wait
    | Poll(t: Thread, source: Source)      // polling enters the waiting loop
    | GiveUpAtTop(t: Thread)               // the context has ended
    | TryWait(t: Thread)                   // LoadOrStore in the loop
    | Wake(t: Thread)                      // the channel is closed
    | GiveUpWaiting(t: Thread)             // the context ends during the select
    | Delete(t: Thread)                    // first half of finishing
    | Close(t: Thread)                     // second half of finishing

  predicate Enabled(s: State, step: Step) {
    match step
    case TryStart(t, _) => At(s, t).Outside?
    case Poll(t, _) => At(s, t).Outside?
    case GiveUpAtTop(t) => At(s, t).LoopTop?
    case TryWait(t) => At(s, t).LoopTop?
    case Wake(t) => At(s, t).Waiting? && At(s, t).done < |s.channels| && s.channels[At(s, t).done].closes > 0
    case GiveUpWaiting(t) => At(s, t).Waiting?
    case Delete(t) => At(s, t).Owner?
    case Close(t) => At(s, t).Closing? && At(s, t).done < |s.channels|
  }

  function Move(s: State, t: Thread, p: Place): State {
    s.(places := s.places[t := p])
  }

  /** sync.Map.LoadOrStore with a new channel: the thread owns the source, or sees the owner's channel. */
  function LoadOrStore(s: State, t: Thread, source: Source, busy: Place): State {
    if source in s.syncs then Move(s, t, busy)
    else
      State(s.syncs[source := |s.channels|], s.channels + [Channel(t, source, 0)],
            s.places[t := Owner(source, |s.channels|)])
  }

  function Next(s: State, step: Step): State {
    if !Enabled(s, step) then s
    else match step
      case TryStart(t, source) => LoadOrStore(s, t, source, Outside)
      case Poll(t, source) => Move(s, t, LoopTop(source))
      case GiveUpAtTop(t) => Move(s, t, Outside)
      case TryWait(t) =>
        var source := At(s, t).source;
        LoadOrStore(s, t, source, Waiting(source, if source in s.syncs then s.syncs[source] else 0))
      case Wake(t) => Move(s, t, LoopTop(At(s, t).source))
      case GiveUpWaiting(t) => Move(s, t, Outside)
      case Delete(t) =>
        var p := At(s, t);
        Move(s, t, Closing(p.source, p.done)).(syncs := s.syncs - {p.source})
      case Close(t) =>
        var done := At(s, t).done;
        var channel := s.channels[done];
        Move(s, t, Outside).(channels := s.channels[done := channel.(closes := channel.closes + 1)])
  }

  function Run(steps: seq<Step>): State {
    if steps == [] then INIT else Next(Run(steps[..|steps| - 1]), steps[|steps| - 1])
  }

  // ---- The invariant ----

  predicate ThreadOk(s: State, t: Thread) {
    match At(s, t)
    case Outside => true
    case LoopTop(_) => true
    case Waiting(source, done) => done < |s.channels| && s.channels[done].source == source
    case Owner(source, done) =>
      && done < |s.channels| && s.channels[done] == Channel(t, source, 0)
      && source in s.syncs && s.syncs[source] == done
    case Closing(source, done) => done < |s.channels| && s.channels[done] == Channel(t, source, 0)
  }

  /** The map holds the channel of a thread that owns the source. */
  predicate EntryOk(s: State, source: Source)
    requires source in s.syncs
  {
    var done := s.syncs[source];
    done < |s.channels| && At(s, s.channels[done].maker) == Owner(source, done)
  }

  /** A channel is closed once, or its maker is on the way to closing it. */
  predicate ChannelOk(s: State, done: nat)
    requires done < |s.channels|
  {
    var c := s.channels[done];
    c.closes == 1
    || (c.closes == 0 && (At(s, c.maker) == Owner(c.source, done) || At(s, c.maker) == Closing(c.source, done)))
  }

  ghost predicate Inv(s: State) {
    && (forall t :: ThreadOk(s, t))
    && (forall source :: source in s.syncs ==> EntryOk(s, source))
    && (forall done :: 0 <= done < |s.channels| ==> ChannelOk(s, done))
  }

  function Actor(step: Step): Thread {
    step.t
  }

  lemma StepThreads(s: State, step: Step, t: Thread)
    requires Inv(s)
    ensures ThreadOk(Next(s, step), t)
  {
    assert ThreadOk(s, t) && ThreadOk(s, Actor(step));
    if step.Delete? && At(s, t).Owner? && At(s, Actor(step)).Owner? && At(s, t).source == At(s, Actor(step)).source {
      OneOwner(s, t, Actor(step));
    }
    if step.TryWait? && At(s, Actor(step)).LoopTop? && At(s, Actor(step)).source in s.syncs {
      assert EntryOk(s, At(s, Actor(step)).source);
      assert ThreadOk(s, s.channels[s.syncs[At(s, Actor(step)).source]].maker);
    }
  }

  lemma StepEntries(s: State, step: Step, source: Source)
    requires Inv(s) && source in Next(s, step).syncs
    ensures EntryOk(Next(s, step), source)
  {
    if source in s.syncs {
      assert EntryOk(s, source);
      assert ThreadOk(s, Actor(step));
    }
  }

  lemma StepChannels(s: State, step: Step, done: nat)
    requires Inv(s) && done < |Next(s, step).channels|
    ensures ChannelOk(Next(s, step), done)
  {
    assert ThreadOk(s, Actor(step));
    if done < |s.channels| {
      assert ChannelOk(s, done);
    }
  }

  lemma {:induction false} RunInv(steps: seq<Step>)
    ensures Inv(Run(steps))
  {
    if steps != [] {
      var s, step := Run(steps[..|steps| - 1]), steps[|steps| - 1];
      RunInv(steps[..|steps| - 1]);
      forall t ensures ThreadOk(Next(s, step), t) { StepThreads(s, step, t); }
      forall source | source in Next(s, step).syncs ensures EntryOk(Next(s, step), source) {
        StepEntries(s, step, source);
      }
      forall done | 0 <= done < |Next(s, step).channels| ensures ChannelOk(Next(s, step), done) {
        StepChannels(s, step, done);
      }
    }
  }

  // ---- What it gives ----

  lemma OneOwner(s: State, t: Thread, u: Thread)
    requires Inv(s) && At(s, t).Owner? && At(s, u).Owner? && At(s, t).source == At(s, u).source
    ensures t == u
  {
    assert ThreadOk(s, t) && ThreadOk(s, u);
  }

  /** At most one thread owns a source, and while it does, the map holds its channel. */
  lemma MutualExclusion(steps: seq<Step>, t: Thread, u: Thread)
    requires At(Run(steps), t).Owner?
    ensures var s, p := Run(steps), At(Run(steps), t);
            && p.source in s.syncs && s.syncs[p.source] == p.done
            && (At(s, u).Owner? && At(s, u).source == p.source ==> t == u)
  {
    RunInv(steps);
    assert ThreadOk(Run(steps), t);
    if At(Run(steps), u).Owner? && At(Run(steps), u).source == At(Run(steps), t).source {
      OneOwner(Run(steps), t, u);
    }
  }

  /** The map has an entry for a source exactly while some thread owns it. */
  lemma BusyIffOwned(steps: seq<Step>, source: Source)
    ensures source in Run(steps).syncs
            <==> exists t :: At(Run(steps), t).Owner? && At(Run(steps), t).source == source
  {
    RunInv(steps);
    var s := Run(steps);
    if source in s.syncs {
      assert EntryOk(s, source);
      assert At(s, s.channels[s.syncs[source]].maker).source == source;
    }
    if t :| At(s, t).Owner? && At(s, t).source == source {
      assert ThreadOk(s, t);
    }
  }

  /** No channel is closed twice, and a thread that is outside has closed all it made. */
  lemma ClosedOnce(steps: seq<Step>, done: nat)
    requires done < |Run(steps).channels|
    ensures Run(steps).channels[done].closes <= 1
    ensures At(Run(steps), Run(steps).channels[done].maker).Outside? ==> Run(steps).channels[done].closes == 1
  {
    RunInv(steps);
    assert ChannelOk(Run(steps), done);
  }

  /** How many steps of its maker separate a channel from being closed. */
  function Distance(s: State, done: nat): nat
    requires done < |s.channels|
  {
    if s.channels[done].closes > 0 then 0
    else if At(s, s.channels[done].maker).Closing? then 1 else 2
  }

  /** A waiter's channel is the one in the map, about to be closed, or closed; the step that
    * brings the wake-up nearer, or the wake-up, can be taken. */
  lemma NoLostWakeUp(steps: seq<Step>, t: Thread)
    requires At(Run(steps), t).Waiting?
    ensures var s, source, done := Run(steps), At(Run(steps), t).source, At(Run(steps), t).done;
            && done < |s.channels|
            && var maker := s.channels[done].maker;
               match Distance(s, done)
               case 0 => Enabled(s, Wake(t))
               case 1 => At(s, maker) == Closing(source, done) && Enabled(s, Close(maker))
               case _ =>
                 At(s, maker) == Owner(source, done) && Enabled(s, Delete(maker))
                 && source in s.syncs && s.syncs[source] == done
    ensures var s := Run(steps); Enabled(s, Wake(t)) <==> s.channels[At(s, t).done].closes == 1
  {
    RunInv(steps);
    var s, done := Run(steps), At(Run(steps), t).done;
    assert ThreadOk(s, t) && ChannelOk(s, done);
    assert ThreadOk(s, s.channels[done].maker);
  }

  /** Whatever the others do, the wake-up only comes nearer; every step of the maker brings it
    * nearer, and once there it stays until the waiter moves. */
  lemma WakeUpComesNearer(steps: seq<Step>, t: Thread, step: Step)
    requires At(Run(steps), t).Waiting? && Enabled(Run(steps), step) && Actor(step) != t
    ensures var s, u, done := Run(steps), Run(steps + [step]), At(Run(steps), t).done;
            && At(u, t) == At(s, t)
            && done < |s.channels| <= |u.channels|
            && Distance(u, done) <= Distance(s, done)
            && (Distance(s, done) > 0 && Actor(step) == s.channels[done].maker ==>
                  Distance(u, done) < Distance(s, done))
  {
    assert (steps + [step])[..|steps|] == steps;
    RunInv(steps);
    var s, done := Run(steps), At(Run(steps), t).done;
    assert ThreadOk(s, t) && ChannelOk(s, done);
    assert ThreadOk(s, s.channels[done].maker) && ThreadOk(s, Actor(step));
  }
}
