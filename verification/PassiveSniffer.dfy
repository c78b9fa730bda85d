/**
 * The sniffer's buffer of discovered devices.  With a commit callback a discovery is committed at once,
 * without one it waits in the buffer; stopping flushes the buffer and starting empties it, also when the
 * capture then fails to start.
 *
 * A flush holds the buffer lock from beginning to end, so it is one step; how far it gets before the
 * callback fails or the time limit strikes is a parameter.
 */
module PassiveSniffers {

  /** A discovered device; its contents play no part here. */
  type Fingerprint = nat

  /** `accepted` logs every discovery that was committed or buffered. */
  datatype State = State(hasCallback: bool, running: bool, buffer: seq<Fingerprint>, committed: seq<Fingerprint>,
                         accepted: seq<Fingerprint>)

  const EMPTY := State(false, false, [], [], [])

  /** `succeeds` says whether the callback commits the discovery; `reached` is how many commits succeed
      before the flush breaks off, if it does; `StartFails` is a start that found its interface and could
      not capture on it. */
  datatype Step =
    | RegisterCallback
    | Start
    | StartFails
    | Stop(reached: nat)
    | Discover(fingerprint: Fingerprint, succeeds: bool)

  predicate Enabled(s: State, step: Step) {
    match step
    case Start => !s.running
    case StartFails => !s.running
    case Stop(_) => s.running
    case _ => true
  }

  /** A flush that breaks off keeps the rest; without a callback nothing can break off, and the whole
      buffer is cleared. */
  function Flush(s: State, reached: nat): State {
    if !s.hasCallback || reached >= |s.buffer| then
      s.(buffer := [], committed := s.committed + if s.hasCallback then s.buffer else [])
    else
      s.(buffer := s.buffer[reached..], committed := s.committed + s.buffer[..reached])
  }

  function Next(s: State, step: Step): State
    requires Enabled(s, step)
  {
    match step
    case RegisterCallback => s.(hasCallback := true)
    case Start => s.(running := true, buffer := [])
    case StartFails => s.(buffer := [])
    case Stop(reached) => Flush(s.(running := false), reached)
    case Discover(fingerprint, succeeds) =>
      if !s.hasCallback then s.(buffer := s.buffer + [fingerprint], accepted := s.accepted + [fingerprint])
      else if succeeds then s.(committed := s.committed + [fingerprint], accepted := s.accepted + [fingerprint])
      else s
  }

  predicate CanRun(s: State, steps: seq<Step>)
    decreases |steps|
  {
    steps == [] || (Enabled(s, steps[0]) && CanRun(Next(s, steps[0]), steps[1..]))
  }

  function Run(s: State, steps: seq<Step>): State
    requires CanRun(s, steps)
    decreases |steps|
  {
    if steps == [] then s else Run(Next(s, steps[0]), steps[1..])
  }

  /** The steps that drop discoveries: flushing a buffer nobody can commit, and starting again, successfully
      or not, while the buffer still holds something. */
  predicate Drops(s: State, step: Step) {
    s.buffer != [] && (step.Start? || step.StartFails? || (step.Stop? && !s.hasCallback))
  }

  predicate NeverDrops(s: State, steps: seq<Step>)
    requires CanRun(s, steps)
    decreases |steps|
  {
    steps == [] || (!Drops(s, steps[0]) && NeverDrops(Next(s, steps[0]), steps[1..]))
  }

  function Held(s: State): multiset<Fingerprint> {
    multiset(s.committed) + multiset(s.buffer)
  }

  /** Every accepted discovery is committed or buffered, as often as it was accepted. */
  predicate Conserved(s: State) {
    Held(s) == multiset(s.accepted)
  }

  lemma FlushHolds(s: State, reached: nat)
    requires s.hasCallback || s.buffer == []
    ensures Held(Flush(s, reached)) == Held(s)
    ensures Flush(s, reached).committed + Flush(s, reached).buffer == s.committed + s.buffer
  {
    if reached < |s.buffer| { assert s.buffer == s.buffer[..reached] + s.buffer[reached..]; }
  }

  /** What a step accepts. */
  function Accepts(s: State, step: Step): multiset<Fingerprint> {
    if step.Discover? && (!s.hasCallback || step.succeeds) then multiset{step.fingerprint} else multiset{}
  }

  /** A step changes what is held exactly by what it accepts, unless it drops the buffer. */
  lemma HeldStep(s: State, step: Step)
    requires Enabled(s, step)
    ensures var s' := Next(s, step);
            if Drops(s, step) then
              s'.accepted == s.accepted && s'.buffer == [] && s'.committed == s.committed
            else
              && Held(s') == Held(s) + Accepts(s, step)
              && multiset(s'.accepted) == multiset(s.accepted) + Accepts(s, step)
  {
    match step {
      case RegisterCallback =>
        SameHeld(s, Next(s, step));
      case Start =>
        if !Drops(s, step) { SameHeld(s, Next(s, step)); }
      case StartFails =>
        if !Drops(s, step) { SameHeld(s, Next(s, step)); }
      case Stop(reached) =>
        var stopped := s.(running := false);
        FlushAccepts(stopped, reached);
        if !Drops(s, step) {
          FlushHolds(stopped, reached);
          SameHeld(s, stopped);
        }
      case Discover(fingerprint, succeeds) =>
        DiscoverHolds(s, fingerprint, succeeds);
    }
  }

  lemma SameHeld(s: State, s': State)
    requires s'.committed == s.committed && s'.buffer == s.buffer
    ensures Held(s') == Held(s) == Held(s) + multiset{}
    ensures multiset(s.accepted) == multiset(s.accepted) + multiset{}
  {
  }

  lemma FlushAccepts(s: State, reached: nat)
    ensures Flush(s, reached).accepted == s.accepted
    ensures !s.hasCallback ==> Flush(s, reached).buffer == [] && Flush(s, reached).committed == s.committed
  {
  }

  lemma DiscoverHolds(s: State, fingerprint: Fingerprint, succeeds: bool)
    ensures var step := Discover(fingerprint, succeeds);
            && Held(Next(s, step)) == Held(s) + Accepts(s, step)
            && multiset(Next(s, step).accepted) == multiset(s.accepted) + Accepts(s, step)
  {
    assert multiset([fingerprint]) == multiset{fingerprint};
  }

  /** What is held never exceeds what was accepted, and a deficit never heals. */
  lemma {:induction false} RunConserves(s: State, steps: seq<Step>)
    requires CanRun(s, steps) && Held(s) <= multiset(s.accepted)
    ensures Held(Run(s, steps)) <= multiset(Run(s, steps).accepted)
    ensures Conserved(Run(s, steps)) <==> Conserved(s) && NeverDrops(s, steps)
    decreases |steps|
  {
    hide Held, Next, Drops;
    if steps != [] {
      var s' := Next(s, steps[0]);
      StepConserves(s, steps[0]);
      RunConserves(s', steps[1..]);
    }
  }

  lemma StepConserves(s: State, step: Step)
    requires Enabled(s, step) && Held(s) <= multiset(s.accepted)
    ensures var s' := Next(s, step);
            && Held(s') <= multiset(s'.accepted)
            && (Conserved(s') <==> Conserved(s) && !Drops(s, step))
  {
    HeldStep(s, step);
    if Drops(s, step) {
      var s' := Next(s, step);
      assert s.buffer[0] in multiset(s.buffer);
      assert Held(s')[s.buffer[0]] < Held(s)[s.buffer[0]] <= multiset(s'.accepted)[s.buffer[0]];
    } else {
      SplitStep(Held(s), multiset(s.accepted), Accepts(s, step));
    }
  }

  lemma SplitStep(held: multiset<Fingerprint>, accepted: multiset<Fingerprint>, more: multiset<Fingerprint>)
    requires held <= accepted
    ensures held + more <= accepted + more && (held + more == accepted + more <==> held == accepted)
  {
    forall f ensures held[f] + more[f] == (held + more)[f] && accepted[f] + more[f] == (accepted + more)[f] {
    }
  }

  /** Over every run of the sniffer: nothing accepted is lost exactly when no step drops the buffer. */
  lemma DiscoveriesConserved(steps: seq<Step>)
    requires CanRun(EMPTY, steps)
    ensures Conserved(Run(EMPTY, steps)) <==> NeverDrops(EMPTY, steps)
  {
    RunConserves(EMPTY, steps);
  }

  /** With the callback in place before the first discovery nothing is ever buffered, so nothing is
      ever dropped. */
  lemma {:induction false} CallbackFirst(s: State, steps: seq<Step>)
    requires s.hasCallback && s.buffer == [] && CanRun(s, steps)
    ensures NeverDrops(s, steps) && Run(s, steps).buffer == []
    decreases |steps|
  {
    if steps != [] { CallbackFirst(Next(s, steps[0]), steps[1..]); }
  }

  // ---------------------------------------------------------------- what a run amounts to

  /** The discoveries among the steps that are accepted: all of them without a callback, those whose commit succeeds
      with one. */
  function Accepted(steps: seq<Step>, hasCallback: bool): seq<Fingerprint>
    decreases |steps|
  {
    if steps == [] then []
    else AcceptedBy(steps[0], hasCallback) + Accepted(steps[1..], hasCallback || steps[0].RegisterCallback?)
  }

  function AcceptedBy(step: Step, hasCallback: bool): seq<Fingerprint> {
    if step.Discover? && (!hasCallback || step.succeeds) then [step.fingerprint] else []
  }

  /** Whether the sniffer runs in the end: the last successful start or stop decides. */
  predicate RunsAfter(steps: seq<Step>, running: bool)
    decreases |steps|
  {
    if steps == [] then running
    else RunsAfter(steps[1..], if steps[0].Start? then true else if steps[0].Stop? then false else running)
  }

  /** Every run in terms of its steps alone: what was accepted, whether the sniffer runs and whether discoveries are
      committed at once. */
  lemma {:induction false} RunTells(s: State, steps: seq<Step>)
    requires CanRun(s, steps)
    ensures Run(s, steps).accepted == s.accepted + Accepted(steps, s.hasCallback)
    ensures Run(s, steps).running == RunsAfter(steps, s.running)
    ensures Run(s, steps).hasCallback == (s.hasCallback || RegisterCallback in steps)
    decreases |steps|
  {
    if steps != [] {
      StepTells(s, steps[0]);
      hide Next, AcceptedBy;
      RunTells(Next(s, steps[0]), steps[1..]);
      assert steps == [steps[0]] + steps[1..];
      assert s.accepted + (AcceptedBy(steps[0], s.hasCallback) + Accepted(steps[1..], Next(s, steps[0]).hasCallback))
          == (s.accepted + AcceptedBy(steps[0], s.hasCallback)) + Accepted(steps[1..], Next(s, steps[0]).hasCallback);
    }
  }

  lemma StepTells(s: State, step: Step)
    requires Enabled(s, step)
    ensures var s' := Next(s, step);
            && s'.accepted == s.accepted + AcceptedBy(step, s.hasCallback)
            && s'.running == (if step.Start? then true else if step.Stop? then false else s.running)
            && s'.hasCallback == (s.hasCallback || step.RegisterCallback?)
  {
  }

  datatype StartOutcome = Started | AlreadyRunning | NoInterface | CaptureFailed

  class PassiveSniffer {
    var hasCallback: bool
    var running: bool
    var buffer: seq<Fingerprint>
    var committed: seq<Fingerprint>
    ghost var accepted: seq<Fingerprint>

    ghost function Current(): State
      reads this
    {
      State(hasCallback, running, buffer, committed, accepted)
    }

    constructor ()
      ensures Current() == EMPTY
    {
      hasCallback, running, buffer, committed, accepted := false, false, [], [], [];
    }

    method OnDeviceDiscovered()
      modifies this`hasCallback
      ensures Current() == Next(old(Current()), RegisterCallback) && hasCallback
    {
      hasCallback := true;
    }

    /** `found` says whether the interface is available, `captures` whether the capture starts on it. */
    method Start(found: bool, captures: bool) returns (outcome: StartOutcome)
      modifies this`running, this`buffer
      ensures outcome == (if old(running) then AlreadyRunning else if !found then NoInterface
                          else if captures then Started else CaptureFailed)
      ensures Current() == match outcome
                           case Started => Next(old(Current()), Step.Start)
                           case CaptureFailed => Next(old(Current()), Step.StartFails)
                           case _ => old(Current())
      ensures running == (outcome == Started || outcome == AlreadyRunning)
      ensures old(buffer) == [] ==> committed + buffer == old(committed + buffer)
    {
      if running { return AlreadyRunning; }
      if !found { return NoInterface; }
      buffer := [];
      if captures {
        running, outcome := true, Started;
      } else {
        running, outcome := false, CaptureFailed;
      }
    }

    /** The commit callback succeeds `reached` times, then raises or runs out of time. */
    method FlushBuffer(reached: nat)
      modifies this`buffer, this`committed
      ensures Current() == Flush(old(Current()), reached)
    {
      if buffer == [] {
        assert old(committed) + [] == old(committed);
        return;
      }
      var count := 0;
      for i := 0 to |buffer|
        invariant buffer == old(buffer) && count == (if hasCallback then i else 0) <= reached
        invariant committed == old(committed) + buffer[..count]
      {
        if hasCallback {
          if count == reached {
            buffer := buffer[count..];
            return;
          }
          assert buffer[..count + 1] == buffer[..count] + [buffer[i]];
          committed := committed + [buffer[i]];
          count := count + 1;
        }
      }
      assert buffer[..|buffer|] == buffer;
      buffer := [];
    }

    method Stop(reached: nat) returns (ok: bool)
      modifies this`running, this`buffer, this`committed
      ensures ok == old(running) && !running
      ensures Current() == if ok then Next(old(Current()), Step.Stop(reached)) else old(Current())
      ensures hasCallback || old(buffer) == [] ==> committed + buffer == old(committed + buffer)
    {
      if !running { return false; }
      hide Flush, Held;
      running, ok := false, true;
      if hasCallback || buffer == [] { FlushHolds(Current(), reached); }
      FlushBuffer(reached);
    }

    method Discover(fingerprint: Fingerprint, succeeds: bool)
      modifies this`buffer, this`committed, this`accepted
      ensures Current() == Next(old(Current()), Step.Discover(fingerprint, succeeds))
      ensures accepted == old(accepted) + if !hasCallback || succeeds then [fingerprint] else []
      ensures Conserved(old(Current())) ==> Conserved(Current())
    {
      DiscoverHolds(Current(), fingerprint, succeeds);
      hide Held;
      if hasCallback {
        if succeeds {
          committed := committed + [fingerprint];
          accepted := accepted + [fingerprint];
        }
      } else {
        buffer := buffer + [fingerprint];
        accepted := accepted + [fingerprint];
      }
    }
  }
}
