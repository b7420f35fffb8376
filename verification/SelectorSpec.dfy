/** What the selector promises, without source ids or connections: which
    conditions each socket waits for and which one-shot timers are armed. The
    class in GSelector.dfy, which keeps the main loop's sources up to date
    incrementally, is proved to refine this machine. */
module SelectorSpec {
  import opened Common
  import opened IoCondition
  import opened Timing

  /** A socket is known by its address. */
  type Socket = nat

  /** `channel` tells whether the entry owns an I/O channel: one is made only
      when a socket is added with an I/O flag and can be made non-blocking. */
  datatype Interest = Interest(cond: NetCond, channel: bool)

  /** Idle in the main loop, or inside the handler of a dispatched source.
      `pending` is the socket whose dispatched timer still awaits its removal. */
  datatype Phase = Idle | Handling(pending: Option<Socket>)

  /** How often each socket's timer has been armed, fired and cancelled. */
  datatype Tally = Tally(armed: multiset<Socket>, fired: multiset<Socket>, cancelled: multiset<Socket>)

  datatype View = View(interest: map<Socket, Interest>, arming: map<Socket, Arming>,
                       phase: Phase, now: Micros, tally: Tally)
  {
    predicate Firing(s: Socket) { phase.Handling? && phase.pending == Some(s) }

    predicate Selects(s: Socket, flag: NetCond) {
      s in interest && interest[s].cond.And(flag) != IO_NONE
    }

    /** A socket that waits for I/O but owns no channel to watch. */
    predicate Deaf(s: Socket) { Selects(s, IO_FLAGS) && !interest[s].channel }
    predicate Watched(s: Socket) { Selects(s, IO_FLAGS) && interest[s].channel }

    ghost predicate Valid() {
      && (forall s :: s in arming ==> Selects(s, IO_TIMEOUT))
      && (phase.Handling? && phase.pending.Some? ==> phase.pending.value in arming)
      && (forall s: Socket :: Conserved(s))
    }

    /** Every arming has had exactly one fate or is still waiting for it. */
    ghost predicate Conserved(s: Socket) {
      tally.armed[s] == tally.fired[s] + tally.cancelled[s] + (if s in arming && !Firing(s) then 1 else 0)
    }

    function Disarm(s: Socket): View {
      if s !in arming then this
      else if Firing(s) then this.(arming := arming - {s}, phase := Handling(None))
      else this.(arming := arming - {s}, tally := tally.(cancelled := tally.cancelled + multiset{s}))
    }

    /** `set`; `nonblocking` tells whether the socket can be made non-blocking. */
    function SetInterest(s: Socket, cond: NetCond, nonblocking: bool): View {
      (if cond.timeout then this else Disarm(s)).(interest :=
        if cond == IO_NONE then interest - {s}
        else interest[s := Interest(cond,
          if s in interest then interest[s].channel else cond.HasIo() && nonblocking)])
    }

    /** `set_timeout` on a socket selected for IO_TIMEOUT. */
    function Arm(s: Socket, timeout: ULong): View {
      var v := Disarm(s);
      v.(arming := v.arming[s := Arming(now, timeout)], tally := v.tally.(armed := v.tally.armed + multiset{s}))
    }
  }

  /** One call a handler, or anyone else, makes on the selector. */
  datatype Call = Set(sock: Socket, cond: NetCond, nonblocking: bool) | SetTimeout(sock: Socket, timeout: ULong)

  /** `set` fails when a socket to be added for I/O cannot be made non-blocking,
      `set_timeout` when its socket is not selected for IO_TIMEOUT. */
  predicate Accepts(v: View, c: Call) {
    match c
    case Set(s, cond, nonblocking) => s in v.interest || !cond.HasIo() || nonblocking
    case SetTimeout(s, _) => v.Selects(s, IO_TIMEOUT)
  }

  function Perform(v: View, c: Call): View {
    match c
    case Set(s, cond, nonblocking) => v.SetInterest(s, cond, nonblocking)
    case SetTimeout(s, timeout) => if Accepts(v, c) then v.Arm(s, timeout) else v
  }

  /** What happens to the process, at the granularity at which its state can be
      seen: a handler's calls lie between a dispatch and its `Return`. */
  datatype Step =
    | Clock(now: Micros)
    | Request(call: Call)
    | DispatchIo(sock: Socket, reported: PollCond)
    | DispatchTimeout(sock: Socket)
    | Return

  /** What happens while a handler runs: it makes calls, and time passes. */
  type HandlerStep = s: Step | s.Clock? || s.Request? witness Clock(0)

  /** The condition a step emits to its socket, if it emits one. A dispatch
      takes place only from the idle loop and only for a live source. */
  function Emission(v: View, step: Step): Option<NetCond> {
    match step
    case DispatchIo(s, p) =>
      if v.phase.Idle? && v.Watched(s) && GCond(v.interest[s].cond).And(p) != G_NONE then Some(NCond(p)) else None
    case DispatchTimeout(s) => if v.phase.Idle? && s in v.arming then Some(IO_TIMEOUT) else None
    case _ => None
  }

  function Next(v: View, step: Step): View {
    match step
    case Clock(t) => v.(now := t)
    case Request(c) => Perform(v, c)
    case DispatchIo(s, p) => if Emission(v, step).None? then v else v.(phase := Handling(None))
    case DispatchTimeout(s) =>
      if Emission(v, step).None? then v
      else v.(phase := Handling(Some(s)), tally := v.tally.(fired := v.tally.fired + multiset{s}))
    case Return =>
      if v.phase.Handling? && v.phase.pending.Some?
      then v.(arming := v.arming - {v.phase.pending.value}, phase := Idle)
      else v.(phase := Idle)
  }

  function Run(v: View, steps: seq<Step>): View {
    if steps == [] then v else Next(Run(v, steps[..|steps| - 1]), steps[|steps| - 1])
  }

  lemma {:induction false} RunAppend(v: View, a: seq<Step>, b: seq<Step>)
    ensures Run(v, a + b) == Run(Run(v, a), b)
    decreases |b|
  {
    if b == [] {
      assert a + b == a;
    } else {
      assert (a + b)[..|a + b| - 1] == a + b[..|b| - 1];
      RunAppend(v, a, b[..|b| - 1]);
    }
  }

  lemma RunNothing(v: View)
    ensures Run(v, []) == v
  {
  }

  lemma RunOne(v: View, step: Step)
    ensures Run(v, [step]) == Next(v, step)
  {
    assert [step][..0] == [];
  }

  /** A dispatch with its whole handler, as steps. */
  function Dispatched(step: Step, handler: seq<HandlerStep>): seq<Step> {
    [step] + handler + [Return]
  }

  lemma RunOfDispatched(v: View, step: Step, handler: seq<HandlerStep>)
    ensures Run(v, Dispatched(step, handler)) == Next(Run(Next(v, step), handler), Return)
  {
    RunAppend(v, [step] + handler, [Return]);
    RunAppend(v, [step], handler);
    RunOne(v, step);
    RunOne(Run(Next(v, step), handler), Return);
  }

  const NO_TALLY := Tally(multiset{}, multiset{}, multiset{})

  function Start(now: Micros): View {
    View(map[], map[], Idle, now, NO_TALLY)
  }

  // ----- what the steps do, in plain terms -----

  /** `set` stores the condition it is given, drops the socket's timer exactly if
      IO_TIMEOUT is not in it, and touches no other socket. */
  lemma SetIs(v: View, s: Socket, cond: NetCond, nonblocking: bool)
    ensures var w, io := Perform(v, Set(s, cond, nonblocking)), cond.incoming || cond.outgoing || cond.error;
      && (s in w.interest <==> io || cond.timeout)
      && (s in w.interest ==> w.interest[s].cond == cond)
      && (s in w.interest ==>
            (w.interest[s].channel <==> if s in v.interest then v.interest[s].channel else io && nonblocking))
      && (s in w.arming <==> s in v.arming && cond.timeout)
      && (s in w.arming ==> w.arming[s] == v.arming[s])
      && w.interest - {s} == v.interest - {s} && w.arming - {s} == v.arming - {s} && w.now == v.now
      && w.phase == (if s in v.arming && !cond.timeout && v.phase == Handling(Some(s)) then Handling(None) else v.phase)
      && w.tally.armed == v.tally.armed && w.tally.fired == v.tally.fired
      && (Accepts(v, Set(s, cond, nonblocking)) <==> s in v.interest || !io || nonblocking)
  {
  }

  /** `set_timeout` arms the socket from now on, exactly if IO_TIMEOUT is selected
      for it, and touches no other socket and no interest. */
  lemma SetTimeoutIs(v: View, s: Socket, timeout: ULong)
    ensures var w := Perform(v, SetTimeout(s, timeout));
      if s in v.interest && v.interest[s].cond.timeout then
        && Accepts(v, SetTimeout(s, timeout))
        && s in w.arming && w.arming[s].begin == v.now && w.arming[s].timeout == timeout
        && w.interest == v.interest && w.arming - {s} == v.arming - {s} && w.now == v.now
        && w.phase == (if s in v.arming && v.phase == Handling(Some(s)) then Handling(None) else v.phase)
        && w.tally.armed == v.tally.armed + multiset{s} && w.tally.fired == v.tally.fired
      else !Accepts(v, SetTimeout(s, timeout)) && w == v
  {
  }

  /** A dispatch emits exactly when a live source is ready for something that its
      socket still waits for, and tells it just what was reported. */
  lemma EmissionIs(v: View, s: Socket, p: PollCond)
    ensures Emission(v, DispatchIo(s, p)).Some? <==>
      && v.phase.Idle? && s in v.interest && v.interest[s].channel
      && var cond := v.interest[s].cond;
         (cond.incoming && p.inp) || (cond.outgoing && p.out) || (cond.error && (p.err || p.hup || p.nval))
    ensures Emission(v, DispatchIo(s, p)).Some? ==>
      Emission(v, DispatchIo(s, p)).value == NetCond(p.inp, p.out, p.err || p.hup || p.nval, false)
    ensures Emission(v, DispatchTimeout(s)) ==
      if v.phase.Idle? && s in v.arming then Some(NetCond(false, false, false, true)) else None
  {
    if s in v.interest { BitByBit(p, v.interest[s].cond); }
  }

  /** What the other steps change: a dispatched timer counts as fired and stays
      until its handler returns. */
  lemma NextIs(v: View, s: Socket, p: PollCond, now: Micros)
    ensures Next(v, Clock(now)) == v.(now := now)
    ensures var w := Next(v, DispatchIo(s, p));
      w == if Emission(v, DispatchIo(s, p)).Some? then v.(phase := Handling(None)) else v
    ensures var w := Next(v, DispatchTimeout(s));
      if v.phase.Idle? && s in v.arming then
        && w.interest == v.interest && w.arming == v.arming && w.now == v.now && w.phase == Handling(Some(s))
        && w.tally.fired == v.tally.fired + multiset{s}
        && w.tally.armed == v.tally.armed && w.tally.cancelled == v.tally.cancelled
      else w == v
    ensures var w := Next(v, Return);
      && w.phase == Idle && w.interest == v.interest && w.now == v.now && w.tally == v.tally
      && w.arming == if v.phase.Handling? && v.phase.pending.Some? then v.arming - {v.phase.pending.value} else v.arming
  {
  }

  /** Who is deaf, and who is watched. */
  lemma DeafIs(v: View, s: Socket)
    ensures var waits := s in v.interest &&
        (v.interest[s].cond.incoming || v.interest[s].cond.outgoing || v.interest[s].cond.error);
      && (v.Deaf(s) <==> waits && !v.interest[s].channel)
      && (v.Watched(s) <==> waits && v.interest[s].channel)
  {
  }

  // ----- what every step keeps -----

  lemma DisarmKeepsValid(v: View, s: Socket)
    requires v.Valid()
    ensures var w := v.Disarm(s); w.Valid() && s !in w.arming && !w.Firing(s) && w.interest == v.interest
    ensures forall t :: t in v.Disarm(s).arming ==> t in v.arming
  {
    var w := v.Disarm(s);
    forall t: Socket ensures w.Conserved(t) { assert v.Conserved(t); }
  }

  lemma SetInterestKeepsValid(v: View, s: Socket, cond: NetCond, nonblocking: bool)
    requires v.Valid()
    ensures v.SetInterest(s, cond, nonblocking).Valid()
  {
    hide View.Disarm;
    DisarmKeepsValid(v, s);
    var d, w := if cond.timeout then v else v.Disarm(s), v.SetInterest(s, cond, nonblocking);
    forall t: Socket ensures w.Conserved(t) { assert d.Conserved(t); }
  }

  lemma ArmKeepsValid(v: View, s: Socket, timeout: ULong)
    requires v.Valid() && v.Selects(s, IO_TIMEOUT)
    ensures v.Arm(s, timeout).Valid()
  {
    hide View.Disarm;
    DisarmKeepsValid(v, s);
    var d, w := v.Disarm(s), v.Arm(s, timeout);
    forall t: Socket ensures w.Conserved(t) { assert d.Conserved(t); }
  }

  lemma PerformKeepsValid(v: View, c: Call)
    requires v.Valid()
    ensures Perform(v, c).Valid()
  {
    hide View.SetInterest, View.Arm;
    match c
    case Set(s, cond, nonblocking) => SetInterestKeepsValid(v, s, cond, nonblocking);
    case SetTimeout(s, timeout) => if Accepts(v, c) { ArmKeepsValid(v, s, timeout); }
  }

  lemma NextKeepsValid(v: View, step: Step)
    requires v.Valid()
    ensures Next(v, step).Valid()
  {
    if step.Request? {
      PerformKeepsValid(v, step.call);
    } else {
      var w := Next(v, step);
      forall t: Socket ensures w.Conserved(t) { assert v.Conserved(t); }
    }
  }

  /** Conservation of timers, and timers only where IO_TIMEOUT is selected, in
      every state of every run, inside handlers as well. */
  lemma {:induction false} EveryRunConservesTimers(now: Micros, steps: seq<Step>)
    ensures Run(Start(now), steps).Valid()
    ensures var v := Run(Start(now), steps);
      && (forall s: Socket :: v.tally.armed[s] == v.tally.fired[s] + v.tally.cancelled[s] +
            if s in v.arming && v.phase != Handling(Some(s)) then 1 else 0)
      && (forall s :: s in v.arming ==> s in v.interest && v.interest[s].cond.timeout)
  {
    if steps != [] {
      EveryRunConservesTimers(now, steps[..|steps| - 1]);
      NextKeepsValid(Run(Start(now), steps[..|steps| - 1]), steps[|steps| - 1]);
    }
    ValidIs(Run(Start(now), steps));
  }

  lemma ValidIs(v: View)
    ensures v.Valid() <==>
      && (forall s: Socket :: v.tally.armed[s] == v.tally.fired[s] + v.tally.cancelled[s] +
            if s in v.arming && v.phase != Handling(Some(s)) then 1 else 0)
      && (forall s :: s in v.arming ==> s in v.interest && v.interest[s].cond.timeout)
      && (v.phase.Handling? && v.phase.pending.Some? ==> v.phase.pending.value in v.arming)
  {
    if v.Valid() {
      forall s: Socket
        ensures v.tally.armed[s] == v.tally.fired[s] + v.tally.cancelled[s] +
          if s in v.arming && v.phase != Handling(Some(s)) then 1 else 0
      {
        assert v.Conserved(s);
      }
    }
  }

  /** Whatever a run emits goes to a socket that is selected at that moment and
      meets its interest; if the poll layer reports only what was asked for, the
      socket is told nothing it did not ask for. */
  lemma EveryEmissionIsWanted(now: Micros, steps: seq<Step>, step: Step)
    requires Emission(Run(Start(now), steps), step).Some?
    ensures var v := Run(Start(now), steps);
      && v.Selects(step.sock, Emission(v, step).value)
      && (step.DispatchIo? && GCond(v.interest[step.sock].cond).And(step.reported) == step.reported ==>
            v.interest[step.sock].cond.And(Emission(v, step).value) == Emission(v, step).value)
      && (step.DispatchTimeout? ==> step.sock in v.arming)
  {
    var v := Run(Start(now), steps);
    EveryRunConservesTimers(now, steps);
    if step.DispatchIo? {
      var i := v.interest[step.sock].cond;
      MeetsMaskIffMeetsInterest(step.reported, i);
      Galois(step.reported, i);
    }
  }

  // ----- one-shot timers -----

  /** The same state with the dispatched timer already forgotten. */
  function Forget(v: View): View {
    if v.phase.Handling? && v.phase.pending.Some?
    then v.(arming := v.arming - {v.phase.pending.value}, phase := Handling(None))
    else v
  }

  lemma ForgetCommutesWithDisarm(v: View, s: Socket)
    requires v.phase.Handling? && v.phase.pending.Some? ==> v.phase.pending.value in v.arming
    ensures Forget(v.Disarm(s)) == Forget(v).Disarm(s)
  {
    assert Forget(v.Disarm(s)).arming == Forget(v).Disarm(s).arming;
  }

  lemma ForgetCommutesWithPerform(v: View, c: Call)
    requires v.Valid()
    ensures Forget(Perform(v, c)) == Perform(Forget(v), c)
  {
    hide View.Disarm;
    DisarmKeepsValid(v, c.sock);
    ForgetCommutesWithDisarm(v, c.sock);
    var d := v.Disarm(c.sock);
    if c.SetTimeout? && Accepts(v, c) {
      var w := d.arming[c.sock := Arming(v.now, c.timeout)];
      if d.phase.Handling? && d.phase.pending.Some? {
        assert w - {d.phase.pending.value} == (d.arming - {d.phase.pending.value})[c.sock := w[c.sock]];
      }
    }
  }

  lemma {:induction false} ForgetCommutes(v: View, handler: seq<HandlerStep>)
    requires v.Valid()
    ensures Run(v, handler).Valid() && Forget(Run(v, handler)) == Run(Forget(v), handler)
    decreases |handler|
  {
    hide Perform;
    if handler != [] {
      var before, last := handler[..|handler| - 1], handler[|handler| - 1];
      ForgetCommutes(v, before);
      NextKeepsValid(Run(v, before), last);
      if last.Request? {
        ForgetCommutesWithPerform(Run(v, before), last.call);
      }
    }
  }

  lemma {:induction false} HandlersKeepPhase(v: View, handler: seq<HandlerStep>)
    requires v.phase == Handling(None)
    ensures Run(v, handler).phase == Handling(None)
    decreases |handler|
  {
    if handler != [] { HandlersKeepPhase(v, handler[..|handler| - 1]); }
  }

  /** A timer is one-shot whatever its handler does: dispatching it, running any
      handler and returning false is the same as removing the timer first and
      then running the handler. So a timer re-armed by its own handler survives,
      even across deleting and re-adding its socket, and one that is not
      re-armed is gone. */
  lemma TimeoutIsOneShot(v: View, s: Socket, handler: seq<HandlerStep>)
    requires v.Valid() && v.phase.Idle? && s in v.arming
    ensures var fired := v.(arming := v.arming - {s}, phase := Handling(None),
                            tally := v.tally.(fired := v.tally.fired + multiset{s}));
      Next(Run(Next(v, DispatchTimeout(s)), handler), Return) == Run(fired, handler).(phase := Idle)
  {
    var w := Next(v, DispatchTimeout(s));
    NextKeepsValid(v, DispatchTimeout(s));
    ForgetCommutes(w, handler);
    HandlersKeepPhase(Forget(w), handler);
  }

  /** Without a `set_timeout` on it, an unarmed socket stays unarmed. */
  lemma {:induction false} OnlySetTimeoutArms(v: View, s: Socket, steps: seq<Step>)
    requires s !in v.arming
    requires forall i :: 0 <= i < |steps| && steps[i].Request? && steps[i].call.SetTimeout? ==> steps[i].call.sock != s
    ensures s !in Run(v, steps).arming
    decreases |steps|
  {
    if steps != [] { OnlySetTimeoutArms(v, s, steps[..|steps| - 1]); }
  }

  // ----- re-arming with what is left -----

  /** At each of the instants, `get_timeout` and `set_timeout` with its answer. */
  function RearmedAt(v: View, s: Socket, instants: seq<Micros>): View
    requires v.Selects(s, IO_TIMEOUT) && s in v.arming
    decreases |instants|
  {
    if instants == [] then v
    else
      var w := v.(now := instants[0]);
      var left := Answer(Now(w.now), Now(w.arming[s].begin), w.arming[s].timeout);
      RearmedAt(Perform(w, SetTimeout(s, left)), s, instants[1..])
  }

  /** Doing so n times before the timer is due never moves the deadline back and
      moves it on by at most 999 microseconds each time. */
  lemma {:induction false} RearmedTimersDriftForward(v: View, s: Socket, instants: seq<Micros>)
    requires v.Selects(s, IO_TIMEOUT) && s in v.arming && Pending(v.arming[s], instants)
    ensures var w := RearmedAt(v, s, instants); s in w.arming && w.arming[s] == Rearms(v.arming[s], instants)
    ensures var before, after := v.arming[s].Deadline(), RearmedAt(v, s, instants).arming[s].Deadline();
      before <= after <= before + 999 * |instants|
    decreases |instants|
  {
    RearmsDriftForward(v.arming[s], instants);
    if instants != [] {
      var w := v.(now := instants[0]);
      var next := Perform(w, SetTimeout(s, Answer(Now(w.now), Now(w.arming[s].begin), w.arming[s].timeout)));
      RearmedTimersDriftForward(next, s, instants[1..]);
    }
  }

  // ----- sockets that lose their I/O -----

  /** An I/O flag is asked for on a socket whose entry has no channel, or whose
      entry is new and cannot get one. */
  predicate Deafens(v: View, c: Call) {
    c.Set? && c.cond.HasIo() && if c.sock in v.interest then !v.interest[c.sock].channel else !c.nonblocking
  }

  /** Exactly when a call leaves a socket waiting for I/O that no source will
      ever report. */
  lemma DeafExactly(v: View, c: Call)
    requires forall s: Socket :: !v.Deaf(s)
    ensures (exists s: Socket :: Perform(v, c).Deaf(s)) <==> Deafens(v, c)
  {
    var w := Perform(v, c);
    if Deafens(v, c) {
      assert w.Deaf(c.sock);
    } else {
      forall s: Socket ensures !w.Deaf(s) { assert !v.Deaf(s); }
    }
  }

  ghost predicate NobodyDeaf(v: View) {
    forall s: Socket :: !v.Deaf(s)
  }

  ghost predicate NoneDeafens(v: View, steps: seq<Step>) {
    forall i :: 0 <= i < |steps| && steps[i].Request? ==> !Deafens(Run(v, steps[..i]), steps[i].call)
  }

  /** A run keeps every socket that waits for I/O watched all the way exactly if
      it makes no such call. */
  lemma {:induction false} OthersAreWatched(v: View, steps: seq<Step>)
    requires NobodyDeaf(v)
    ensures NoneDeafens(v, steps) <==> forall i :: 0 <= i <= |steps| ==> NobodyDeaf(Run(v, steps[..i]))
    decreases |steps|
  {
    hide Next, Deafens, NobodyDeaf;
    if steps == [] {
      assert steps[..0] == [];
    } else {
      var n := |steps| - 1;
      var before := steps[..n];
      assert steps[..n + 1] == steps && forall i :: 0 <= i <= n ==> before[..i] == steps[..i];
      OthersAreWatched(v, before);
      assert NoneDeafens(v, steps) <==>
        NoneDeafens(v, before) && (steps[n].Request? ==> !Deafens(Run(v, before), steps[n].call));
      if NoneDeafens(v, before) {
        assert NobodyDeaf(Run(v, before[..n]));
        NextKeepsEarsExactly(Run(v, before), steps[n]);
      }
    }
  }

  lemma NextKeepsEarsExactly(v: View, step: Step)
    requires NobodyDeaf(v)
    ensures NobodyDeaf(Next(v, step)) <==> !(step.Request? && Deafens(v, step.call))
  {
    if step.Request? {
      DeafExactly(v, step.call);
    } else {
      forall s: Socket ensures !Next(v, step).Deaf(s) { assert !v.Deaf(s); }
    }
  }

  /** A socket selected for its timer alone and then also for input never hears
      of that input, however often it becomes readable. */
  lemma {:induction false} TimeoutFirstThenInputIsDeaf(now: Micros, s: Socket, reported: PollCond)
    ensures var a, b := Request(Set(s, IO_TIMEOUT, true)), Request(Set(s, IO_TIMEOUT.(incoming := true), true));
      var v := Run(Start(now), [a, b]);
      v.Selects(s, IO_INCOMING) && v.Deaf(s) && Emission(v, DispatchIo(s, reported)).None?
  {
    var a, b := Request(Set(s, IO_TIMEOUT, true)), Request(Set(s, IO_TIMEOUT.(incoming := true), true));
    assert [a, b][..1] == [a] && [a][..0] == [];
    assert Run(Start(now), [a]) == Next(Start(now), a);
    assert Run(Start(now), [a, b]) == Next(Run(Start(now), [a]), b);
  }

  /** Neither does one whose `fcntl` fails when it is selected for input. */
  lemma FailedFcntlIsDeaf(now: Micros, s: Socket, reported: PollCond)
    ensures var c := Set(s, IO_INCOMING, false);
      var v := Run(Start(now), [Request(c)]);
      !Accepts(Start(now), c) && v.Selects(s, IO_INCOMING) && v.Deaf(s) && Emission(v, DispatchIo(s, reported)).None?
  {
    RunOne(Start(now), Request(Set(s, IO_INCOMING, false)));
  }
}
