/**
 The launcher's supervisor loop (cmd/openvox-ca/launcher.go) as a step relation
 over everything that can interleave with it: the two children, the two
 goroutines that wait for them, the reload and termination channels, and the
 hard-kill timer, whose function runs on its own and is not stopped by a late
 Stop.

 An event is one atomic step of one party. A run is any sequence of enabled
 events from the moment both children are up, so a lemma over all runs is a
 lemma over all interleavings.
 */
module Supervisor {
  import opened Options
  import opened Roles

  /** What Wait returns for a child; zero is a nil error. */
  type ExitStatus = int

  datatype Child = Running | Exited(status: ExitStatus) | Reported(status: ExitStatus)

  datatype ChildResult = ChildResult(name: Role, status: ExitStatus)

  datatype Signal = Hup | Term | Kill

  /** A notification on the service manager's socket. */
  datatype Message = Stopping(cause: Cause) | FromChild(name: Role, text: string)

  datatype Cause = Terminated | Crashed(first: ChildResult)

  /** The statements of a teardown, in program order. */
  datatype Stage = Notifying | SignallingFrontend | SignallingSigner | Arming | Awaiting(left: nat)
                 | StoppingTimer | Resending | Returned

  datatype Pc = Selecting | Teardown(cause: Cause, stage: Stage)

  datatype Timer = Unarmed | Armed | Firing | FrontendKilled | Fired | Stopped

  datatype World = World(
    pc: Pc,
    signer: Child,
    frontend: Child,
    exitCh: seq<ChildResult>,
    hups: nat,
    sigs: nat,
    timer: Timer,
    // What has happened so far.
    reloads: nat,
    heard: nat,
    toSigner: seq<Signal>,
    toFrontend: seq<Signal>,
    messages: seq<Message>,
    received: seq<ChildResult>)

  const INITIAL := World(Selecting, Running, Running, [], 0, 0, Unarmed, 0, 0, [], [], [], [])

  datatype Event =
    | HupArrives | SigArrives
    | ChildSays(name: Role, text: string)
    | ChildExits(name: Role, status: ExitStatus)
    | WaiterSends(name: Role)
    | TimerFires | TimerKillsFrontend | TimerKillsSigner
    | TakeHup | TakeSig | TakeExit
    | Proceed

  function ChildOf(w: World, name: Role): (c: Child) {
    if name == Signer then w.signer else w.frontend
  }

  function WithChild(w: World, name: Role, c: Child): (r: World) {
    if name == Signer then w.(signer := c) else w.(frontend := c)
  }

  predicate Enabled(w: World, e: Event) {
    match e
    case HupArrives => true
    case SigArrives => true
    case ChildSays(name, _) => ChildOf(w, name).Running?
    case ChildExits(name, _) => ChildOf(w, name).Running?
    case WaiterSends(name) => ChildOf(w, name).Exited?
    case TimerFires => w.timer == Armed
    case TimerKillsFrontend => w.timer == Firing
    case TimerKillsSigner => w.timer == FrontendKilled
    case TakeHup => w.pc.Selecting? && w.hups > 0
    case TakeSig => w.pc.Selecting? && w.sigs > 0
    case TakeExit => w.pc.Selecting? && w.exitCh != []
    case Proceed =>
      w.pc.Teardown? && !w.pc.stage.Returned? && (w.pc.stage.Awaiting? ==> w.exitCh != [])
  }

  /** One statement of the teardown. */
  function Advance(w: World): (r: World)
    requires Enabled(w, Proceed)
  {
    var cause := w.pc.cause;
    match w.pc.stage
    case Notifying => w.(messages := w.messages + [Stopping(cause)], pc := Teardown(cause, SignallingFrontend))
    case SignallingFrontend => w.(toFrontend := w.toFrontend + [Term], pc := Teardown(cause, SignallingSigner))
    case SignallingSigner => w.(toSigner := w.toSigner + [Term], pc := Teardown(cause, Arming))
    case Arming => w.(timer := Armed, pc := Teardown(cause, Awaiting(if cause.Terminated? then 2 else 1)))
    case Awaiting(left) =>
      w.(received := w.received + [w.exitCh[0]], exitCh := w.exitCh[1..],
         pc := Teardown(cause, if left >= 2 then Awaiting(left - 1) else StoppingTimer))
    case StoppingTimer =>
      w.(timer := if w.timer == Armed then Stopped else w.timer,
         pc := Teardown(cause, if cause.Terminated? then Returned else Resending))
    case Resending => w.(messages := w.messages + [Stopping(cause)], pc := Teardown(cause, Returned))
    case Returned => w
  }

  function Next(w: World, e: Event): (r: World)
    requires Enabled(w, e)
  {
    match e
    case HupArrives => w.(hups := w.hups + 1)
    case SigArrives => w.(sigs := w.sigs + 1)
    case ChildSays(name, text) => w.(messages := w.messages + [FromChild(name, text)])
    case ChildExits(name, status) => WithChild(w, name, Exited(status))
    case WaiterSends(name) =>
      var status := ChildOf(w, name).status;
      WithChild(w, name, Reported(status)).(exitCh := w.exitCh + [ChildResult(name, status)])
    case TimerFires => w.(timer := Firing)
    case TimerKillsFrontend => w.(timer := FrontendKilled, toFrontend := w.toFrontend + [Kill])
    case TimerKillsSigner => w.(timer := Fired, toSigner := w.toSigner + [Kill])
    case TakeHup =>
      // A forward to a frontend that has exited reaches no one, and the loop goes on.
      w.(hups := w.hups - 1, reloads := w.reloads + 1, toFrontend := w.toFrontend + [Hup],
         heard := w.heard + (if w.frontend.Running? then 1 else 0))
    case TakeSig => w.(sigs := w.sigs - 1, pc := Teardown(Terminated, Notifying))
    case TakeExit =>
      w.(exitCh := w.exitCh[1..], received := w.received + [w.exitCh[0]], pc := Teardown(Crashed(w.exitCh[0]), Notifying))
    case Proceed => Advance(w)
  }

  /** The events lead from `w` to `r`, each enabled when it happens. */
  ghost predicate Run(w: World, events: seq<Event>, r: World)
    decreases |events|
  {
    if events == [] then w == r
    else Enabled(w, events[0]) && Run(Next(w, events[0]), events[1..], r)
  }

  // ----- The invariant of every interleaving

  ghost predicate Accounted(signer: Child, frontend: Child, results: seq<ChildResult>) {
    if signer.Reported? && frontend.Reported? then
      || results == [ChildResult(Signer, signer.status), ChildResult(Frontend, frontend.status)]
      || results == [ChildResult(Frontend, frontend.status), ChildResult(Signer, signer.status)]
    else if signer.Reported? then results == [ChildResult(Signer, signer.status)]
    else if frontend.Reported? then results == [ChildResult(Frontend, frontend.status)]
    else results == []
  }

  /** The results taken from the channel, then the ones still in it: each child's one result, once it was sent. */
  ghost predicate ResultsAccounted(w: World) {
    Accounted(w.signer, w.frontend, w.received + w.exitCh)
  }

  /** How far a teardown still has to go, counted in statements. */
  function StageRank(s: Stage): (n: nat) {
    match s
    case Notifying => 8
    case SignallingFrontend => 7
    case SignallingSigner => 6
    case Arming => 5
    case Awaiting(left) => if left >= 2 then 4 else 3
    case StoppingTimer => 2
    case Resending => 1
    case Returned => 0
  }

  /** How many results each point of the program has taken. */
  function Taken(pc: Pc): (n: int) {
    if pc.Selecting? then 0
    else
      var early := if pc.cause.Terminated? then 0 else 1;
      match pc.stage
      case Awaiting(left) => 2 - left
      case StoppingTimer => 2
      case Resending => 2
      case Returned => 2
      case _ => early
  }

  function Count(signals: seq<Signal>, s: Signal): (n: nat) { multiset(signals)[s] }

  ghost predicate PcConsistent(w: World) {
    && |w.received| == Taken(w.pc)
    && (w.pc.Teardown? && w.pc.cause.Crashed? ==> w.received != [] && w.received[0] == w.pc.cause.first)
    && (w.pc.Teardown? && w.pc.stage.Awaiting? ==>
          w.pc.stage.left == 1 || (w.pc.stage.left == 2 && w.pc.cause.Terminated?))
    && (w.pc.Teardown? && w.pc.stage.Resending? ==> w.pc.cause.Crashed?)
  }

  ghost predicate TimerConsistent(w: World) {
    && (w.timer == Unarmed <==> w.pc.Selecting? || StageRank(w.pc.stage) >= 5)
    && (w.pc.Teardown? && w.pc.stage.Awaiting? ==> w.timer != Stopped)
    && (w.pc.Teardown? && StageRank(w.pc.stage) <= 1 ==> w.timer != Armed)
  }

  /** Exactly what the frontend has been sent so far. */
  ghost predicate FrontendSent(w: World) {
    && Count(w.toFrontend, Hup) == w.reloads
    && Count(w.toFrontend, Term) == (if w.pc.Teardown? && StageRank(w.pc.stage) <= 6 then 1 else 0)
    && Count(w.toFrontend, Kill) == (if w.timer == FrontendKilled || w.timer == Fired then 1 else 0)
  }

  /** Exactly what the signer has been sent so far. */
  ghost predicate SignerSent(w: World) {
    && Count(w.toSigner, Hup) == 0
    && Count(w.toSigner, Term) == (if w.pc.Teardown? && StageRank(w.pc.stage) <= 5 then 1 else 0)
    && Count(w.toSigner, Kill) == (if w.timer == Fired then 1 else 0)
  }

  /** After the crash path's return the launcher's own message is the last, and no one is left to follow it. */
  ghost predicate LastWordKept(w: World) {
    w.pc.Teardown? && w.pc.stage.Returned? && w.pc.cause.Crashed? ==>
      w.messages != [] && w.messages[|w.messages| - 1] == Stopping(w.pc.cause)
  }

  /** How often the service manager was told of a stop, whatever its cause. */
  function Stops(messages: seq<Message>): (n: nat) {
    if messages == [] then 0
    else Stops(messages[..|messages| - 1]) + (if messages[|messages| - 1].Stopping? then 1 else 0)
  }

  /** How often it was told of a stop for this cause. */
  function StopsFor(messages: seq<Message>, cause: Cause): (n: nat) {
    if messages == [] then 0
    else StopsFor(messages[..|messages| - 1], cause) + (if messages[|messages| - 1] == Stopping(cause) then 1 else 0)
  }

  /** Nothing was announced before a teardown, and in one its own cause is: once before anything is signalled, and again by a crash. */
  ghost predicate Announced(w: World) {
    if w.pc.Selecting? then Stops(w.messages) == 0
    else
      var n := if w.pc.stage.Notifying? then 0 else if w.pc.stage.Returned? && w.pc.cause.Crashed? then 2 else 1;
      Stops(w.messages) == StopsFor(w.messages, w.pc.cause) == n
  }

  ghost predicate Inv(w: World) {
    && ResultsAccounted(w) && PcConsistent(w) && TimerConsistent(w) && FrontendSent(w) && SignerSent(w)
    && LastWordKept(w) && Announced(w)
  }

  lemma {:induction false} StopsSnoc(messages: seq<Message>, m: Message, cause: Cause)
    ensures Stops(messages + [m]) == Stops(messages) + (if m.Stopping? then 1 else 0)
    ensures StopsFor(messages + [m], cause) == StopsFor(messages, cause) + (if m == Stopping(cause) then 1 else 0)
  {
    assert (messages + [m])[..|messages|] == messages;
  }

  lemma {:induction false} StopsForWithin(messages: seq<Message>, cause: Cause)
    ensures StopsFor(messages, cause) <= Stops(messages)
    ensures StopsFor(messages, cause) > 0 ==> Stopping(cause) in messages
  {
    if messages == [] {
    } else {
      StopsForWithin(messages[..|messages| - 1], cause);
    }
  }

  lemma AnnouncedKept(w: World, e: Event)
    requires Announced(w) && PcConsistent(w) && Enabled(w, e)
    ensures Announced(Next(w, e))
  {
    match e
    case ChildSays(name, text) =>
      StopsSnoc(w.messages, FromChild(name, text), if w.pc.Teardown? then w.pc.cause else Terminated);
    case TakeSig => StopsForWithin(w.messages, Terminated);
    case TakeExit => StopsForWithin(w.messages, Crashed(w.exitCh[0]));
    case Proceed => AnnouncedKeptByTeardown(w);
    case _ =>
  }

  lemma AnnouncedKeptByTeardown(w: World)
    requires Announced(w) && PcConsistent(w) && Enabled(w, Proceed)
    ensures Announced(Advance(w))
  {
    if w.pc.stage.Notifying? || w.pc.stage.Resending? {
      StopsSnoc(w.messages, Stopping(w.pc.cause), w.pc.cause);
    }
  }

  /** Taking two results leaves no child running. */
  lemma BothGone(w: World)
    requires ResultsAccounted(w) && |w.received| == 2
    ensures w.signer.Reported? && w.frontend.Reported? && w.exitCh == []
  {
  }

  lemma CountSnoc(signals: seq<Signal>, sent: Signal, s: Signal)
    ensures Count(signals + [sent], s) == Count(signals, s) + (if s == sent then 1 else 0)
  {
  }

  lemma CountsSnoc(signals: seq<Signal>, sent: Signal)
    ensures forall s :: Count(signals + [sent], s) == Count(signals, s) + (if s == sent then 1 else 0)
  {
    forall s ensures Count(signals + [sent], s) == Count(signals, s) + (if s == sent then 1 else 0) {
      CountSnoc(signals, sent, s);
    }
  }

  lemma SentKeptByTeardown(w: World)
    requires FrontendSent(w) && SignerSent(w) && TimerConsistent(w) && Enabled(w, Proceed)
    ensures FrontendSent(Advance(w)) && SignerSent(Advance(w))
  {
    match w.pc.stage
    case SignallingFrontend => CountsSnoc(w.toFrontend, Term);
    case SignallingSigner => CountsSnoc(w.toSigner, Term);
    case _ =>
  }

  /** Sending is all that changes the counts, and each sender's own state moves with it. */
  lemma SentKept(w: World, e: Event)
    requires FrontendSent(w) && SignerSent(w) && TimerConsistent(w) && Enabled(w, e)
    ensures FrontendSent(Next(w, e)) && SignerSent(Next(w, e))
  {
    if e.Proceed? {
      SentKeptByTeardown(w);
    } else if e.TimerKillsFrontend? || e.TimerKillsSigner? {
      SentKeptByTimer(w, e);
    } else if e.TakeHup? {
      CountsSnoc(w.toFrontend, Hup);
    }
  }

  lemma SentKeptByTimer(w: World, e: Event)
    requires FrontendSent(w) && SignerSent(w) && TimerConsistent(w) && Enabled(w, e)
    requires e.TimerKillsFrontend? || e.TimerKillsSigner?
    ensures FrontendSent(Next(w, e)) && SignerSent(Next(w, e))
  {
    CountsSnoc(w.toFrontend, Kill);
    CountsSnoc(w.toSigner, Kill);
  }

  lemma ResultsKept(w: World, e: Event)
    requires ResultsAccounted(w) && Enabled(w, e)
    ensures ResultsAccounted(Next(w, e))
  {
    var n := Next(w, e);
    if e.WaiterSends? {
      assert n.received + n.exitCh == (w.received + w.exitCh) + [ChildResult(e.name, ChildOf(w, e.name).status)];
    } else if w.exitCh != [] && n.exitCh == w.exitCh[1..] {
      assert w.exitCh == [w.exitCh[0]] + w.exitCh[1..];
      assert w.received + w.exitCh == (w.received + [w.exitCh[0]]) + w.exitCh[1..];
    }
  }

  lemma PcKept(w: World, e: Event)
    requires PcConsistent(w) && Enabled(w, e)
    ensures PcConsistent(Next(w, e))
  {
  }

  lemma TimerKept(w: World, e: Event)
    requires TimerConsistent(w) && PcConsistent(w) && Enabled(w, e)
    ensures TimerConsistent(Next(w, e))
  {
  }

  lemma LastWordKeptByStep(w: World, e: Event)
    requires Inv(w) && Enabled(w, e)
    ensures LastWordKept(Next(w, e))
  {
    if w.pc.Teardown? && w.pc.stage.Returned? {
      BothGone(w);
    }
  }

  lemma InvKept(w: World, e: Event)
    requires Inv(w) && Enabled(w, e)
    ensures Inv(Next(w, e))
  {
    ResultsKept(w, e);
    PcKept(w, e);
    TimerKept(w, e);
    SentKept(w, e);
    LastWordKeptByStep(w, e);
    AnnouncedKept(w, e);
  }

  lemma {:induction false} InvAlways(w: World, events: seq<Event>, r: World)
    requires Inv(w) && Run(w, events, r)
    ensures Inv(r)
    decreases |events|
  {
    if events == [] {
    } else {
      InvKept(w, events[0]);
      InvAlways(Next(w, events[0]), events[1..], r);
    }
  }

  // ----- What every run satisfies

  /**
   Whenever the loop has returned: both children have exited, exactly their two
   results were taken and none is left over, and the outcome is the nil error
   exactly on the termination path. On the crash path the error names the child
   whose result came first, with its own exit status.
   */
  lemma ReturnsAfterBothExits(events: seq<Event>, w: World)
    requires Run(INITIAL, events, w) && w.pc.Teardown? && w.pc.stage.Returned?
    ensures w.signer.Reported? && w.frontend.Reported? && w.exitCh == []
    ensures multiset(w.received) ==
            multiset{ChildResult(Signer, w.signer.status), ChildResult(Frontend, w.frontend.status)}
    ensures w.pc.cause.Crashed? ==>
              w.pc.cause.first == w.received[0] && ChildOf(w, w.pc.cause.first.name).status == w.pc.cause.first.status
  {
    InvAlways(INITIAL, events, w);
    BothGone(w);
    assert w.received == [w.received[0], w.received[1]];
    assert w.received + w.exitCh == w.received;
  }

  /** Which of the two sources ended the loop: the first one ever taken from. */
  function FirstTaken(events: seq<Event>): (r: Option<Event>)
    decreases |events|
  {
    if events == [] then None
    else if events[0].TakeSig? || events[0].TakeExit? then Some(events[0])
    else FirstTaken(events[1..])
  }

  lemma {:induction false} CauseIsFirstTaken(w: World, events: seq<Event>, r: World)
    requires Run(w, events, r)
    ensures w.pc.Teardown? ==> r.pc.Teardown? && r.pc.cause == w.pc.cause
    ensures w.pc.Selecting? ==>
              (r.pc.Teardown? <==> FirstTaken(events).Some?) &&
              (r.pc.Teardown? ==> (r.pc.cause.Terminated? <==> FirstTaken(events) == Some(TakeSig)))
    decreases |events|
  {
    if events == [] {
    } else {
      CauseIsFirstTaken(Next(w, events[0]), events[1..], r);
    }
  }

  /** The launcher returns nil exactly when a termination signal was taken before any exit result. */
  lemma NilIffTerminated(events: seq<Event>, w: World)
    requires Run(INITIAL, events, w) && w.pc.Teardown? && w.pc.stage.Returned?
    ensures w.pc.cause.Terminated? <==> FirstTaken(events) == Some(TakeSig)
  {
    CauseIsFirstTaken(INITIAL, events, w);
  }

  function TakenHups(events: seq<Event>): (n: nat)
    decreases |events|
  {
    if events == [] then 0 else (if events[0].TakeHup? then 1 else 0) + TakenHups(events[1..])
  }

  function Occurrences(events: seq<Event>, e: Event): (n: nat)
    decreases |events|
  {
    if events == [] then 0 else (if events[0] == e then 1 else 0) + Occurrences(events[1..], e)
  }

  /** The two signal channels neither lose nor invent: what arrived is what was taken and what still waits. */
  lemma {:induction false} ChannelsConserve(w: World, events: seq<Event>, r: World)
    requires Run(w, events, r)
    ensures w.hups + Occurrences(events, HupArrives) == r.hups + Occurrences(events, TakeHup)
    ensures w.sigs + Occurrences(events, SigArrives) == r.sigs + Occurrences(events, TakeSig)
    ensures w.pc.Teardown? ==> Occurrences(events, TakeHup) == 0 && Occurrences(events, TakeSig) == 0
    ensures Occurrences(events, TakeSig) <= 1
    decreases |events|
  {
    if events == [] {
    } else {
      ChannelsConserve(Next(w, events[0]), events[1..], r);
    }
  }

  lemma {:induction false} ReloadsCounted(w: World, events: seq<Event>, r: World)
    requires Run(w, events, r)
    ensures r.reloads == w.reloads + TakenHups(events)
    decreases |events|
  {
    if events == [] {
    } else {
      ReloadsCounted(Next(w, events[0]), events[1..], r);
    }
  }

  /** Every reload taken goes once to the frontend, and none ever to the signer. */
  lemma ReloadsForwarded(events: seq<Event>, w: World)
    requires Run(INITIAL, events, w)
    ensures Count(w.toFrontend, Hup) == TakenHups(events)
    ensures Count(w.toSigner, Hup) == 0
  {
    InvAlways(INITIAL, events, w);
    ReloadsCounted(INITIAL, events, w);
  }

  /** The reloads taken before the frontend exits. */
  function TakenWhileUp(events: seq<Event>): (n: nat)
    decreases |events|
  {
    if events == [] || (events[0].ChildExits? && events[0].name == Frontend) then 0
    else (if events[0].TakeHup? then 1 else 0) + TakenWhileUp(events[1..])
  }

  lemma {:induction false} HeardCounted(w: World, events: seq<Event>, r: World)
    requires Run(w, events, r)
    ensures r.heard == w.heard + (if w.frontend.Running? then TakenWhileUp(events) else 0)
    decreases |events|
  {
    if events == [] {
    } else {
      HeardCounted(Next(w, events[0]), events[1..], r);
    }
  }

  /**
   A reload is heard exactly if it was taken while the frontend was still running;
   the ones taken between its exit and the teardown reach no one.
   */
  lemma ReloadsHeard(events: seq<Event>, w: World)
    requires Run(INITIAL, events, w)
    ensures w.heard == TakenWhileUp(events) <= TakenHups(events)
    ensures w.frontend.Running? ==> w.heard == TakenHups(events)
  {
    HeardCounted(INITIAL, events, w);
    UpAllAlong(INITIAL, events, w);
  }

  lemma {:induction false} UpAllAlong(w: World, events: seq<Event>, r: World)
    requires Run(w, events, r)
    ensures TakenWhileUp(events) <= TakenHups(events)
    ensures r.frontend.Running? ==> w.frontend.Running? && TakenWhileUp(events) == TakenHups(events)
    decreases |events|
  {
    if events == [] {
    } else {
      UpAllAlong(Next(w, events[0]), events[1..], r);
    }
  }

  /**
   Each child is asked to terminate once by the time the launcher waits, is never
   asked while the loop is still selecting, and is killed at most once and only
   after the timer fired.
   */
  lemma BothAskedOnce(events: seq<Event>, w: World)
    requires Run(INITIAL, events, w)
    ensures w.pc.Selecting? ==> Count(w.toFrontend, Term) == Count(w.toSigner, Term) == 0
    ensures w.pc.Teardown? && (w.pc.stage.Awaiting? || w.pc.stage.Returned?) ==>
              Count(w.toFrontend, Term) == Count(w.toSigner, Term) == 1
    ensures Count(w.toFrontend, Kill) + Count(w.toSigner, Kill) > 0 ==> w.timer == FrontendKilled || w.timer == Fired
    ensures Count(w.toFrontend, Kill) <= 1 && Count(w.toSigner, Kill) <= 1
    ensures w.pc.Teardown? && w.pc.stage.Returned? ==> w.timer != Unarmed && w.timer != Armed
  {
    InvAlways(INITIAL, events, w);
  }

  lemma {:induction false} NoStops(messages: seq<Message>, m: Message)
    requires Stops(messages) == 0 && m in messages
    ensures !m.Stopping?
  {
    if m == messages[|messages| - 1] {
    } else {
      assert messages == messages[..|messages| - 1] + [messages[|messages| - 1]];
      NoStops(messages[..|messages| - 1], m);
    }
  }

  /**
   What the service manager is told, over every run: nothing of a stop while the
   loop selects, the cause before either child is asked to go, and by the return
   exactly one notice of a termination, or exactly two of a crash, naming the
   child whose result came first.
   */
  lemma StopIsAnnounced(events: seq<Event>, w: World)
    requires Run(INITIAL, events, w)
    ensures w.pc.Selecting? ==> forall m :: m in w.messages ==> !m.Stopping?
    ensures Count(w.toFrontend, Term) + Count(w.toSigner, Term) > 0 ==> w.pc.Teardown? && Stopping(w.pc.cause) in w.messages
    ensures w.pc.Teardown? && w.pc.stage.Returned? ==>
              if w.pc.cause.Terminated? then Stops(w.messages) == StopsFor(w.messages, Terminated) == 1
              else w.received != [] && Stops(w.messages) == StopsFor(w.messages, Crashed(w.received[0])) == 2
  {
    InvAlways(INITIAL, events, w);
    if w.pc.Selecting? {
      forall m | m in w.messages ensures !m.Stopping? {
        NoStops(w.messages, m);
      }
    } else {
      StopsForWithin(w.messages, w.pc.cause);
    }
  }

  /** Once a teardown has begun no reload is forwarded any more, and a timer stopped in time kills no one. */
  lemma {:induction false} TeardownForwardsNothing(w: World, events: seq<Event>, r: World)
    requires Run(w, events, r) && w.pc.Teardown?
    ensures r.reloads == w.reloads && r.heard == w.heard && r.hups >= w.hups
    ensures w.timer == Stopped && w.pc.stage.Returned? ==>
              r.timer == Stopped && r.toFrontend == w.toFrontend && r.toSigner == w.toSigner
    decreases |events|
  {
    if events == [] {
    } else {
      TeardownForwardsNothing(Next(w, events[0]), events[1..], r);
    }
  }

  /**
   On the crash path the last message the service manager ever sees is the
   launcher's, naming the child that died first: it is last at the return, and
   nothing that happens afterwards is a message.
   */
  lemma CrashIsTheLastWord(events: seq<Event>, w: World, later: seq<Event>, r: World)
    requires Run(INITIAL, events, w) && w.pc.Teardown? && w.pc.stage.Returned? && w.pc.cause.Crashed?
    requires Run(w, later, r)
    ensures w.received != [] && r.messages != []
    ensures r.messages[|r.messages| - 1] == Stopping(Crashed(w.received[0]))
    ensures r.messages == w.messages
  {
    InvAlways(INITIAL, events, w);
    BothGone(w);
    SilentAfterReturn(w, later, r);
  }

  lemma {:induction false} SilentAfterReturn(w: World, later: seq<Event>, r: World)
    requires Run(w, later, r) && w.pc.Teardown? && w.pc.stage.Returned?
    requires w.signer.Reported? && w.frontend.Reported?
    ensures r.messages == w.messages && r.pc == w.pc
    decreases |later|
  {
    if later == [] {
    } else {
      SilentAfterReturn(Next(w, later[0]), later[1..], r);
    }
  }

  lemma {:induction false} Then(w: World, events: seq<Event>, m: World, e: Event)
    requires Run(w, events, m) && Enabled(m, e)
    ensures Run(w, events + [e], Next(m, e))
    decreases |events|
  {
    if events == [] {
      assert events + [e] == [e] && [e][1..] == [];
    } else {
      Then(Next(w, events[0]), events[1..], m, e);
      assert (events + [e])[1..] == events[1..] + [e];
    }
  }

  lemma Extend(events: seq<Event>, m: World, e: Event) returns (longer: seq<Event>, r: World)
    requires Run(INITIAL, events, m) && Enabled(m, e)
    ensures longer == events + [e] && r == Next(m, e) && Run(INITIAL, longer, r)
  {
    Then(INITIAL, events, m, e);
    longer, r := events + [e], Next(m, e);
  }

  /** In every state the loop selects in, a reload can arrive and be forwarded, and a termination signal can end it. */
  lemma SignalsAreServed(w: World)
    requires w.pc.Selecting?
    ensures Enabled(w, HupArrives) && Enabled(Next(w, HupArrives), TakeHup)
    ensures Next(Next(w, HupArrives), TakeHup) ==
            w.(reloads := w.reloads + 1, toFrontend := w.toFrontend + [Hup],
               heard := w.heard + (if w.frontend.Running? then 1 else 0))
    ensures Enabled(w, SigArrives) && Enabled(Next(w, SigArrives), TakeSig)
    ensures Next(Next(w, SigArrives), TakeSig) == w.(pc := Teardown(Terminated, Notifying))
  {
  }

  /** A run in which the signer dies first, up to the point where the loop takes its result. */
  lemma SignerDies() returns (events: seq<Event>, w: World)
    ensures Run(INITIAL, events, w) && w.frontend == Running && w.exitCh == []
    ensures w.pc == Teardown(Crashed(ChildResult(Signer, 1)), Notifying) && w.messages == []
  {
    events, w := [], INITIAL;
    events, w := Extend(events, w, ChildExits(Signer, 1));
    events, w := Extend(events, w, WaiterSends(Signer));
    events, w := Extend(events, w, TakeExit);
  }

  /** The same up to the wait for the frontend. */
  lemma SignerDiesFirst() returns (events: seq<Event>, w: World)
    ensures Run(INITIAL, events, w) && w.frontend == Running && w.exitCh == []
    ensures w.pc == Teardown(Crashed(ChildResult(Signer, 1)), Awaiting(1))
    ensures w.messages == [Stopping(w.pc.cause)]
  {
    events, w := SignerDies();
    events, w := Extend(events, w, Proceed);
    events, w := Extend(events, w, Proceed);
    events, w := Extend(events, w, Proceed);
    events, w := Extend(events, w, Proceed);
  }

  /**
   Without the second notification the surviving child's drain status would be
   the last word: there is a crash run that reaches the point before it that way.
   */
  lemma ResendIsNeeded() returns (events: seq<Event>, w: World)
    ensures Run(INITIAL, events, w) && w.pc == Teardown(Crashed(ChildResult(Signer, 1)), Resending)
    ensures w.messages == [Stopping(w.pc.cause), FromChild(Frontend, "draining")]
  {
    events, w := SignerDiesFirst();
    events, w := Extend(events, w, ChildSays(Frontend, "draining"));
    events, w := Extend(events, w, ChildExits(Frontend, 0));
    events, w := Extend(events, w, WaiterSends(Frontend));
    events, w := Extend(events, w, Proceed);
    events, w := Extend(events, w, Proceed);
  }

  // ----- Teardown ends

  function ChildRank(c: Child): (n: nat) { if c.Running? then 2 else if c.Exited? then 1 else 0 }

  function TimerRank(t: Timer): (n: nat) {
    match t
    case Unarmed => 4
    case Armed => 3
    case Firing => 2
    case FrontendKilled => 1
    case Fired => 0
    case Stopped => 0
  }

  /** Work left in a teardown. */
  function Rank(w: World): (n: nat)
    requires w.pc.Teardown?
  {
    StageRank(w.pc.stage) + TimerRank(w.timer) + ChildRank(w.signer) + ChildRank(w.frontend)
  }

  predicate Outside(e: Event) { e.HupArrives? || e.SigArrives? || e.ChildSays? }

  function Inside(events: seq<Event>): (n: nat)
    decreases |events|
  {
    if events == [] then 0 else (if Outside(events[0]) then 0 else 1) + Inside(events[1..])
  }

  /** Every step not from outside is counted. */
  lemma {:induction false} InsideCounts(events: seq<Event>)
    ensures Inside(events) <= |events|
    ensures (forall e :: e in events ==> !Outside(e)) ==> Inside(events) == |events|
  {
    if events == [] {
    } else {
      InsideCounts(events[1..]);
    }
  }

  lemma RankFalls(w: World, e: Event)
    requires PcConsistent(w) && TimerConsistent(w) && Enabled(w, e) && w.pc.Teardown?
    ensures Next(w, e).pc.Teardown?
    ensures if Outside(e) then Rank(Next(w, e)) == Rank(w) else Rank(Next(w, e)) < Rank(w)
  {
  }

  lemma {:induction false} WorkIsBounded(w: World, events: seq<Event>, r: World)
    requires Inv(w) && w.pc.Teardown? && Run(w, events, r)
    ensures r.pc.Teardown? && Inside(events) + Rank(r) <= Rank(w)
    decreases |events|
  {
    if events == [] {
    } else {
      RankFalls(w, events[0]);
      InvKept(w, events[0]);
      WorkIsBounded(Next(w, events[0]), events[1..], r);
    }
  }

  /** A teardown takes at most sixteen steps of its own, whatever arrives or is said meanwhile. */
  lemma TeardownIsBounded(before: seq<Event>, w: World, events: seq<Event>, r: World)
    requires Run(INITIAL, before, w) && w.pc.Teardown? && Run(w, events, r)
    ensures Inside(events) <= 16
  {
    InvAlways(INITIAL, before, w);
    WorkIsBounded(w, events, r);
  }

  /** Steps that happen by themselves: the launcher's, the waiters', the timer's, and the exit of a killed child. */
  ghost predicate Inevitable(w: World, e: Event) {
    match e
    case Proceed => true
    case WaiterSends(_) => true
    case TimerFires => true
    case TimerKillsFrontend => true
    case TimerKillsSigner => true
    case ChildExits(name, _) => Count(if name == Signer then w.toSigner else w.toFrontend, Kill) > 0
    case _ => false
  }

  /** While the launcher waits on an empty channel, some child's result is still to come. */
  lemma SomeoneIsLeft(w: World)
    requires ResultsAccounted(w) && PcConsistent(w) && w.pc.Teardown? && w.pc.stage.Awaiting? && w.exitCh == []
    ensures !(w.signer.Reported? && w.frontend.Reported?)
  {
    assert w.received + w.exitCh == w.received;
  }

  /**
   Until the return, some step that happens by itself is always possible: a
   child that ignores its termination signal cannot hold the launcher, because
   the hard kill comes.
   */
  lemma TeardownNeverSticks(before: seq<Event>, w: World) returns (e: Event)
    requires Run(INITIAL, before, w) && w.pc.Teardown? && !w.pc.stage.Returned?
    ensures Enabled(w, e) && Inevitable(w, e)
  {
    InvAlways(INITIAL, before, w);
    if Enabled(w, Proceed) {
      return Proceed;
    }
    SomeoneIsLeft(w);
    var child := if w.signer.Reported? then Frontend else Signer;
    match w.timer {
      case Armed => e := TimerFires;
      case Firing => e := TimerKillsFrontend;
      case FrontendKilled => e := TimerKillsSigner;
      case _ => e := if ChildOf(w, child).Running? then ChildExits(child, 137) else WaiterSends(child);
    }
  }

  /** Every run that has taken an end of the loop and cannot go on by itself has returned. */
  lemma TeardownEnds(events: seq<Event>, w: World)
    requires Run(INITIAL, events, w) && FirstTaken(events).Some?
    requires forall e :: Enabled(w, e) ==> !Inevitable(w, e)
    ensures w.pc.Teardown? && w.pc.stage.Returned?
  {
    CauseIsFirstTaken(INITIAL, events, w);
    if !w.pc.stage.Returned? {
      var e := TeardownNeverSticks(events, w);
      assert false;
    }
  }

  /** Every event of the run is one that happens by itself. */
  ghost predicate RunsByItself(w: World, events: seq<Event>, r: World)
    decreases |events|
  {
    if events == [] then w == r
    else Enabled(w, events[0]) && Inevitable(w, events[0]) && RunsByItself(Next(w, events[0]), events[1..], r)
  }

  /** From every moment of a teardown the return is at most sixteen such steps away. */
  lemma {:induction false} TeardownCompletes(before: seq<Event>, w: World) returns (events: seq<Event>, r: World)
    requires Run(INITIAL, before, w) && w.pc.Teardown?
    ensures RunsByItself(w, events, r) && r.pc.Teardown? && r.pc.stage.Returned? && r.pc.cause == w.pc.cause
    ensures |events| <= Rank(w) <= 16
    decreases Rank(w)
  {
    InvAlways(INITIAL, before, w);
    if w.pc.stage.Returned? {
      events, r := [], w;
    } else {
      var e := TeardownNeverSticks(before, w);
      RankFalls(w, e);
      Then(INITIAL, before, w, e);
      var rest;
      rest, r := TeardownCompletes(before + [e], Next(w, e));
      events := [e] + rest;
      assert events[1..] == rest;
    }
  }
}
