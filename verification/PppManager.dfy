/** The pppd manager of sxx-ril-pdp.c: a state machine fed by a pipe of signals
    from clients, the timer and child exits. */
module PppManager {
  import opened Basics

  datatype Stm = IDLE | STARTING | RUNNING | EXCEPTION | STOPPING | HALTING

  datatype Sig = START | STOP | TIMER | EXIT | WAKEUP | HALT | RESTART

  /** What the environment decides while a signal is handled: whether the interface
      is up, whether the modem reports a connection, the pid of a new child (0 when
      fork fails), and whether a stop queues an EXIT. */
  datatype Choice = Choice(up: bool, connected: bool, pid: nat, exits: bool)

  /** What happens to children: a fork, with 0 when it fails, a child that is killed and
      waited for, and a child that exits by itself. */
  datatype Event = Fork(pid: nat) | Killed(pid: nat) | Died(pid: nat)

  /** The fields of g_pm that the machine works on, the pipe, and the record of what
      happened to children. */
  datatype Core = Core(stm: Stm, pppid: nat, pipe: seq<Sig>, log: seq<Event>)

  // ----- one signal

  /** _start_pppd. */
  function Started(c: Core, e: Choice): Core {
    c.(pppid := if e.pid != 0 then e.pid else c.pppid, log := c.log + [Fork(e.pid)])
  }

  /** _stop_pppd: the child that dies may or may not reach the signal handler first. */
  function Stopped(c: Core, e: Choice): Core {
    if c.pppid != 0 then
      c.(pppid := 0, pipe := if e.exits then c.pipe + [EXIT] else c.pipe, log := c.log + [Killed(c.pppid)])
    else c
  }

  /** pppd_connect_status. */
  predicate Connected(c: Core, e: Choice) {
    c.pppid != 0 && e.up
  }

  /** The switch of pm_thread; None is the -1 left when nothing was read. */
  function React(c: Core, sig: Option<Sig>, e: Choice): Core {
    match (c.stm, sig)
    case (IDLE, Some(START)) => Started(c.(stm := STARTING), e)
    case (STARTING, Some(TIMER)) => if Connected(c, e) then c.(stm := RUNNING) else c
    case (STARTING, Some(EXIT)) => c.(stm := EXCEPTION)
    case (STARTING, Some(STOP)) => c.(stm := STOPPING)
    case (RUNNING, Some(TIMER)) => if Connected(c, e) then c else c.(stm := EXCEPTION)
    case (RUNNING, Some(EXIT)) => Started(c.(stm := STARTING), e)
    case (RUNNING, Some(STOP)) => c.(stm := STOPPING)
    case (RUNNING, Some(WAKEUP)) => if e.connected then c else c.(stm := EXCEPTION)
    case (RUNNING, Some(HALT)) => Stopped(c.(stm := HALTING), e)
    case (EXCEPTION, Some(TIMER)) => Started(Stopped(c, e), e).(stm := STARTING)
    case (STOPPING, Some(TIMER)) => Stopped(c, e).(stm := IDLE)
    case (HALTING, Some(RESTART)) => Started(c, e).(stm := STARTING)
    case _ => c
  }

  /** Calls of _start_pppd on record. */
  function Starts(log: seq<Event>): nat {
    if log == [] then 0 else Starts(log[..|log| - 1]) + if log[|log| - 1].Fork? then 1 else 0
  }

  /** The child that the record says is alive, or 0. */
  function Alive(log: seq<Event>): nat {
    if log == [] then 0
    else
      match log[|log| - 1]
      case Fork(pid) => if pid != 0 then pid else Alive(log[..|log| - 1])
      case Killed(_) => 0
      case Died(_) => 0
  }

  /** No child is forked while another is alive, and only the one alive is killed or dies. */
  ghost predicate OneAtATime(log: seq<Event>) {
    forall k :: 0 <= k < |log| ==> Fitting(log, k)
  }

  predicate Fitting(log: seq<Event>, k: nat)
    requires k < |log|
  {
    match log[k]
    case Fork(_) => Alive(log[..k]) == 0
    case Killed(pid) => pid == Alive(log[..k]) != 0
    case Died(pid) => pid == Alive(log[..k]) != 0
  }

  lemma LogNext(log: seq<Event>, x: Event)
    ensures Starts(log + [x]) == Starts(log) + if x.Fork? then 1 else 0
    ensures Alive(log + [x]) == if x.Fork? then (if x.pid != 0 then x.pid else Alive(log)) else 0
    ensures OneAtATime(log + [x]) <==>
            OneAtATime(log) && (if x.Fork? then Alive(log) == 0 else x.pid == Alive(log) != 0)
  {
    var l := log + [x];
    assert l[..|log|] == log;
    assert forall k :: 0 <= k < |log| ==> l[..k] == log[..k];
    assert OneAtATime(l) ==> Fitting(l, |log|);
    assert forall k :: 0 <= k < |log| ==> (Fitting(l, k) <==> Fitting(log, k));
  }

  /** The signals on which _start_pppd is called. */
  predicate CallsStart(stm: Stm, sig: Option<Sig>) {
    match (stm, sig)
    case (IDLE, Some(START)) => true
    case (RUNNING, Some(EXIT)) => true
    case (EXCEPTION, Some(TIMER)) => true
    case (HALTING, Some(RESTART)) => true
    case _ => false
  }

  /** The signals on which _stop_pppd is called. */
  predicate CallsStop(stm: Stm, sig: Option<Sig>) {
    match (stm, sig)
    case (RUNNING, Some(HALT)) => true
    case (EXCEPTION, Some(TIMER)) => true
    case (STOPPING, Some(TIMER)) => true
    case _ => false
  }

  function Kills(c: Core, sig: Option<Sig>): seq<Event> {
    if CallsStop(c.stm, sig) && c.pppid != 0 then [Killed(c.pppid)] else []
  }

  function Forks(c: Core, sig: Option<Sig>, e: Choice): seq<Event> {
    if CallsStart(c.stm, sig) then [Fork(e.pid)] else []
  }

  lemma Nothing(log: seq<Event>, x: seq<Event>)
    ensures log + [] + x == log + x && log + x + [] == log + x
  {
  }

  lemma ReactionLog(c: Core, sig: Option<Sig>, e: Choice)
    ensures React(c, sig, e).log == c.log + Kills(c, sig) + Forks(c, sig, e)
  {
    Nothing(c.log, []);
    Nothing(c.log, Kills(c, sig));
    Nothing(c.log, Forks(c, sig, e));
  }

  /** What a reaction does to children: it forks on exactly the signals of CallsStart, and
      kills the tracked child, before that, on exactly those of CallsStop. */
  lemma ReactionIs(c: Core, sig: Option<Sig>, e: Choice)
    ensures var d := React(c, sig, e);
            && d.log == c.log + Kills(c, sig) + Forks(c, sig, e)
            && Starts(d.log) == Starts(c.log) + |Forks(c, sig, e)|
            && (e.pid != 0 && e.pid != c.pppid ==> (d.pppid == e.pid <==> CallsStart(c.stm, sig)))
            && (d.pppid != c.pppid ==> CallsStart(c.stm, sig) || CallsStop(c.stm, sig))
            && (CallsStop(c.stm, sig) && !CallsStart(c.stm, sig) ==> d.pppid == 0)
  {
    hide Starts;
    ReactionLog(c, sig, e);
    LogNext(c.log, Killed(c.pppid));
    LogNext(c.log + Kills(c, sig), Fork(e.pid));
    Nothing(c.log, Forks(c, sig, e));
    Nothing(c.log, Kills(c, sig));
    assert c.log + [] == c.log;
  }

  /** When each state is entered from another one. */
  lemma EnteredWhen(c: Core, sig: Option<Sig>, e: Choice)
    ensures var d := React(c, sig, e);
            d.stm != c.stm ==>
            && (d.stm == IDLE ==> c.stm == STOPPING && sig == Some(TIMER))
            && (d.stm == STARTING ==> CallsStart(c.stm, sig))
            && (d.stm == RUNNING ==> c.stm == STARTING && sig == Some(TIMER) && c.pppid != 0 && e.up)
            && (d.stm == STOPPING ==> (c.stm == STARTING || c.stm == RUNNING) && sig == Some(STOP))
            && (d.stm == HALTING ==> c.stm == RUNNING && sig == Some(HALT))
            && (d.stm == EXCEPTION ==>
                  || (c.stm == STARTING && sig == Some(EXIT))
                  || (c.stm == RUNNING && sig == Some(TIMER) && !(c.pppid != 0 && e.up))
                  || (c.stm == RUNNING && sig == Some(WAKEUP) && !e.connected))
    ensures CallsStart(c.stm, sig) ==> React(c, sig, e).stm == STARTING
    ensures c.stm == STOPPING && sig == Some(TIMER) ==> React(c, sig, e).stm == IDLE
    ensures c.stm == STARTING && sig == Some(TIMER) && c.pppid != 0 && e.up ==> React(c, sig, e).stm == RUNNING
    ensures (c.stm == STARTING || c.stm == RUNNING) && sig == Some(STOP) ==> React(c, sig, e).stm == STOPPING
    ensures c.stm == RUNNING && sig == Some(HALT) ==> React(c, sig, e).stm == HALTING
    ensures c.stm == STARTING && sig == Some(EXIT) ==> React(c, sig, e).stm == EXCEPTION
    ensures c.stm == RUNNING && sig == Some(TIMER) && !(c.pppid != 0 && e.up) ==> React(c, sig, e).stm == EXCEPTION
    ensures c.stm == RUNNING && sig == Some(WAKEUP) && !e.connected ==> React(c, sig, e).stm == EXCEPTION
  {
  }

  // ----- the manager as an object

  class Manager {
    var stm: Stm
    var pppid: nat
    var pipe: seq<Sig>
    ghost var log: seq<Event>

    ghost function State(): Core
      reads this
    {
      Core(stm, pppid, pipe, log)
    }

    constructor ()
      ensures State() == INITIAL
    {
      stm, pppid, pipe := IDLE, 0, [];
      log := [];
    }

    /** write(g_pm.wfd), by clients and by the signal handler. */
    method Send(sig: Sig)
      modifies this
      ensures State() == old(State()).(pipe := old(pipe) + [sig])
    {
      pipe := pipe + [sig];
    }

    /** signal_handler on SIGCHLD for child `pid`. */
    method ChildDied(pid: nat)
      requires pid != 0
      modifies this
      ensures State() ==
                if pid == old(pppid) then old(State()).(pppid := 0, pipe := old(pipe) + [EXIT], log := old(log) + [Died(pid)])
                else old(State())
    {
      if pid == pppid {
        log := log + [Died(pid)];
        pppid := 0;
        Send(EXIT);
      }
    }

    method StartPppd(e: Choice)
      modifies this
      ensures State() == Started(old(State()), e)
    {
      log := log + [Fork(e.pid)];
      if e.pid == 0 {
        return;
      }
      pppid := e.pid;
    }

    method StopPppd(e: Choice)
      modifies this
      ensures State() == Stopped(old(State()), e)
    {
      if pppid != 0 {
        log := log + [Killed(pppid)];
        if e.exits {
          Send(EXIT);
        }
        pppid := 0;
      }
    }

    /** The drain loop: timer signals are skipped while anything follows them. */
    method Drain() returns (sig: Option<Sig>)
      modifies this`pipe
      ensures (sig, pipe) == Drained(None, old(pipe))
    {
      sig := None;
      while |pipe| > 0
        invariant Drained(sig, pipe) == Drained(None, old(pipe))
        decreases |pipe|
      {
        sig := Some(pipe[0]);
        pipe := pipe[1..];
        if sig != Some(TIMER) {
          break;
        }
      }
    }

    /** The body of pm_thread after the drain loop. */
    method Handle(sig: Option<Sig>, e: Choice)
      modifies this
      ensures State() == React(old(State()), sig, e)
    {
      match stm {
        case IDLE =>
          if sig == Some(START) {
            stm := STARTING;
            StartPppd(e);
          }
        case STARTING =>
          if sig == Some(TIMER) && pppid != 0 && e.up {
            stm := RUNNING;
          }
          if sig == Some(EXIT) {
            stm := EXCEPTION;
          }
          if sig == Some(STOP) {
            stm := STOPPING;
          }
        case RUNNING =>
          if sig == Some(TIMER) && !(pppid != 0 && e.up) {
            stm := EXCEPTION;
          }
          if sig == Some(EXIT) {
            stm := STARTING;
            StartPppd(e);
          }
          if sig == Some(STOP) {
            stm := STOPPING;
          }
          if sig == Some(WAKEUP) {
            if !e.connected {
              stm := EXCEPTION;
            }
          }
          if sig == Some(HALT) {
            stm := HALTING;
            StopPppd(e);
          }
        case EXCEPTION =>
          if sig == Some(TIMER) {
            StopPppd(e);
            if pppid == 0 {
              StartPppd(e);
              stm := STARTING;
            }
          }
        case STOPPING =>
          if sig == Some(TIMER) {
            StopPppd(e);
            if pppid == 0 {
              stm := IDLE;
            }
          }
        case HALTING =>
          if sig == Some(RESTART) {
            StartPppd(e);
            stm := STARTING;
          }
      }
    }
  }

  /** The signal acted on and what stays in the pipe. */
  function Drained(last: Option<Sig>, pipe: seq<Sig>): (Option<Sig>, seq<Sig>)
    decreases |pipe|
  {
    if pipe == [] then (last, [])
    else if pipe[0] == TIMER then Drained(Some(TIMER), pipe[1..])
    else (Some(pipe[0]), pipe[1..])
  }

  /** A timer signal is acted on only when it left the pipe empty. */
  lemma {:induction false} TimerMeansEmpty(last: Option<Sig>, pipe: seq<Sig>)
    ensures Drained(last, pipe).0 == Some(TIMER) ==> Drained(last, pipe).1 == []
    decreases |pipe|
  {
    if pipe != [] && pipe[0] == TIMER { TimerMeansEmpty(Some(TIMER), pipe[1..]); }
  }

  // ----- interleavings: the manager's reads and reactions against the world

  datatype Phase = Polling | Draining(last: Option<Sig>) | Acting(sig: Option<Sig>)

  datatype World = World(core: Core, phase: Phase)

  datatype Action =
    | Client(sig: Sig)
    | Tick
    | ChildExit
    | Poll
    | Read
    | Act(choice: Choice)

  const INITIAL := Core(IDLE, 0, [], [])

  predicate Enabled(w: World, a: Action) {
    match a
    case Client(sig) => sig != TIMER && sig != EXIT
    case Tick => true
    case ChildExit => w.core.pppid != 0
    case Poll => w.phase == Polling
    case Read => w.phase.Draining?
    case Act(_) => w.phase.Acting?
  }

  function Queue(c: Core, sig: Sig): Core {
    c.(pipe := c.pipe + [sig])
  }

  function Do(w: World, a: Action): World
    requires Enabled(w, a)
  {
    match a
    case Client(sig) => w.(core := Queue(w.core, sig))
    case Tick => w.(core := Queue(w.core, TIMER))
    case ChildExit => w.(core := Queue(w.core, EXIT).(pppid := 0, log := w.core.log + [Died(w.core.pppid)]))
    case Poll => w.(phase := Draining(None))
    case Read =>
      var pipe := w.core.pipe;
      if pipe == [] then w.(phase := Acting(w.phase.last))
      else World(w.core.(pipe := pipe[1..]),
                 if pipe[0] == TIMER then Draining(Some(TIMER)) else Acting(Some(pipe[0])))
    case Act(e) => World(React(w.core, w.phase.sig, e), Polling)
  }

  function Count(pipe: seq<Sig>): nat {
    multiset(pipe)[EXIT]
  }

  /** EXIT signals not yet reacted to. */
  function Exits(w: World): nat {
    Count(w.core.pipe) + if w.phase == Acting(Some(EXIT)) then 1 else 0
  }

  predicate ExitMeansGone(w: World) {
    Exits(w) <= 1 && (Exits(w) == 1 ==> w.core.pppid == 0)
  }

  ghost predicate Inv(w: World) {
    && (w.core.stm == IDLE || w.core.stm == HALTING ==> w.core.pppid == 0)
    && (w.core.stm == RUNNING ==> ExitMeansGone(w))
    && (w.phase == Acting(Some(TIMER)) ==> ExitMeansGone(w))
    && (w.phase.Draining? ==> w.phase.last != Some(EXIT))
    && OneAtATime(w.core.log) && Alive(w.core.log) == w.core.pppid
  }

  lemma Counting(pipe: seq<Sig>, s: Sig)
    ensures Count(pipe + [s]) == Count(pipe) + if s == EXIT then 1 else 0
    ensures Count([s] + pipe) == Count(pipe) + if s == EXIT then 1 else 0
  {
  }

  lemma KeepsRead(w: World)
    requires Inv(w) && w.phase.Draining?
    ensures Inv(Do(w, Read))
  {
    hide Count;
    var pipe := w.core.pipe;
    if pipe != [] {
      assert pipe == [pipe[0]] + pipe[1..];
      Counting(pipe[1..], pipe[0]);
    } else {
      NoneCounted();
    }
  }

  lemma NoneCounted()
    ensures Count([]) == 0
  {
  }

  lemma KeepsAct(w: World, e: Choice)
    requires Inv(w) && w.phase.Acting?
    ensures Inv(Do(w, Act(e)))
  {
    hide Count, OneAtATime, Alive, Starts;
    Counting(w.core.pipe, EXIT);
    LogKept(w, e);
  }

  lemma LogKept(w: World, e: Choice)
    requires Inv(w) && w.phase.Acting?
    ensures var d := React(w.core, w.phase.sig, e); OneAtATime(d.log) && Alive(d.log) == d.pppid
  {
    hide Count, OneAtATime, Alive, Starts;
    var c := w.core;
    LogNext(c.log, Killed(c.pppid));
    LogNext(c.log, Fork(e.pid));
    LogNext(c.log + [Killed(c.pppid)], Fork(e.pid));
  }

  lemma Keeps(w: World, a: Action)
    requires Inv(w) && Enabled(w, a)
    ensures Inv(Do(w, a))
  {
    hide Count, OneAtATime, Alive;
    LogNext(w.core.log, Died(w.core.pppid));
    match a
    case Act(e) => KeepsAct(w, e);
    case Read => KeepsRead(w);
    case Client(sig) => Counting(w.core.pipe, sig);
    case Tick => Counting(w.core.pipe, TIMER);
    case ChildExit => Counting(w.core.pipe, EXIT);
    case Poll =>
  }

  ghost predicate Execution(ws: seq<World>, acts: seq<Action>) {
    && |ws| == |acts| + 1
    && forall i :: 0 <= i < |acts| ==> Enabled(ws[i], acts[i]) && ws[i + 1] == Do(ws[i], acts[i])
  }

  ghost predicate Run(ws: seq<World>, acts: seq<Action>) {
    Execution(ws, acts) && ws[0] == World(INITIAL, Polling)
  }

  lemma {:induction false} Invariant(ws: seq<World>, acts: seq<Action>, i: nat)
    requires Run(ws, acts) && i < |ws|
    ensures Inv(ws[i])
  {
    hide Do;
    if i > 0 {
      hide Inv;
      Invariant(ws, acts, i - 1);
      Keeps(ws[i - 1], acts[i - 1]);
    } else {
      assert Exits(ws[0]) == 0;
    }
  }

  /** Step `i` of a run calls _start_pppd, as its record shows. */
  ghost predicate StartsPppd(ws: seq<World>, acts: seq<Action>, i: nat)
    requires Execution(ws, acts) && i < |acts|
  {
    Starts(ws[i + 1].core.log) != Starts(ws[i].core.log)
  }

  /** It does so when the manager acts on one of these signals, and then once. */
  lemma StartsWhen(ws: seq<World>, acts: seq<Action>, i: nat)
    requires Execution(ws, acts) && i < |acts|
    ensures StartsPppd(ws, acts, i) <==> acts[i].Act? && CallsStart(ws[i].core.stm, ws[i].phase.sig)
  {
    hide React, CallsStart;
    assert ws[i + 1] == Do(ws[i], acts[i]);
    if acts[i].Act? { ReactionIs(ws[i].core, ws[i].phase.sig, acts[i].choice); }
    if acts[i].ChildExit? { LogNext(ws[i].core.log, Died(ws[i].core.pppid)); }
  }

  /** Step `i` consumes `sig` in state `stm`. */
  ghost predicate Consumes(ws: seq<World>, acts: seq<Action>, i: nat, stm: Stm, sig: Sig)
    requires Execution(ws, acts) && i < |acts|
  {
    acts[i].Act? && ws[i].core.stm == stm && ws[i].phase.sig == Some(sig)
  }

  /** Idle and halting track no child; an EXIT still queued while running means the child
      is gone; the tracked pid is the child alive, and no child was ever forked while
      another one was alive. */
  lemma Safety(ws: seq<World>, acts: seq<Action>, i: nat)
    requires Run(ws, acts) && i < |ws|
    ensures ws[i].core.stm == IDLE || ws[i].core.stm == HALTING ==> ws[i].core.pppid == 0
    ensures ws[i].core.stm == RUNNING && EXIT in ws[i].core.pipe ==> ws[i].core.pppid == 0
    ensures OneAtATime(ws[i].core.log) && Alive(ws[i].core.log) == ws[i].core.pppid
  {
    Invariant(ws, acts, i);
    assert EXIT in ws[i].core.pipe ==> multiset(ws[i].core.pipe)[EXIT] > 0;
  }

  // ----- a stop keeps pppd down

  /** No START is consumed in IDLE from step `i` up to step `j`. */
  ghost predicate NoStartBetween(ws: seq<World>, acts: seq<Action>, i: nat, j: nat)
    requires Execution(ws, acts) && j <= |acts|
  {
    forall k :: i <= k < j ==> !Consumes(ws, acts, k, IDLE, START)
  }

  predicate Down(stm: Stm) {
    stm == STOPPING || stm == IDLE
  }

  lemma {:induction false} StaysDown(ws: seq<World>, acts: seq<Action>, i: nat, j: nat)
    requires Execution(ws, acts) && i <= j <= |acts|
    requires Down(ws[i].core.stm) && NoStartBetween(ws, acts, i, j)
    ensures Down(ws[j].core.stm)
    decreases j - i
  {
    if i < j {
      assert !Consumes(ws, acts, i, IDLE, START);
      StaysDown(ws, acts, i + 1, j);
    }
  }

  /** After a STOP consumed in STARTING or RUNNING no pppd is started until a START
      is consumed in IDLE. */
  lemma StopHolds(ws: seq<World>, acts: seq<Action>, i: nat, j: nat)
    requires Execution(ws, acts) && i < j < |acts|
    requires Consumes(ws, acts, i, STARTING, STOP) || Consumes(ws, acts, i, RUNNING, STOP)
    requires StartsPppd(ws, acts, j)
    ensures exists k :: i < k <= j && Consumes(ws, acts, k, IDLE, START)
  {
    StartsWhen(ws, acts, j);
    if NoStartBetween(ws, acts, i + 1, j) {
      StaysDown(ws, acts, i + 1, j);
      assert Consumes(ws, acts, j, IDLE, START);
    }
  }

  /** Until then the child tracked is none or the one tracked when the STOP was consumed,
      and nothing is forked. */
  lemma {:induction false} StopKeepsPid(ws: seq<World>, acts: seq<Action>, i: nat, j: nat)
    requires Execution(ws, acts) && i < j <= |acts|
    requires Consumes(ws, acts, i, STARTING, STOP) || Consumes(ws, acts, i, RUNNING, STOP)
    requires NoStartBetween(ws, acts, i + 1, j)
    ensures ws[j].core.pppid == 0 || ws[j].core.pppid == ws[i].core.pppid
    ensures Starts(ws[j].core.log) == Starts(ws[i].core.log)
    decreases j - i
  {
    hide React, CallsStart, CallsStop, Starts;
    var k := j - 1;
    if k > i {
      StopKeepsPid(ws, acts, i, k);
      AfterStop(ws, acts, i);
      StaysDown(ws, acts, i + 1, k);
    }
    StartsWhen(ws, acts, k);
    NoStartDown(ws, acts, k);
  }

  lemma AfterStop(ws: seq<World>, acts: seq<Action>, i: nat)
    requires Execution(ws, acts) && i < |acts|
    requires Consumes(ws, acts, i, STARTING, STOP) || Consumes(ws, acts, i, RUNNING, STOP)
    ensures Down(ws[i + 1].core.stm)
  {
  }

  /** A step that consumes a STOP, or any step while pppd is down that consumes no START,
      forks nothing and tracks nothing new. */
  lemma NoStartDown(ws: seq<World>, acts: seq<Action>, k: nat)
    requires Execution(ws, acts) && k < |acts|
    requires Consumes(ws, acts, k, STARTING, STOP) || Consumes(ws, acts, k, RUNNING, STOP) ||
             (Down(ws[k].core.stm) && !Consumes(ws, acts, k, IDLE, START))
    ensures ws[k + 1].core.pppid == 0 || ws[k + 1].core.pppid == ws[k].core.pppid
    ensures acts[k].Act? ==> !CallsStart(ws[k].core.stm, ws[k].phase.sig)
  {
  }

  lemma {:induction false} StaysHalted(ws: seq<World>, acts: seq<Action>, i: nat, j: nat)
    requires Execution(ws, acts) && i <= j <= |acts|
    requires ws[i].core.stm == HALTING && forall k :: i <= k < j ==> !Consumes(ws, acts, k, HALTING, RESTART)
    ensures ws[j].core.stm == HALTING
    decreases j - i
  {
    if i < j {
      assert !Consumes(ws, acts, i, HALTING, RESTART);
      StaysHalted(ws, acts, i + 1, j);
    }
  }

  /** After a HALT consumed in RUNNING no pppd is started until a RESTART is consumed. */
  lemma HaltHolds(ws: seq<World>, acts: seq<Action>, i: nat, j: nat)
    requires Execution(ws, acts) && i < j < |acts|
    requires Consumes(ws, acts, i, RUNNING, HALT) && StartsPppd(ws, acts, j)
    ensures exists k :: i < k <= j && Consumes(ws, acts, k, HALTING, RESTART)
  {
    StartsWhen(ws, acts, j);
    if forall k :: i + 1 <= k < j ==> !Consumes(ws, acts, k, HALTING, RESTART) {
      StaysHalted(ws, acts, i + 1, j);
      assert Consumes(ws, acts, j, HALTING, RESTART);
    }
  }

  /** Until then no child is tracked. */
  lemma {:induction false} HaltKeepsNone(ws: seq<World>, acts: seq<Action>, i: nat, j: nat)
    requires Execution(ws, acts) && i < j <= |acts| && Consumes(ws, acts, i, RUNNING, HALT)
    requires forall k :: i < k < j ==> !Consumes(ws, acts, k, HALTING, RESTART)
    ensures ws[j].core.stm == HALTING && ws[j].core.pppid == 0
    decreases j - i
  {
    if j - 1 > i {
      HaltKeepsNone(ws, acts, i, j - 1);
      assert !Consumes(ws, acts, j - 1, HALTING, RESTART);
    }
  }

  // ----- which stops stick

  /** Once the STOP being acted on in `w` is consumed, pppd stays down until a START
      is consumed in IDLE, whatever happens next. */
  ghost predicate Sticks(w: World) {
    forall ws: seq<World>, acts: seq<Action>, j: nat ::
      Execution(ws, acts) && ws[0] == w && 0 < j < |acts| && acts[0].Act? && StartsPppd(ws, acts, j)
      ==> !NoStartBetween(ws, acts, 1, j + 1)
  }

  /** pppd comes up at the last step, after states in `through` only. */
  ghost predicate ComesUp(w: World, ws: seq<World>, acts: seq<Action>, through: set<Stm>) {
    && Execution(ws, acts)
    && ws[0] == w
    && |acts| > 0
    && StartsPppd(ws, acts, |acts| - 1)
    && forall i :: 0 <= i < |acts| ==> ws[i].core.stm in through
  }

  lemma Prepend(w: World, a: Action, ws: seq<World>, acts: seq<Action>, through: set<Stm>, more: set<Stm>)
    requires Enabled(w, a) && w.core.stm in more && through <= more && ComesUp(Do(w, a), ws, acts, through)
    ensures ComesUp(w, [w] + ws, [a] + acts, more)
  {
    hide Do, Enabled;
    var vs, bs := [w] + ws, [a] + acts;
    forall i | 0 <= i < |bs| ensures Enabled(vs[i], bs[i]) && vs[i + 1] == Do(vs[i], bs[i]) && vs[i].core.stm in more {
      if i > 0 { assert bs[i] == acts[i - 1] && vs[i] == ws[i - 1]; }
    }
    assert bs[|bs| - 1] == acts[|acts| - 1] && vs[|bs| - 1] == ws[|acts| - 1];
  }

  /** The signal that leads towards a start of pppd. */
  function Opener(stm: Stm): Sig {
    match stm
    case IDLE => START
    case STARTING => STOP
    case HALTING => RESTART
    case _ => TIMER
  }

  /** The states met on the way, the state itself included. */
  function Onward(stm: Stm): set<Stm> {
    match stm
    case STARTING => {STARTING, STOPPING, EXCEPTION, IDLE}
    case STOPPING => {STOPPING, IDLE}
    case _ => {stm}
  }

  predicate OpenerIsLast(w: World) {
    var s := Opener(w.core.stm);
    if w.core.pipe == [] then w.phase == Acting(Some(s)) || (s == TIMER && w.phase == Draining(Some(s)))
    else w.core.pipe[|w.core.pipe| - 1] == s
  }

  function StepRank(w: World): nat {
    match w.phase
    case Acting(_) => 2
    case Polling => 1
    case Draining(_) => if w.core.pipe == [] then 3 else 0
  }

  function StateRank(stm: Stm): nat {
    match stm
    case STARTING => 2
    case STOPPING => 1
    case _ => 0
  }

  /** The next step: queue the opener if it is not the last signal, then work the pipe
      down, with the interface down. */
  function Towards(w: World): Action {
    if !OpenerIsLast(w) then
      var s := Opener(w.core.stm);
      if s == TIMER then Tick else Client(s)
    else
      match w.phase
      case Acting(_) => Act(Choice(false, false, 1, false))
      case Polling => Poll
      case Draining(_) => Read
  }

  /** From every state but RUNNING some continuation starts pppd. */
  lemma {:induction false} Reopens(w: World) returns (ws: seq<World>, acts: seq<Action>)
    requires w.core.stm != RUNNING
    ensures ComesUp(w, ws, acts, Onward(w.core.stm))
    decreases StateRank(w.core.stm), if OpenerIsLast(w) then 0 else 1, |w.core.pipe|, StepRank(w)
  {
    var a := Towards(w);
    if OpenerIsLast(w) && w.phase.Acting? && CallsStart(w.core.stm, w.phase.sig) {
      ws, acts := [w, Do(w, a)], [a];
      StartsWhen(ws, acts, 0);
    } else {
      var v := Do(w, a);
      TowardsGets(w);
      ws, acts := Reopens(v);
      Prepend(w, a, ws, acts, Onward(v.core.stm), Onward(w.core.stm));
      ws, acts := [w] + ws, [a] + acts;
    }
  }

  lemma TowardsGets(w: World)
    requires w.core.stm != RUNNING
    requires !(OpenerIsLast(w) && w.phase.Acting? && CallsStart(w.core.stm, w.phase.sig))
    ensures Enabled(w, Towards(w))
    ensures var v := Do(w, Towards(w));
            && v.core.stm != RUNNING && Onward(v.core.stm) <= Onward(w.core.stm) && w.core.stm in Onward(w.core.stm)
            && (StateRank(v.core.stm) < StateRank(w.core.stm) ||
                (v.core.stm == w.core.stm && OpenerIsLast(v) &&
                 (!OpenerIsLast(w) || |v.core.pipe| < |w.core.pipe| ||
                  (|v.core.pipe| == |w.core.pipe| && StepRank(v) < StepRank(w)))))
  {
  }

  /** A STOP holds exactly when it is consumed in IDLE, STARTING, RUNNING or STOPPING:
      in EXCEPTION and HALTING it is dropped, and pppd can come up without a START. */
  lemma StopSticksIff(w: World)
    requires w.phase == Acting(Some(STOP))
    ensures Sticks(w) <==> w.core.stm != EXCEPTION && w.core.stm != HALTING
  {
    if w.core.stm == EXCEPTION || w.core.stm == HALTING {
      DroppedStop(w);
    } else {
      forall ws: seq<World>, acts: seq<Action>, j: nat |
        Execution(ws, acts) && ws[0] == w && 0 < j < |acts| && acts[0].Act? && StartsPppd(ws, acts, j)
        ensures !NoStartBetween(ws, acts, 1, j + 1)
      {
        assert ws[1] == Do(ws[0], acts[0]);
        StartsWhen(ws, acts, j);
        if NoStartBetween(ws, acts, 1, j + 1) {
          assert NoStartBetween(ws, acts, 1, j);
          StaysDown(ws, acts, 1, j);
          assert Consumes(ws, acts, j, IDLE, START);
        }
      }
    }
  }

  const PLAIN := Act(Choice(false, false, 1, false))

  /** A dropped signal, and what can come after it. */
  lemma Dropped(w: World) returns (ws: seq<World>, acts: seq<Action>)
    requires w.phase.Acting? && w.core.stm != RUNNING && Do(w, PLAIN) == w.(phase := Polling)
    ensures ComesUp(w, ws, acts, Onward(w.core.stm)) && |acts| >= 2 && acts[0] == PLAIN
  {
    var v := Do(w, PLAIN);
    ws, acts := Reopens(v);
    Prepend(w, PLAIN, ws, acts, Onward(w.core.stm), Onward(w.core.stm));
    ws, acts := [w] + ws, [PLAIN] + acts;
  }

  lemma DroppedStop(w: World)
    requires w.phase == Acting(Some(STOP)) && (w.core.stm == EXCEPTION || w.core.stm == HALTING)
    ensures !Sticks(w)
  {
    var ws, acts := Dropped(w);
    assert NoStartBetween(ws, acts, 1, |acts| - 1 + 1);
  }

  // ----- which halts stick

  /** No RESTART is consumed in HALTING from step `i` up to step `j`. */
  ghost predicate NoRestartBetween(ws: seq<World>, acts: seq<Action>, i: nat, j: nat)
    requires Execution(ws, acts) && j <= |acts|
  {
    forall k :: i <= k < j ==> !Consumes(ws, acts, k, HALTING, RESTART)
  }

  /** Once the HALT being acted on in `w` is consumed, pppd stays down until a RESTART is
      consumed in HALTING. */
  ghost predicate HaltSticks(w: World) {
    forall ws: seq<World>, acts: seq<Action>, j: nat ::
      Execution(ws, acts) && ws[0] == w && 0 < j < |acts| && acts[0].Act? && StartsPppd(ws, acts, j)
      ==> !NoRestartBetween(ws, acts, 1, j + 1)
  }

  /** A HALT holds exactly when it is consumed in RUNNING or HALTING. */
  lemma HaltSticksIff(w: World)
    requires w.phase == Acting(Some(HALT))
    ensures HaltSticks(w) <==> w.core.stm == RUNNING || w.core.stm == HALTING
  {
    if w.core.stm == RUNNING || w.core.stm == HALTING {
      forall ws: seq<World>, acts: seq<Action>, j: nat |
        Execution(ws, acts) && ws[0] == w && 0 < j < |acts| && acts[0].Act? && StartsPppd(ws, acts, j)
        ensures !NoRestartBetween(ws, acts, 1, j + 1)
      {
        assert ws[1] == Do(ws[0], acts[0]);
        StartsWhen(ws, acts, j);
        if NoRestartBetween(ws, acts, 1, j + 1) {
          StaysHalted(ws, acts, 1, j);
          assert Consumes(ws, acts, j, HALTING, RESTART);
        }
      }
    } else {
      var ws, acts := Dropped(w);
      assert NoRestartBetween(ws, acts, 1, |acts| - 1 + 1);
    }
  }

  // ----- dropped stops do happen

  lemma Continue(ws: seq<World>, acts: seq<Action>, vs: seq<World>, bs: seq<Action>)
    requires Run(ws, acts) && Execution(vs, bs) && vs[0] == ws[|acts|]
    ensures Run(ws + vs[1..], acts + bs)
    ensures forall i :: 0 <= i < |vs| ==> (ws + vs[1..])[|acts| + i] == vs[i]
    ensures forall i :: 0 <= i < |bs| ==> (acts + bs)[|acts| + i] == bs[i]
  {
    hide Do, Enabled;
    var us, cs := ws + vs[1..], acts + bs;
    forall i | 0 <= i < |cs| ensures Enabled(us[i], cs[i]) && us[i + 1] == Do(us[i], cs[i]) {
      if i < |acts| {
        assert cs[i] == acts[i] && us[i] == ws[i] && us[i + 1] == ws[i + 1];
      } else {
        var k := i - |acts|;
        assert cs[i] == bs[k] && us[i + 1] == vs[k + 1];
        assert us[i] == vs[k];
      }
    }
  }

  const RISING := Core(STARTING, 1, [], [Fork(1)])
  const FAILED := Core(EXCEPTION, 0, [], [Fork(1), Died(1)])
  const HALTED := Core(HALTING, 0, [], [Fork(1), Killed(1)])

  lemma Rises() returns (ws: seq<World>, acts: seq<Action>)
    ensures Run(ws, acts) && |acts| == 4 && ws[4] == World(RISING, Polling)
  {
    acts := [Client(START), Poll, Read, PLAIN];
    ws := [World(INITIAL, Polling), World(INITIAL.(pipe := [START]), Polling),
           World(INITIAL.(pipe := [START]), Draining(None)), World(INITIAL, Acting(Some(START))),
           World(RISING, Polling)];
  }

  /** The child dies while pppd is starting. */
  lemma Fails() returns (ws: seq<World>, acts: seq<Action>)
    ensures Run(ws, acts) && ws[|acts|] == World(FAILED, Polling)
  {
    ws, acts := Rises();
    var c := FAILED.(stm := STARTING);
    var vs := [World(RISING, Polling), World(c.(pipe := [EXIT]), Polling),
               World(c.(pipe := [EXIT]), Draining(None)), World(c, Acting(Some(EXIT))), World(FAILED, Polling)];
    var bs := [ChildExit, Poll, Read, PLAIN];
    Continue(ws, acts, vs, bs);
    ws, acts := ws + vs[1..], acts + bs;
  }

  /** pppd connects and is halted. */
  lemma Halts() returns (ws: seq<World>, acts: seq<Action>)
    ensures Run(ws, acts) && ws[|acts|] == World(HALTED, Polling)
  {
    ws, acts := Rises();
    var r := RISING.(stm := RUNNING);
    var vs := [World(RISING, Polling), World(RISING.(pipe := [TIMER]), Polling),
               World(RISING.(pipe := [TIMER]), Draining(None)), World(RISING, Draining(Some(TIMER))),
               World(RISING, Acting(Some(TIMER))), World(r, Polling)];
    var bs := [Tick, Poll, Read, Read, Act(Choice(true, false, 1, false))];
    Continue(ws, acts, vs, bs);
    ws, acts := ws + vs[1..], acts + bs;
    vs := [World(r, Polling), World(r.(pipe := [HALT]), Polling), World(r.(pipe := [HALT]), Draining(None)),
           World(r, Acting(Some(HALT))), World(HALTED, Polling)];
    bs := [Client(HALT), Poll, Read, PLAIN];
    Continue(ws, acts, vs, bs);
    ws, acts := ws + vs[1..], acts + bs;
  }

  /** A run consumes a STOP in `stm` at step `i` and starts pppd at its last step, with no
      START consumed in IDLE after the STOP. */
  ghost predicate DropsStop(ws: seq<World>, acts: seq<Action>, i: nat, stm: Stm) {
    && Run(ws, acts) && i + 1 < |acts| && Consumes(ws, acts, i, stm, STOP)
    && StartsPppd(ws, acts, |acts| - 1) && NoStartBetween(ws, acts, i + 1, |acts|)
  }

  lemma DropsFrom(ws: seq<World>, acts: seq<Action>, vs: seq<World>, bs: seq<Action>)
    requires Run(ws, acts) && Execution(vs, bs) && vs[0] == ws[|acts|] && |bs| > 4
    requires bs[3].Act? && vs[3].phase == Acting(Some(STOP)) && StartsPppd(vs, bs, |bs| - 1)
    requires forall k :: 0 <= k < |vs| ==> vs[k].core.stm != IDLE
    ensures DropsStop(ws + vs[1..], acts + bs, |acts| + 3, vs[3].core.stm)
  {
    hide Do, Enabled;
    Continue(ws, acts, vs, bs);
    var us, cs := ws + vs[1..], acts + bs;
    assert us[|acts| + 3] == vs[3] && cs[|acts| + 3] == bs[3];
    assert us[|acts| + (|bs| - 1)] == vs[|bs| - 1] && cs[|acts| + (|bs| - 1)] == bs[|bs| - 1];
    forall k | |acts| + 4 <= k < |cs| ensures us[k].core.stm != IDLE {
      assert us[|acts| + (k - |acts|)] == vs[k - |acts|];
    }
  }

  /** When the child dies while pppd is starting and the STOP comes before the next tick,
      the tick starts pppd again. */
  lemma StopDroppedInException() returns (ws: seq<World>, acts: seq<Action>, i: nat)
    ensures DropsStop(ws, acts, i, EXCEPTION)
  {
    ws, acts := Fails();
    var c := FAILED;
    var vs := [World(c, Polling), World(c.(pipe := [STOP]), Polling), World(c.(pipe := [STOP]), Draining(None)),
               World(c, Acting(Some(STOP))), World(c, Polling), World(c.(pipe := [TIMER]), Polling),
               World(c.(pipe := [TIMER]), Draining(None)), World(c, Draining(Some(TIMER))),
               World(c, Acting(Some(TIMER))), World(c.(stm := STARTING, pppid := 1, log := c.log + [Fork(1)]), Polling)];
    var bs := [Client(STOP), Poll, Read, PLAIN, Tick, Poll, Read, Read, PLAIN];
    DropsFrom(ws, acts, vs, bs);
    ws, acts, i := ws + vs[1..], acts + bs, |acts| + 3;
  }

  /** A STOP that comes while pppd is halted is dropped as well: a RESTART brings pppd up. */
  lemma StopDroppedInHalting() returns (ws: seq<World>, acts: seq<Action>, i: nat)
    ensures DropsStop(ws, acts, i, HALTING)
  {
    ws, acts := Halts();
    var c := HALTED;
    var vs := [World(c, Polling), World(c.(pipe := [STOP]), Polling), World(c.(pipe := [STOP]), Draining(None)),
               World(c, Acting(Some(STOP))), World(c, Polling), World(c.(pipe := [RESTART]), Polling),
               World(c.(pipe := [RESTART]), Draining(None)), World(c, Acting(Some(RESTART))),
               World(c.(stm := STARTING, pppid := 1, log := c.log + [Fork(1)]), Polling)];
    var bs := [Client(STOP), Poll, Read, PLAIN, Client(RESTART), Poll, Read, PLAIN];
    DropsFrom(ws, acts, vs, bs);
    ws, acts, i := ws + vs[1..], acts + bs, |acts| + 3;
  }

  /** A run consumes a HALT in `stm` at step `i` and starts pppd at its last step, with no
      RESTART consumed in HALTING after the HALT. */
  ghost predicate DropsHalt(ws: seq<World>, acts: seq<Action>, i: nat, stm: Stm) {
    && Run(ws, acts) && i + 1 < |acts| && Consumes(ws, acts, i, stm, HALT)
    && StartsPppd(ws, acts, |acts| - 1) && NoRestartBetween(ws, acts, i + 1, |acts|)
  }

  /** A HALT that comes while pppd is starting is dropped: when the child dies, the next
      tick starts pppd again. */
  lemma HaltDroppedInStarting() returns (ws: seq<World>, acts: seq<Action>, i: nat)
    ensures DropsHalt(ws, acts, i, STARTING)
  {
    ws, acts := Rises();
    var c := RISING;
    var gone := FAILED.(stm := STARTING);
    var vs := [World(c, Polling), World(c.(pipe := [HALT]), Polling), World(c.(pipe := [HALT]), Draining(None)),
               World(c, Acting(Some(HALT))), World(c, Polling)];
    var bs := [Client(HALT), Poll, Read, PLAIN];
    Continue(ws, acts, vs, bs);
    ws, acts, i := ws + vs[1..], acts + bs, |acts| + 3;
    assert Consumes(ws, acts, i, STARTING, HALT) by { assert ws[4 + 3] == vs[3]; }
    vs := [World(c, Polling), World(gone.(pipe := [EXIT]), Polling), World(gone.(pipe := [EXIT]), Draining(None)),
           World(gone, Acting(Some(EXIT))), World(FAILED, Polling), World(FAILED.(pipe := [TIMER]), Polling),
           World(FAILED.(pipe := [TIMER]), Draining(None)), World(FAILED, Draining(Some(TIMER))),
           World(FAILED, Acting(Some(TIMER))),
           World(FAILED.(stm := STARTING, pppid := 1, log := FAILED.log + [Fork(1)]), Polling)];
    bs := [ChildExit, Poll, Read, PLAIN, Tick, Poll, Read, Read, PLAIN];
    HaltDropsFrom(ws, acts, i, vs, bs);
    ws, acts := ws + vs[1..], acts + bs;
  }

  lemma HaltDropsFrom(ws: seq<World>, acts: seq<Action>, i: nat, vs: seq<World>, bs: seq<Action>)
    requires Run(ws, acts) && Execution(vs, bs) && vs[0] == ws[|acts|] && |bs| > 0
    requires i + 1 == |acts| && Consumes(ws, acts, i, STARTING, HALT) && StartsPppd(vs, bs, |bs| - 1)
    requires forall k :: 0 <= k < |vs| ==> vs[k].core.stm != HALTING
    ensures DropsHalt(ws + vs[1..], acts + bs, i, STARTING)
  {
    hide Do, Enabled;
    Continue(ws, acts, vs, bs);
    var us, cs := ws + vs[1..], acts + bs;
    assert us[i] == ws[i] && cs[i] == acts[i];
    assert us[|acts| + (|bs| - 1)] == vs[|bs| - 1] && cs[|acts| + (|bs| - 1)] == bs[|bs| - 1];
    forall k | |acts| <= k < |cs| ensures us[k].core.stm != HALTING {
      assert us[|acts| + (k - |acts|)] == vs[k - |acts|];
    }
  }

  // ----- reading step by step is the drain loop

  /** Reads, with nothing in between, until there is something to act on. */
  function ReadAll(w: World): World
    requires w.phase.Draining?
    decreases |w.core.pipe|
  {
    var v := Do(w, Read);
    if v.phase.Draining? then ReadAll(v) else v
  }

  lemma {:induction false} ReadsDrain(w: World)
    requires w.phase.Draining?
    ensures var (sig, rest) := Drained(w.phase.last, w.core.pipe);
            ReadAll(w) == World(w.core.(pipe := rest), Acting(sig))
    decreases |w.core.pipe|
  {
    if w.core.pipe != [] && w.core.pipe[0] == TIMER { ReadsDrain(Do(w, Read)); }
  }

  /** Draining skips timer signals and nothing else. */
  lemma {:induction false} DrainSkipsTimers(last: Option<Sig>, pipe: seq<Sig>) returns (n: nat)
    ensures n <= |pipe| && forall k :: 0 <= k < n ==> pipe[k] == TIMER
    ensures if n < |pipe| then pipe[n] != TIMER && Drained(last, pipe) == (Some(pipe[n]), pipe[n + 1..])
            else Drained(last, pipe) == (if n == 0 then last else Some(TIMER), [])
    decreases |pipe|
  {
    if pipe == [] || pipe[0] != TIMER {
      n := 0;
    } else {
      var m := DrainSkipsTimers(Some(TIMER), pipe[1..]);
      n := m + 1;
      assert forall k :: 0 < k < n ==> pipe[k] == pipe[1..][k - 1];
    }
  }
}
