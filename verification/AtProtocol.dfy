/** at_send_command_full as a protocol (atchannel.c): command threads, the reader
    thread, the two mutexes, the condition variable, timeouts and reader close. */
module AtProtocol {
  import opened Basics
  import opened AtResponse

  const ERROR_GENERIC := -1
  const ERROR_COMMAND_PENDING := -2
  const ERROR_CHANNEL_CLOSED := -3
  const ERROR_TIMEOUT := -4

  type Tid = nat

  datatype Command = Command(kind: CommandType, prefix: string, pdu: Option<string>)

  /** What at_send_command_full hands back, with the lines that arrived and the
      PDUs that were written while the command was pending. */
  datatype Result = Result(err: int, response: Option<Pending>, lines: seq<string>, sent: seq<string>)

  /** Where a thread is: outside, holding commandmutex, holding both mutexes before
      and after the command is pending, waiting with s_commandmutex released, holding
      both with the result ready, and holding commandmutex only again. */
  datatype Pc =
    | Idle
    | GotFirst(cmd: Command)
    | Entered(cmd: Command)
    | Checking(cmd: Command)
    | Waiting(cmd: Command)
    | Finishing(cmd: Command, result: Result)
    | Releasing(cmd: Command, result: Result)

  /** s_type, s_responsePrefix and s_smsPDU with sp_response: `pending` is the
      pending command; prefix and pdu are what the two pointers hold. */
  datatype World = World(
    pcs: map<Tid, Pc>,
    commandMutex: Option<Tid>,
    stateMutex: Option<Tid>,
    pending: Option<Pending>,
    prefix: Option<string>,
    pdu: Option<string>,
    closed: bool,
    lines: seq<string>,
    sent: seq<string>,
    returned: seq<(Command, Result)>)

  datatype WriteResult = Written | NoChannel | IoError

  datatype Action =
    | LockFirst(t: Tid, cmd: Command)
    | LockSecond(t: Tid)
    | Begin(t: Tid, write: WriteResult)
    | Check(t: Tid)
    | Wake(t: Tid, timedOut: bool)
    | UnlockSecond(t: Tid)
    | UnlockFirst(t: Tid)
    | LineRead(line: string)
    | ReaderClosed

  const START := World(map[], None, None, None, None, None, false, [], [], [])

  function At(w: World, t: Tid): Pc {
    if t in w.pcs then w.pcs[t] else Idle
  }

  function Move(w: World, t: Tid, pc: Pc): World {
    w.(pcs := w.pcs[t := pc])
  }

  /** clearPendingCommand. */
  function Clear(w: World): World {
    w.(pending := None, prefix := None, pdu := None)
  }

  function Fresh(cmd: Command): Pending {
    Pending(cmd.kind, cmd.prefix, cmd.pdu, [], None, false)
  }

  predicate Enabled(w: World, a: Action) {
    match a
    case LockFirst(t, cmd) => At(w, t).Idle? && w.commandMutex == None
    case LockSecond(t) => At(w, t).GotFirst? && w.stateMutex == None
    case Begin(t, write) => At(w, t).Entered? && (w.closed ==> write == NoChannel)
    case Check(t) => At(w, t).Checking? && w.pending.Some?
    case Wake(t, _) => At(w, t).Waiting? && w.stateMutex == None
    case UnlockSecond(t) => At(w, t).Finishing?
    case UnlockFirst(t) => At(w, t).Releasing?
    case LineRead(_) => w.stateMutex == None
    case ReaderClosed => w.stateMutex == None
  }

  /** One atomic step. */
  function Do(w: World, a: Action): World
    requires Enabled(w, a)
  {
    match a
    case LockFirst(t, cmd) => Move(w, t, GotFirst(cmd)).(commandMutex := Some(t))
    case LockSecond(t) => Move(w, t, Entered(At(w, t).cmd)).(stateMutex := Some(t))
    case Begin(t, write) =>
      var cmd := At(w, t).cmd;
      if w.pending.Some? then
        Clear(Move(w, t, Finishing(cmd, Result(ERROR_COMMAND_PENDING, None, [], []))))
      else if write != Written then
        var err := if write == NoChannel then ERROR_CHANNEL_CLOSED else ERROR_GENERIC;
        Clear(Move(w, t, Finishing(cmd, Result(err, None, [], []))))
      else
        Move(w, t, Checking(cmd)).(
          pending := Some(Fresh(cmd)), prefix := Some(cmd.prefix), pdu := cmd.pdu, lines := [], sent := [])
    case Check(t) =>
      var cmd := At(w, t).cmd;
      if w.pending.value.final == None && !w.closed then
        Move(w, t, Waiting(cmd)).(stateMutex := None)
      else
        var err := if w.closed then ERROR_CHANNEL_CLOSED else 0;
        Clear(Move(w, t, Finishing(cmd, Result(err, w.pending, w.lines, w.sent))))
    case Wake(t, timedOut) =>
      var cmd := At(w, t).cmd;
      if timedOut then
        Clear(Move(w, t, Finishing(cmd, Result(ERROR_TIMEOUT, None, w.lines, w.sent)))).(stateMutex := Some(t))
      else
        Move(w, t, Checking(cmd)).(stateMutex := Some(t))
    case UnlockSecond(t) => Move(w, t, Releasing(At(w, t).cmd, At(w, t).result)).(stateMutex := None)
    case UnlockFirst(t) =>
      Move(w, t, Idle).(commandMutex := None, returned := w.returned + [(At(w, t).cmd, At(w, t).result)])
    case LineRead(line) =>
      if w.pending == None then w
      else
        var p := w.pending.value;
        w.(pending := Some(Step(p, line)), pdu := Step(p, line).pdu, lines := w.lines + [line],
           sent := if Route(p, line) == Prompted then w.sent + [p.pdu.value] else w.sent)
    case ReaderClosed => w.(closed := true)
  }

  // ----- what every step keeps

  /** The PDU that a command with these lines behind it has sent. */
  function SentPdu(cmd: Command, lines: seq<string>): seq<string> {
    if cmd.pdu.Some? && PROMPT in lines then [cmd.pdu.value] else []
  }

  /** A result the caller may see: never COMMAND_PENDING; the PDU written at most
      once; and without error, the assembled response to exactly the lines that
      arrived, with a final response of the class the success flag says. */
  ghost predicate Good(cmd: Command, r: Result) {
    && r.err in {0, ERROR_GENERIC, ERROR_CHANNEL_CLOSED, ERROR_TIMEOUT}
    && r.sent == SentPdu(cmd, r.lines)
    && (r.response.Some? ==> r.response.value == Run(Fresh(cmd), r.lines))
    && (r.err == 0 ==>
          && r.response.Some?
          && r.response.value.final.Some?
          && IsFinal(r.response.value.final.value)
          && (r.response.value.success <==> IsFinalSuccess(r.response.value.final.value)))
  }

  predicate HoldsState(pc: Pc) {
    pc.Entered? || pc.Checking? || pc.Finishing?
  }

  predicate Active(pc: Pc) {
    pc.Checking? || pc.Waiting?
  }

  ghost predicate Inv(w: World) {
    && (forall t: Tid :: !At(w, t).Idle? <==> w.commandMutex == Some(t))
    && (forall t: Tid :: HoldsState(At(w, t)) <==> w.stateMutex == Some(t))
    && (w.pending.Some? <==> w.commandMutex.Some? && Active(At(w, w.commandMutex.value)))
    && (w.pending == None ==> w.prefix == None && w.pdu == None)
    && (w.pending.Some? ==>
          var cmd := At(w, w.commandMutex.value).cmd;
          && w.pending.value == Run(Fresh(cmd), w.lines)
          && w.pdu == w.pending.value.pdu && w.prefix == Some(cmd.prefix)
          && w.sent == SentPdu(cmd, w.lines))
    && (forall t: Tid :: At(w, t).Finishing? || At(w, t).Releasing? ==> Good(At(w, t).cmd, At(w, t).result))
    && (forall i :: 0 <= i < |w.returned| ==> Good(w.returned[i].0, w.returned[i].1))
  }

  /** A final response is recorded with its class. */
  lemma {:induction false} FinalClass(p: Pending, lines: seq<string>)
    requires p.final == None
    ensures var q := Run(p, lines);
            q.final.Some? ==> IsFinal(q.final.value) && (q.success <==> IsFinalSuccess(q.final.value))
  {
    hide IsUnsolicited;
    hide IsFinalSuccess;
    hide IsFinalError;
    hide Matches;
    if lines != [] {
      FinalClass(p, lines[..|lines| - 1]);
    }
  }

  /** The line just read, as one more line of the pending command's run. */
  lemma OneMoreLine(cmd: Command, lines: seq<string>, line: string)
    ensures var p := Run(Fresh(cmd), lines);
            && Run(Fresh(cmd), lines + [line]) == Step(p, line)
            && SentPdu(cmd, lines + [line])
               == (if Route(p, line) == Prompted then SentPdu(cmd, lines) + [p.pdu.value] else SentPdu(cmd, lines))
            && (Route(p, line) == Prompted ==> p.pdu == cmd.pdu && cmd.pdu.Some?)
  {
    hide IsUnsolicited;
    hide IsFinalSuccess;
    hide IsFinalError;
    hide Matches;
    hide Candidates;
    assert (lines + [line])[..|lines|] == lines;
    Assembly(Fresh(cmd), lines);
    PromptIsPlain();
    FinalIs(PROMPT);
  }

  lemma KeepsEntering(w: World, a: Action)
    requires Inv(w) && Enabled(w, a) && (a.LockFirst? || a.LockSecond? || a.Begin?)
    ensures Inv(Do(w, a))
  {
    hide Run;
    hide Step;
    hide Route;
    hide IsFinal;
    hide IsFinalSuccess;
    hide Good;
    var w' := Do(w, a);
    assert forall u: Tid :: u != a.t ==> At(w', u) == At(w, u);
    if !a.LockFirst? {
      assert w.commandMutex == Some(a.t) && w.pending == None;
      RunNothing(At(w, a.t).cmd);
      EarlyIsGood(At(w, a.t).cmd);
    }
  }

  lemma EarlyIsGood(cmd: Command)
    ensures Good(cmd, Result(ERROR_CHANNEL_CLOSED, None, [], []))
    ensures Good(cmd, Result(ERROR_GENERIC, None, [], []))
  {
  }

  lemma KeepsChecking(w: World, a: Action)
    requires Inv(w) && Enabled(w, a) && (a.Check? || a.Wake?)
    ensures Inv(Do(w, a))
  {
    hide Run;
    hide Step;
    hide Route;
    hide IsFinal;
    hide IsFinalSuccess;
    hide Good;
    hide SentPdu;
    var w' := Do(w, a);
    assert w.commandMutex == Some(a.t);
    assert forall u: Tid :: u != a.t ==> At(w', u) == At(w, u);
    EndIsGood(At(w, a.t).cmd, w.lines);
  }

  /** The results that a command can end with. */
  lemma EndIsGood(cmd: Command, lines: seq<string>)
    ensures var p, sent := Run(Fresh(cmd), lines), SentPdu(cmd, lines);
            && Good(cmd, Result(ERROR_TIMEOUT, None, lines, sent))
            && Good(cmd, Result(ERROR_CHANNEL_CLOSED, Some(p), lines, sent))
            && (p.final.Some? ==> Good(cmd, Result(0, Some(p), lines, sent)))
  {
    hide Run, IsFinal, IsFinalSuccess;
    FinalClass(Fresh(cmd), lines);
  }

  lemma KeepsLeaving(w: World, a: Action)
    requires Inv(w) && Enabled(w, a) && (a.UnlockSecond? || a.UnlockFirst?)
    ensures Inv(Do(w, a))
  {
    hide Run;
    hide Step;
    hide Route;
    hide IsFinal;
    hide IsFinalSuccess;
    hide Good;
    var w' := Do(w, a);
    assert w.commandMutex == Some(a.t);
    assert forall u: Tid :: u != a.t ==> At(w', u) == At(w, u);
  }

  lemma KeepsReading(w: World, a: Action)
    requires Inv(w) && Enabled(w, a) && (a.LineRead? || a.ReaderClosed?)
    ensures Inv(Do(w, a))
  {
    hide Run;
    hide Step;
    hide Route;
    hide IsFinal;
    hide IsFinalSuccess;
    hide Good;
    var w' := Do(w, a);
    assert forall u: Tid :: At(w', u) == At(w, u);
    if a.LineRead? && w.pending.Some? {
      OneMoreLine(At(w, w.commandMutex.value).cmd, w.lines, a.line);
    }
  }

  lemma Keeps(w: World, a: Action)
    requires Inv(w) && Enabled(w, a)
    ensures Inv(Do(w, a))
  {
    hide *;
    match a
    case LockFirst(_, _) => KeepsEntering(w, a);
    case LockSecond(_) => KeepsEntering(w, a);
    case Begin(_, _) => KeepsEntering(w, a);
    case Check(_) => KeepsChecking(w, a);
    case Wake(_, _) => KeepsChecking(w, a);
    case UnlockSecond(_) => KeepsLeaving(w, a);
    case UnlockFirst(_) => KeepsLeaving(w, a);
    case LineRead(_) => KeepsReading(w, a);
    case ReaderClosed => KeepsReading(w, a);
  }

  lemma RunNothing(cmd: Command)
    ensures Run(Fresh(cmd), []) == Fresh(cmd)
  {
  }

  // ----- every interleaving

  ghost predicate Execution(ws: seq<World>, acts: seq<Action>) {
    && |ws| == |acts| + 1 && ws[0] == START
    && forall i :: 0 <= i < |acts| ==> Enabled(ws[i], acts[i]) && ws[i + 1] == Do(ws[i], acts[i])
  }

  lemma {:induction false} Invariant(ws: seq<World>, acts: seq<Action>, i: nat)
    requires Execution(ws, acts) && i < |ws|
    ensures Inv(ws[i])
  {
    hide Inv;
    hide Do;
    if i == 0 {
      StartInv();
    } else {
      Invariant(ws, acts, i - 1);
      Keeps(ws[i - 1], acts[i - 1]);
    }
  }

  lemma StartInv()
    ensures Inv(START)
  {
  }

  /** At every point of every interleaving: at most one command is pending, and it
      belongs to the holder of commandmutex; a thread that enters finds none, so it
      never takes the COMMAND_PENDING branch; nothing stays behind when no command
      is active; and every returned result is good. */
  lemma Safety(ws: seq<World>, acts: seq<Action>, i: nat)
    requires Execution(ws, acts) && i < |ws|
    ensures forall t: Tid, u: Tid :: Active(At(ws[i], t)) && Active(At(ws[i], u)) ==> t == u
    ensures forall t: Tid :: At(ws[i], t).Entered? ==> ws[i].pending == None
    ensures (forall t: Tid :: !Active(At(ws[i], t))) ==>
              ws[i].pending == None && ws[i].prefix == None && ws[i].pdu == None
    ensures |ws[i].sent| <= 1 || ws[i].pending == None
    ensures forall k :: 0 <= k < |ws[i].returned| ==> Good(ws[i].returned[k].0, ws[i].returned[k].1)
  {
    hide Good;
    Invariant(ws, acts, i);
  }

  /** The response that is handed back holds what the lines that arrived say: the kept
      lines in order, and the last final line with its class. */
  lemma ResponseIsDescribed(ws: seq<World>, acts: seq<Action>, i: nat, k: nat)
    requires Execution(ws, acts) && i < |ws| && k < |ws[i].returned|
    ensures var (cmd, r) := ws[i].returned[k];
            && (r.response.Some? ==> r.response.value == Described(Fresh(cmd), r.lines))
            && (r.err == 0 ==> r.response.Some? && r.response.value.final == LastFinal(r.lines) != None)
  {
    hide Run, Candidates, Kept, LastFinal, IsFinalSuccess, IsFinal, SentPdu;
    Safety(ws, acts, i);
    var (cmd, r) := ws[i].returned[k];
    assert Good(cmd, r);
    RunIsDescribed(Fresh(cmd), r.lines);
  }

  // ----- what each result means

  /** The lines read among these steps. */
  function LinesIn(acts: seq<Action>): seq<string> {
    if acts == [] then []
    else
      var a := acts[|acts| - 1];
      LinesIn(acts[..|acts| - 1]) + if a.LineRead? then [a.line] else []
  }

  lemma LinesNext(acts: seq<Action>, b: nat, i: nat)
    requires b < i < |acts|
    ensures LinesIn(acts[b + 1..i + 1]) == LinesIn(acts[b + 1..i]) + if acts[i].LineRead? then [acts[i].line] else []
  {
    assert acts[b + 1..i + 1][..i - b - 1] == acts[b + 1..i];
  }

  /** `lines` are those read after thread `t` wrote its command at step `b`, before step `i`. */
  ghost predicate Since(acts: seq<Action>, b: nat, i: nat, t: Tid, lines: seq<string>) {
    b < i <= |acts| && acts[b] == Begin(t, Written) && lines == LinesIn(acts[b + 1..i])
  }

  /** Thread `t` gets its result at step `j`, by one of three steps. */
  ghost predicate Decided(ws: seq<World>, acts: seq<Action>, j: nat, t: Tid, cmd: Command, r: Result)
    requires Execution(ws, acts) && j < |acts|
  {
    match acts[j]
    case Begin(u, write) =>
      u == t && ((write == NoChannel && r.err == ERROR_CHANNEL_CLOSED) || (write == IoError && r.err == ERROR_GENERIC))
    case Check(u) =>
      && u == t && Pended(acts, j, t, r.lines)
      && r.response == Some(Run(Fresh(cmd), r.lines))
      && (if ReaderClosed in acts[..j] then r.err == ERROR_CHANNEL_CLOSED else r.err == 0)
    case Wake(u, timedOut) =>
      u == t && timedOut && r.err == ERROR_TIMEOUT && Pended(acts, j, t, r.lines)
    case _ => false
  }

  ghost predicate Explained(ws: seq<World>, acts: seq<Action>, i: nat, t: Tid, cmd: Command, r: Result)
    requires Execution(ws, acts)
  {
    exists j :: 0 <= j < i && j < |acts| && Decided(ws, acts, j, t, cmd, r)
  }

  ghost predicate Accounted(ws: seq<World>, acts: seq<Action>, i: nat, cmd: Command, r: Result)
    requires Execution(ws, acts)
  {
    exists t: Tid :: Explained(ws, acts, i, t, cmd, r)
  }

  ghost predicate Pended(acts: seq<Action>, i: nat, t: Tid, lines: seq<string>) {
    exists b :: Since(acts, b, i, t, lines)
  }

  ghost predicate ExplainedAt(ws: seq<World>, acts: seq<Action>, i: nat)
    requires Execution(ws, acts) && i < |ws|
  {
    var w := ws[i];
    && (w.closed <==> ReaderClosed in acts[..i])
    && (w.pending.Some? ==> w.commandMutex.Some? && Pended(acts, i, w.commandMutex.value, w.lines))
    && (forall t: Tid :: At(w, t).Finishing? || At(w, t).Releasing? ==>
          Explained(ws, acts, i, t, At(w, t).cmd, At(w, t).result))
    && (forall k :: 0 <= k < |w.returned| ==> Accounted(ws, acts, i, w.returned[k].0, w.returned[k].1))
  }

  lemma ExplainedLater(ws: seq<World>, acts: seq<Action>, i: nat, t: Tid, cmd: Command, r: Result)
    requires Execution(ws, acts) && Explained(ws, acts, i, t, cmd, r)
    ensures Explained(ws, acts, i + 1, t, cmd, r)
  {
    hide Execution, Decided;
  }

  lemma SinceLater(acts: seq<Action>, b: nat, i: nat, t: Tid, lines: seq<string>)
    requires Since(acts, b, i, t, lines) && i < |acts|
    ensures Since(acts, b, i + 1, t, if acts[i].LineRead? then lines + [acts[i].line] else lines)
  {
    hide LinesIn;
    LinesNext(acts, b, i);
    assert lines + [] == lines;
  }

  lemma SinceNow(acts: seq<Action>, i: nat, t: Tid)
    requires i < |acts| && acts[i] == Begin(t, Written)
    ensures Since(acts, i, i + 1, t, [])
  {
    assert acts[i + 1..i + 1] == [];
  }

  lemma ClosedNext(ws: seq<World>, acts: seq<Action>, i: nat)
    requires Execution(ws, acts) && i < |acts| && ExplainedAt(ws, acts, i)
    ensures ws[i + 1].closed <==> ReaderClosed in acts[..i + 1]
  {
    assert acts[..i + 1] == acts[..i] + [acts[i]];
    assert ws[i + 1] == Do(ws[i], acts[i]);
  }

  lemma PendingNext(ws: seq<World>, acts: seq<Action>, i: nat)
    requires Execution(ws, acts) && i < |acts| && ExplainedAt(ws, acts, i) && Inv(ws[i])
    ensures var w := ws[i + 1];
            w.pending.Some? ==> w.commandMutex.Some? && Pended(acts, i + 1, w.commandMutex.value, w.lines)
  {
    hide Run, Step, Route, Good, LinesIn, Since;
    var w, v := ws[i], ws[i + 1];
    assert v == Do(w, acts[i]);
    if v.pending.Some? {
      if w.pending.Some? {
        var b :| Since(acts, b, i, w.commandMutex.value, w.lines);
        SinceLater(acts, b, i, w.commandMutex.value, w.lines);
      } else {
        SinceNow(acts, i, acts[i].t);
      }
    }
  }

  /** What the invariant says of a thread on its way to a result. */
  lemma Holder(w: World, t: Tid)
    requires Inv(w) && (At(w, t).Entered? || At(w, t).Checking? || At(w, t).Waiting?)
    ensures w.commandMutex == Some(t)
    ensures At(w, t).Entered? ==> w.pending == None
    ensures !At(w, t).Entered? ==> w.pending == Some(Run(Fresh(At(w, t).cmd), w.lines))
  {
    hide Run, Good, SentPdu;
  }

  /** Only its own step gives a thread a result. */
  lemma OwnStep(w: World, a: Action, t: Tid)
    requires Enabled(w, a) && !At(w, t).Finishing? && At(Do(w, a), t).Finishing?
    ensures (a.Begin? || a.Check? || a.Wake?) && a.t == t && At(Do(w, a), t).cmd == At(w, t).cmd
    ensures At(w, t).Entered? || At(w, t).Checking? || At(w, t).Waiting?
  {
    hide Run, Step, Route;
  }

  /** The step that gives a thread its result explains it. */
  lemma DecidedNow(ws: seq<World>, acts: seq<Action>, i: nat, t: Tid)
    requires Execution(ws, acts) && i < |acts| && ExplainedAt(ws, acts, i) && Inv(ws[i])
    requires !At(ws[i], t).Finishing? && At(ws[i + 1], t).Finishing?
    ensures Decided(ws, acts, i, t, At(ws[i + 1], t).cmd, At(ws[i + 1], t).result)
  {
    hide Run, Step, Route, LinesIn, Since, Pended, Inv, Explained, Accounted;
    var w, v := ws[i], ws[i + 1];
    assert v == Do(w, acts[i]);
    OwnStep(w, acts[i], t);
    Holder(w, t);
  }

  lemma ExplainedNext(ws: seq<World>, acts: seq<Action>, i: nat)
    requires Execution(ws, acts) && i < |acts| && ExplainedAt(ws, acts, i) && Inv(ws[i])
    ensures ExplainedAt(ws, acts, i + 1)
  {
    hide Run, Step, Route, Good, LinesIn, Since, Decided, Explained, Inv;
    var w, v := ws[i], ws[i + 1];
    assert v == Do(w, acts[i]);
    ClosedNext(ws, acts, i);
    PendingNext(ws, acts, i);
    forall t: Tid | At(v, t).Finishing? || At(v, t).Releasing?
      ensures Explained(ws, acts, i + 1, t, At(v, t).cmd, At(v, t).result)
    {
      if At(w, t).Finishing? || At(w, t).Releasing? {
        ExplainedLater(ws, acts, i, t, At(w, t).cmd, At(w, t).result);
      } else {
        DecidedNow(ws, acts, i, t);
        Explains(ws, acts, i, t, At(v, t).cmd, At(v, t).result);
      }
    }
    forall k | 0 <= k < |v.returned|
      ensures Accounted(ws, acts, i + 1, v.returned[k].0, v.returned[k].1)
    {
      if k < |w.returned| {
        var t: Tid :| Explained(ws, acts, i, t, w.returned[k].0, w.returned[k].1);
        ExplainedLater(ws, acts, i, t, w.returned[k].0, w.returned[k].1);
      } else {
        var t := acts[i].t;
        ExplainedLater(ws, acts, i, t, At(w, t).cmd, At(w, t).result);
      }
    }
  }

  lemma Explains(ws: seq<World>, acts: seq<Action>, i: nat, t: Tid, cmd: Command, r: Result)
    requires Execution(ws, acts) && i < |acts| && Decided(ws, acts, i, t, cmd, r)
    ensures Explained(ws, acts, i + 1, t, cmd, r)
  {
    hide Execution, Decided;
  }

  lemma {:induction false} ExplainedAlways(ws: seq<World>, acts: seq<Action>, i: nat)
    requires Execution(ws, acts) && i < |ws|
    ensures ExplainedAt(ws, acts, i)
  {
    hide Do, Inv, Explained, Since;
    if i > 0 {
      ExplainedAlways(ws, acts, i - 1);
      Invariant(ws, acts, i - 1);
      ExplainedNext(ws, acts, i - 1);
    }
  }

  /** Every result returned was decided by a step of its thread: a write that failed, a
      timed-out wait, or a look at the response, which gives 0 unless the reader was
      closed; with the response to exactly the lines read since the command was written. */
  lemma Outcomes(ws: seq<World>, acts: seq<Action>, i: nat, k: nat)
    requires Execution(ws, acts) && i < |ws| && k < |ws[i].returned|
    ensures Accounted(ws, acts, i, ws[i].returned[k].0, ws[i].returned[k].1)
  {
    hide Execution, Explained;
    ExplainedAlways(ws, acts, i);
  }

  /** What an error tells the caller. */
  lemma ErrorsMean(ws: seq<World>, acts: seq<Action>, i: nat, k: nat)
    requires Execution(ws, acts) && i < |ws| && k < |ws[i].returned|
    ensures var r := ws[i].returned[k].1;
            && (r.err == ERROR_CHANNEL_CLOSED ==>
                  ReaderClosed in acts[..i] || exists t: Tid :: Begin(t, NoChannel) in acts[..i])
            && (r.err == ERROR_GENERIC ==> exists t: Tid :: Begin(t, IoError) in acts[..i])
            && (r.err == ERROR_TIMEOUT ==> exists t: Tid :: Wake(t, true) in acts[..i])
            && r.err in {0, ERROR_CHANNEL_CLOSED, ERROR_GENERIC, ERROR_TIMEOUT}
  {
    hide Since, Run;
    Outcomes(ws, acts, i, k);
    var (cmd, r) := ws[i].returned[k];
    var t: Tid :| Explained(ws, acts, i, t, cmd, r);
    var j :| 0 <= j < i && j < |acts| && Decided(ws, acts, j, t, cmd, r);
    assert acts[..i][j] == acts[j];
    assert forall a :: a in acts[..j] ==> a in acts[..i];
  }

  /** No close, no failed write, no timeout. */
  ghost predicate Undisturbed(acts: seq<Action>) {
    forall a :: a in acts ==>
      a != ReaderClosed && (a.Begin? ==> a.write == Written) && (a.Wake? ==> !a.timedOut)
  }

  /** Undisturbed commands all succeed: each returns 0 and the response to the lines read. */
  lemma UndisturbedSucceed(ws: seq<World>, acts: seq<Action>, i: nat, k: nat)
    requires Execution(ws, acts) && i < |ws| && k < |ws[i].returned| && Undisturbed(acts[..i])
    ensures var (cmd, r) := ws[i].returned[k];
            r.err == 0 && r.response == Some(Described(Fresh(cmd), r.lines)) && LastFinal(r.lines).Some?
  {
    hide Run, Described, LastFinal;
    ErrorsMean(ws, acts, i, k);
    ResponseIsDescribed(ws, acts, i, k);
  }

  // ----- a command that completes

  lemma Extend(ws: seq<World>, acts: seq<Action>, a: Action) returns (vs: seq<World>, bs: seq<Action>)
    requires Execution(ws, acts) && Enabled(ws[|acts|], a)
    ensures Execution(vs, bs) && |vs| == |bs| + 1 && bs == acts + [a] && vs[|bs|] == Do(ws[|acts|], a)
  {
    hide Do, Enabled;
    vs, bs := ws + [Do(ws[|acts|], a)], acts + [a];
  }

  /** Where a lone thread stands while it waits for its response. */
  ghost predicate Awaits(w: World, cmd: Command, lines: seq<string>) {
    && At(w, 0) == Waiting(cmd) && w.commandMutex == Some(0) && w.stateMutex == None
    && w.pending == Some(Run(Fresh(cmd), lines)) && w.lines == lines && !w.closed && w.returned == []
  }

  lemma Issues(cmd: Command) returns (ws: seq<World>, acts: seq<Action>)
    ensures Execution(ws, acts) && Undisturbed(acts) && Awaits(ws[|acts|], cmd, [])
  {
    hide Execution, Run;
    RunNothing(cmd);
    ws, acts := Starting();
    ws, acts := Extend(ws, acts, LockFirst(0, cmd));
    ws, acts := Extend(ws, acts, LockSecond(0));
    ws, acts := Extend(ws, acts, Begin(0, Written));
    ws, acts := Extend(ws, acts, Check(0));
  }

  lemma Starting() returns (ws: seq<World>, acts: seq<Action>)
    ensures Execution(ws, acts) && acts == [] && ws[0] == START
  {
    ws, acts := [START], [];
  }

  lemma {:induction false} Arrive(cmd: Command, lines: seq<string>) returns (ws: seq<World>, acts: seq<Action>)
    ensures Execution(ws, acts) && Undisturbed(acts) && Awaits(ws[|acts|], cmd, lines)
    decreases |lines|
  {
    hide Execution, Run, Step, Route;
    if lines == [] {
      ws, acts := Issues(cmd);
    } else {
      var n := |lines| - 1;
      ws, acts := Arrive(cmd, lines[..n]);
      assert lines == lines[..n] + [lines[n]];
      OneMoreLine(cmd, lines[..n], lines[n]);
      ws, acts := Extend(ws, acts, LineRead(lines[n]));
    }
  }

  lemma Answered(cmd: Command, lines: seq<string>) returns (ws: seq<World>, acts: seq<Action>)
    requires LastFinal(lines).Some?
    ensures Execution(ws, acts) && Undisturbed(acts)
    ensures var w := ws[|acts|];
            && At(w, 0) == Finishing(cmd, Result(0, Some(Run(Fresh(cmd), lines)), lines, w.sent))
            && w.stateMutex == Some(0) && w.returned == []
    ensures |acts| > 0
  {
    hide Execution, Run, LastFinal;
    FinalIsLast(Fresh(cmd), lines);
    ws, acts := Arrive(cmd, lines);
    ws, acts := Extend(ws, acts, Wake(0, false));
    var sent := ws[|acts|].sent;
    ws, acts := Extend(ws, acts, Check(0));
    assert ws[|acts|].sent == sent;
  }

  /** Every command has a run in which the lines that arrive, a final one among them, are
      handed back with 0. */
  lemma Completes(cmd: Command, lines: seq<string>) returns (ws: seq<World>, acts: seq<Action>)
    requires LastFinal(lines).Some?
    ensures Execution(ws, acts) && Undisturbed(acts)
    ensures var done := ws[|acts|].returned;
            && |done| == 1 && done[0].0 == cmd
            && done[0].1.err == 0 && done[0].1.lines == lines
            && done[0].1.response == Some(Described(Fresh(cmd), lines))
  {
    hide Execution, Run, LastFinal, Described;
    RunIsDescribed(Fresh(cmd), lines);
    ws, acts := Answered(cmd, lines);
    ws, acts := Extend(ws, acts, UnlockSecond(0));
    ws, acts := Extend(ws, acts, UnlockFirst(0));
  }
}
