/** Assembling the response to one AT command: processLine, the list of
    intermediate lines it builds and its reversal (atchannel.c). */
module AtResponse {
  import opened Basics
  import opened AtReader

  datatype CommandType = NoResult | Numeric | SingleLine | MultiLine

  const FINAL_ERROR := ["ERROR", "+CMS ERROR:", "+CME ERROR:", "NO CARRIER", "NO ANSWER", "NO DIALTONE"]
  const FINAL_SUCCESS := ["OK", "CONNECT", "ATA:OK"]
  const UNSOLICITED := ["^HRSSILVL:", "^MODE:", "^SIMST:", "^DSDORMANT:", "RING", "+CLIP:", "^CONN:",
                        "^CEND:", "CONNECT", "^RESUME:"]
  const PROMPT := "> "

  predicate StartsWithAny(line: string, prefixes: seq<string>) {
    exists i :: 0 <= i < |prefixes| && StartsWith(line, prefixes[i])
  }

  predicate IsFinalError(line: string) {
    StartsWithAny(line, FINAL_ERROR)
  }

  predicate IsFinalSuccess(line: string) {
    StartsWithAny(line, FINAL_SUCCESS)
  }

  predicate IsUnsolicited(line: string) {
    StartsWithAny(line, UNSOLICITED)
  }

  predicate IsFinal(line: string) {
    IsFinalSuccess(line) || IsFinalError(line)
  }

  /** The command being answered: its type, prefix and PDU still to be sent, the
      lines accepted so far in order of arrival, and the final response. */
  datatype Pending = Pending(kind: CommandType, prefix: string, pdu: Option<string>,
                             accepted: seq<string>, final: Option<string>, success: bool)

  /** Where a line goes: the unsolicited handler, the final response, the prompt
      that releases the PDU, or the list of intermediate lines. */
  datatype Outcome = Handled | Final(ok: bool) | Prompted | Accepted

  datatype Lane = ToHandler | ToFinal | ToPrompt | ToList

  function LaneOf(o: Outcome): Lane {
    match o
    case Handled => ToHandler
    case Final(_) => ToFinal
    case Prompted => ToPrompt
    case Accepted => ToList
  }

  /** An intermediate line of the shape the command type waits for. */
  predicate Matches(kind: CommandType, prefix: string, line: string) {
    match kind
    case NoResult => false
    case Numeric => line != "" && '0' <= line[0] <= '9'
    case SingleLine => StartsWith(line, prefix)
    case MultiLine => StartsWith(line, prefix)
  }

  /** The branches of processLine while a command is pending. */
  function Route(p: Pending, line: string): Outcome {
    if IsUnsolicited(line) then Handled
    else if IsFinalSuccess(line) then Final(true)
    else if IsFinalError(line) then Final(false)
    else if p.pdu.Some? && line == PROMPT then Prompted
    else if Matches(p.kind, p.prefix, line) && (p.kind == MultiLine || p.accepted == []) then Accepted
    else Handled
  }

  function Step(p: Pending, line: string): Pending {
    match Route(p, line)
    case Handled => p
    case Final(ok) => p.(final := Some(line), success := ok)
    case Prompted => p.(pdu := None)
    case Accepted => p.(accepted := p.accepted + [line])
  }

  // ----- the classes, word by word

  lemma AnyOf(line: string, prefixes: seq<string>, k: nat)
    requires k < |prefixes| && StartsWith(line, prefixes[k])
    ensures StartsWithAny(line, prefixes)
  {
  }

  /** A line is a success exactly when it starts like this, and an error likewise. */
  lemma FinalWords(line: string)
    ensures IsFinalSuccess(line) <==>
            StartsWith(line, "OK") || StartsWith(line, "CONNECT") || StartsWith(line, "ATA:OK")
    ensures IsFinalError(line) <==>
            StartsWith(line, "ERROR") || StartsWith(line, "+CMS ERROR:") || StartsWith(line, "+CME ERROR:") ||
            StartsWith(line, "NO CARRIER") || StartsWith(line, "NO ANSWER") || StartsWith(line, "NO DIALTONE")
  {
    hide StartsWith;
    assert FINAL_SUCCESS[0] == "OK" && FINAL_SUCCESS[1] == "CONNECT" && FINAL_SUCCESS[2] == "ATA:OK";
    assert FINAL_ERROR[0] == "ERROR" && FINAL_ERROR[1] == "+CMS ERROR:" && FINAL_ERROR[2] == "+CME ERROR:";
    assert FINAL_ERROR[3] == "NO CARRIER" && FINAL_ERROR[4] == "NO ANSWER" && FINAL_ERROR[5] == "NO DIALTONE";
  }

  lemma UnsolicitedWords(line: string)
    ensures IsUnsolicited(line) <==>
            StartsWith(line, "^HRSSILVL:") || StartsWith(line, "^MODE:") || StartsWith(line, "^SIMST:") ||
            StartsWith(line, "^DSDORMANT:") || StartsWith(line, "RING") || StartsWith(line, "+CLIP:") ||
            StartsWith(line, "^CONN:") || StartsWith(line, "^CEND:") || StartsWith(line, "CONNECT") ||
            StartsWith(line, "^RESUME:")
  {
    hide StartsWith;
    assert UNSOLICITED[0] == "^HRSSILVL:" && UNSOLICITED[1] == "^MODE:" && UNSOLICITED[2] == "^SIMST:";
    assert UNSOLICITED[3] == "^DSDORMANT:" && UNSOLICITED[4] == "RING" && UNSOLICITED[5] == "+CLIP:";
    assert UNSOLICITED[6] == "^CONN:" && UNSOLICITED[7] == "^CEND:" && UNSOLICITED[8] == "CONNECT";
    assert UNSOLICITED[9] == "^RESUME:";
  }

  /** Lines that start with words differing at one place. */
  lemma Differ(line: string, a: string, b: string, i: nat)
    requires StartsWith(line, a) && i < |a| && i < |b| && a[i] != b[i]
    ensures !StartsWith(line, b)
  {
    StartsAt(line, a, i);
    StartsAt(line, b, i);
  }

  lemma StartsAt(line: string, a: string, i: nat)
    requires i < |a|
    ensures StartsWith(line, a) ==> i < |line| && line[i] == a[i]
  {
    if StartsWith(line, a) { assert line[..|a|][i] == a[i]; }
  }

  /** Words that start neither like an unsolicited line nor like each other's class. */
  lemma NotUnsolicited(line: string, a: string)
    requires a != "" && StartsWith(line, a) && a[0] !in ['^', 'R', 'C']
    requires a[0] == '+' ==> |a| > 2 && a[2] == 'M'
    ensures !IsUnsolicited(line)
  {
    hide StartsWith, IsUnsolicited;
    UnsolicitedWords(line);
    Differ(line, a, "^HRSSILVL:", 0);
    Differ(line, a, "^MODE:", 0);
    Differ(line, a, "^SIMST:", 0);
    Differ(line, a, "^DSDORMANT:", 0);
    Differ(line, a, "RING", 0);
    Differ(line, a, "+CLIP:", if a[0] == '+' then 2 else 0);
    Differ(line, a, "^CONN:", 0);
    Differ(line, a, "^CEND:", 0);
    Differ(line, a, "CONNECT", 0);
    Differ(line, a, "^RESUME:", 0);
  }

  /** "OK" completes every command with success. */
  lemma OkSucceeds(p: Pending, line: string)
    requires StartsWith(line, "OK") || StartsWith(line, "ATA:OK")
    ensures Step(p, line) == p.(final := Some(line), success := true)
  {
    hide StartsWith, IsUnsolicited, IsFinalSuccess, IsFinalError;
    FinalWords(line);
    if StartsWith(line, "OK") { NotUnsolicited(line, "OK"); } else { NotUnsolicited(line, "ATA:OK"); }
  }

  /** "ERROR" and its likes complete every command without success. */
  lemma ErrorFails(p: Pending, line: string)
    requires || StartsWith(line, "ERROR") || StartsWith(line, "+CMS ERROR:") || StartsWith(line, "+CME ERROR:")
             || StartsWith(line, "NO CARRIER") || StartsWith(line, "NO ANSWER") || StartsWith(line, "NO DIALTONE")
    ensures Step(p, line) == p.(final := Some(line), success := false)
  {
    hide StartsWith, IsUnsolicited, IsFinalSuccess, IsFinalError;
    FinalWords(line);
    var a := if StartsWith(line, "ERROR") then "ERROR"
             else if StartsWith(line, "+CMS ERROR:") then "+CMS ERROR:"
             else if StartsWith(line, "+CME ERROR:") then "+CME ERROR:"
             else if StartsWith(line, "NO CARRIER") then "NO CARRIER"
             else if StartsWith(line, "NO ANSWER") then "NO ANSWER" else "NO DIALTONE";
    NotUnsolicited(line, a);
    Differ(line, a, "OK", 0);
    Differ(line, a, "CONNECT", 0);
    Differ(line, a, "ATA:OK", 0);
  }

  /** These change nothing; so "CONNECT", though listed as a success, completes nothing,
      because unsolicited lines are recognised first. */
  lemma UnsolicitedPasses(p: Pending, line: string)
    requires || StartsWith(line, "RING") || StartsWith(line, "+CLIP:") || StartsWith(line, "CONNECT")
             || StartsWith(line, "^MODE:") || StartsWith(line, "^CONN:") || StartsWith(line, "^CEND:")
    ensures Route(p, line) == Handled && Step(p, line) == p
  {
    hide StartsWith, IsUnsolicited;
    UnsolicitedWords(line);
  }

  /** What each type of command accepts of the other lines: nothing, the first line that
      starts with a digit, the first with its prefix, every line with its prefix. */
  lemma KindsAccept(p: Pending, line: string)
    requires !IsUnsolicited(line) && !IsFinal(line) && !(p.pdu.Some? && line == "> ")
    ensures Route(p, line) == Handled || Route(p, line) == Accepted
    ensures Route(p, line) == Accepted <==>
            || (p.kind == Numeric && p.accepted == [] && line != "" && line[0] in "0123456789")
            || (p.kind == SingleLine && p.accepted == [] && StartsWith(line, p.prefix))
            || (p.kind == MultiLine && StartsWith(line, p.prefix))
    ensures Route(p, line) == Accepted ==> Step(p, line) == p.(accepted := p.accepted + [line])
  {
    hide StartsWith, IsUnsolicited, IsFinalSuccess, IsFinalError;
    assert line != "" ==> ('0' <= line[0] <= '9' <==> line[0] in "0123456789");
  }

  /** The prompt releases the PDU, once. */
  lemma PromptReleases(p: Pending)
    requires p.pdu.Some?
    ensures Route(p, "> ") == Prompted && Step(p, "> ") == p.(pdu := None)
  {
    hide IsUnsolicited, IsFinalSuccess, IsFinalError;
    PromptIsPlain();
    FinalIs("> ");
  }

  // ----- whole line sequences

  function Run(p: Pending, lines: seq<string>): Pending {
    if lines == [] then p else Step(Run(p, lines[..|lines| - 1]), lines[|lines| - 1])
  }

  /** The lines that take one lane, in order of arrival. */
  function Taking(p: Pending, lines: seq<string>, lane: Lane): seq<string> {
    if lines == [] then []
    else
      var n := |lines| - 1;
      Taking(p, lines[..n], lane) + if LaneOf(Route(Run(p, lines[..n]), lines[n])) == lane then [lines[n]] else []
  }

  /** The prompt is the first "> " while a PDU waits. */
  predicate IsPrompt(p: Pending, lines: seq<string>, i: nat)
    requires i < |lines|
  {
    p.pdu.Some? && lines[i] == PROMPT && PROMPT !in lines[..i]
  }

  predicate IsCandidate(p: Pending, lines: seq<string>, i: nat)
    requires i < |lines|
  {
    && !IsUnsolicited(lines[i]) && !IsFinal(lines[i]) && !IsPrompt(p, lines, i)
    && Matches(p.kind, p.prefix, lines[i])
  }

  /** The intermediate lines on offer, by position and without any state. */
  function Candidates(p: Pending, lines: seq<string>, n: nat): (c: seq<string>)
    requires n <= |lines|
  {
    if n == 0 then []
    else Candidates(p, lines, n - 1) + if IsCandidate(p, lines, n - 1) then [lines[n - 1]] else []
  }

  /** What a command of type `kind` keeps of them. */
  function Kept(kind: CommandType, c: seq<string>): seq<string> {
    if kind == MultiLine || |c| == 0 then c else [c[0]]
  }

  lemma PromptIsPlain()
    ensures !IsUnsolicited(PROMPT) && !IsFinal(PROMPT)
  {
    assert forall i :: 0 <= i < |UNSOLICITED| ==> UNSOLICITED[i] != "" && UNSOLICITED[i][0] != '>';
    assert forall i :: 0 <= i < |FINAL_ERROR| ==> FINAL_ERROR[i] != "" && FINAL_ERROR[i][0] != '>';
    assert forall i :: 0 <= i < |FINAL_SUCCESS| ==> FINAL_SUCCESS[i] != "" && FINAL_SUCCESS[i][0] != '>';
  }

  /** The state after one more line, told from the candidates so far. */
  lemma StepKept(p: Pending, q: Pending, seen: bool, c: seq<string>, line: string)
    requires q.kind == p.kind && q.prefix == p.prefix && q.accepted == Kept(p.kind, c)
    requires q.pdu == if seen then None else p.pdu
    ensures var prompt := p.pdu.Some? && line == PROMPT && !seen;
            var more := !IsUnsolicited(line) && !IsFinal(line) && !prompt && Matches(p.kind, p.prefix, line);
            var r := Step(q, line);
            && r.kind == p.kind && r.prefix == p.prefix
            && r.pdu == (if seen || line == PROMPT then None else p.pdu)
            && r.accepted == Kept(p.kind, if more then c + [line] else c)
  {
    hide IsUnsolicited, IsFinal, IsFinalSuccess, IsFinalError, Matches;
    FinalIs(line);
    PromptIsPlain();
    assert (c + [line])[0] == if c == [] then line else c[0];
    NoResultMatchesNone(p.prefix, line);
  }

  lemma NoResultMatchesNone(prefix: string, line: string)
    ensures !Matches(NoResult, prefix, line)
  {
  }

  lemma CandidatesNext(p: Pending, t: seq<string>, line: string)
    ensures var lines := t + [line];
            Candidates(p, lines, |lines|) ==
            if IsCandidate(p, lines, |t|) then Candidates(p, t, |t|) + [line] else Candidates(p, t, |t|)
  {
    hide IsCandidate;
    var lines := t + [line];
    assert lines[..|t|] == t;
    CandidatesOfPrefix(p, lines, |t|);
    assert Candidates(p, t, |t|) + [] == Candidates(p, t, |t|);
  }

  /** The state after any lines: fixed type and prefix, the PDU gone exactly when
      the prompt came, and the accepted lines those that a command of its type keeps. */
  lemma {:induction false} Assembly(p: Pending, lines: seq<string>)
    requires p.accepted == []
    ensures var q := Run(p, lines);
            && q.kind == p.kind && q.prefix == p.prefix
            && q.pdu == (if PROMPT in lines then None else p.pdu)
            && q.accepted == Kept(p.kind, Candidates(p, lines, |lines|))
  {
    hide IsUnsolicited, IsFinal, Matches, Step, Kept, Candidates, Run, Taking, Route;
    if lines == [] {
      TakingNone(p);
      NothingKept(p);
    } else {
      var n := |lines| - 1;
      var t, line := lines[..n], lines[n];
      assert lines == t + [line];
      Assembly(p, t);
      TakingSnoc(p, t, line);
      CandidatesNext(p, t, line);
      StepKept(p, Run(p, t), PROMPT in t, Candidates(p, t, n), line);
    }
  }

  lemma NothingKept(p: Pending)
    ensures Candidates(p, [], 0) == [] && Kept(p.kind, []) == []
  {
  }

  lemma FinalIs(line: string)
    ensures IsFinal(line) <==> IsFinalSuccess(line) || IsFinalError(line)
  {
  }

  lemma {:induction false} CandidatesOfPrefix(p: Pending, lines: seq<string>, n: nat)
    requires n <= |lines|
    ensures Candidates(p, lines[..n], n) == Candidates(p, lines, n)
  {
    CandidatesAgree(p, lines[..n], lines, n);
  }

  lemma {:induction false} CandidatesAgree(p: Pending, a: seq<string>, b: seq<string>, n: nat)
    requires n <= |a| && n <= |b| && a[..n] == b[..n]
    ensures Candidates(p, a, n) == Candidates(p, b, n)
  {
    hide IsUnsolicited;
    hide IsFinal;
    hide Matches;
    if n > 0 {
      assert a[..n][..n - 1] == a[..n - 1] && b[..n][..n - 1] == b[..n - 1];
      assert a[..n][n - 1] == a[n - 1] && b[..n][n - 1] == b[n - 1];
      CandidatesAgree(p, a, b, n - 1);
    }
  }

  /** Every line goes to exactly one place. */
  lemma {:induction false} EveryLineOnce(p: Pending, lines: seq<string>)
    ensures multiset(lines) ==
              multiset(Taking(p, lines, ToHandler)) + multiset(Taking(p, lines, ToFinal))
              + multiset(Taking(p, lines, ToPrompt)) + multiset(Taking(p, lines, ToList))
  {
    hide *;
    TakingNone(p);
    if lines != [] {
      var t, x := lines[..|lines| - 1], lines[|lines| - 1];
      EveryLineOnce(p, t);
      TakingSnoc(p, t, x);
      assert lines == t + [x];
      Grow(t, x);
      match LaneOf(Route(Run(p, t), x))
      case ToHandler => Grow(Taking(p, t, ToHandler), x);
      case ToFinal => Grow(Taking(p, t, ToFinal), x);
      case ToPrompt => Grow(Taking(p, t, ToPrompt), x);
      case ToList => Grow(Taking(p, t, ToList), x);
    }
  }

  /** Where line `i` goes, by position and without any state. */
  function Destination(p: Pending, lines: seq<string>, i: nat): Lane
    requires i < |lines|
  {
    if IsUnsolicited(lines[i]) then ToHandler
    else if IsFinal(lines[i]) then ToFinal
    else if IsPrompt(p, lines, i) then ToPrompt
    else if Matches(p.kind, p.prefix, lines[i]) && (p.kind == MultiLine || Candidates(p, lines, i) == []) then ToList
    else ToHandler
  }

  /** The first `n` lines that go to `lane`, in order. */
  function Destined(p: Pending, lines: seq<string>, lane: Lane, n: nat): (ls: seq<string>)
    requires n <= |lines|
  {
    if n == 0 then []
    else Destined(p, lines, lane, n - 1) + if Destination(p, lines, n - 1) == lane then [lines[n - 1]] else []
  }

  /** Each line takes the lane that its position and kind say, whatever came before. */
  lemma DestinationIs(p: Pending, lines: seq<string>, i: nat)
    requires p.accepted == [] && i < |lines|
    ensures LaneOf(Route(Run(p, lines[..i]), lines[i])) == Destination(p, lines, i)
  {
    hide IsUnsolicited, IsFinal, IsFinalSuccess, IsFinalError, Matches, Run, Candidates;
    Assembly(p, lines[..i]);
    CandidatesOfPrefix(p, lines, i);
    FinalIs(lines[i]);
  }

  lemma {:induction false} TakingPrefix(p: Pending, lines: seq<string>, lane: Lane, n: nat)
    requires p.accepted == [] && n <= |lines|
    ensures Taking(p, lines[..n], lane) == Destined(p, lines, lane, n)
  {
    hide Route, Run, Destination;
    if n > 0 {
      TakingPrefix(p, lines, lane, n - 1);
      DestinationIs(p, lines, n - 1);
      assert lines[..n][..n - 1] == lines[..n - 1];
    }
  }

  /** Handler, final response, prompt and list each get the lines destined for them, in
      order, and every line gets to one of them. */
  lemma TakingIs(p: Pending, lines: seq<string>)
    requires p.accepted == []
    ensures forall lane :: Taking(p, lines, lane) == Destined(p, lines, lane, |lines|)
    ensures multiset(lines) ==
              multiset(Destined(p, lines, ToHandler, |lines|)) + multiset(Destined(p, lines, ToFinal, |lines|))
              + multiset(Destined(p, lines, ToPrompt, |lines|)) + multiset(Destined(p, lines, ToList, |lines|))
  {
    hide *;
    assert lines[..|lines|] == lines;
    forall lane ensures Taking(p, lines, lane) == Destined(p, lines, lane, |lines|) {
      TakingPrefix(p, lines, lane, |lines|);
    }
    EveryLineOnce(p, lines);
  }

  /** The last line that is final and not taken as unsolicited. */
  function LastFinal(lines: seq<string>): Option<string> {
    if lines == [] then None
    else
      var x := lines[|lines| - 1];
      if IsFinal(x) && !IsUnsolicited(x) then Some(x) else LastFinal(lines[..|lines| - 1])
  }

  /** The final response on record is the last one that came, with its class. */
  lemma {:induction false} FinalIsLast(p: Pending, lines: seq<string>)
    ensures var q, f := Run(p, lines), LastFinal(lines);
            if f.Some? then q.final == f && q.success == IsFinalSuccess(f.value)
            else q.final == p.final && q.success == p.success
  {
    hide IsUnsolicited, IsFinal, IsFinalSuccess, IsFinalError, Matches;
    if lines != [] {
      FinalIsLast(p, lines[..|lines| - 1]);
      FinalIs(lines[|lines| - 1]);
    }
  }

  /** The pending command after `lines`, described without following them one by one. */
  function Described(p: Pending, lines: seq<string>): Pending {
    var f := LastFinal(lines);
    Pending(p.kind, p.prefix, if PROMPT in lines then None else p.pdu,
            Kept(p.kind, Candidates(p, lines, |lines|)),
            if f.Some? then f else p.final, if f.Some? then IsFinalSuccess(f.value) else p.success)
  }

  lemma RunIsDescribed(p: Pending, lines: seq<string>)
    requires p.accepted == []
    ensures Run(p, lines) == Described(p, lines)
  {
    hide Run, Kept, Candidates, LastFinal, IsFinalSuccess;
    Assembly(p, lines);
    FinalIsLast(p, lines);
  }

  lemma Grow(s: seq<string>, x: string)
    ensures multiset(s + [x]) == multiset(s) + multiset{x}
  {
  }

  /** The list grows by the lines routed to it, and the PDU is sent at most once. */
  lemma {:induction false} ListAndPrompt(p: Pending, lines: seq<string>)
    ensures Run(p, lines).accepted == p.accepted + Taking(p, lines, ToList)
    ensures |Taking(p, lines, ToPrompt)| + (if Run(p, lines).pdu.Some? then 1 else 0)
         == if p.pdu.Some? then 1 else 0
  {
    hide Route;
    hide Taking;
    hide Run;
    TakingNone(p);
    if lines != [] {
      var t, x := lines[..|lines| - 1], lines[|lines| - 1];
      ListAndPrompt(p, t);
      assert lines == t + [x];
      TakingSnoc(p, t, x);
      PromptNeedsPdu(Run(p, t), x);
      assert p.accepted + (Taking(p, t, ToList) + [x]) == p.accepted + Taking(p, t, ToList) + [x];
    }
  }

  lemma TakingNone(p: Pending)
    ensures Run(p, []) == p && forall lane :: Taking(p, [], lane) == []
  {
  }

  lemma TakingSnoc(p: Pending, t: seq<string>, x: string)
    ensures Run(p, t + [x]) == Step(Run(p, t), x)
    ensures forall lane :: Taking(p, t + [x], lane) ==
              if LaneOf(Route(Run(p, t), x)) == lane then Taking(p, t, lane) + [x] else Taking(p, t, lane)
  {
    hide Route;
    var lines := t + [x];
    assert lines[..|lines| - 1] == t;
    forall lane ensures Taking(p, lines, lane) ==
      if LaneOf(Route(Run(p, t), x)) == lane then Taking(p, t, lane) + [x] else Taking(p, t, lane)
    {
      assert Taking(p, t, lane) + [] == Taking(p, t, lane);
    }
  }

  lemma PromptNeedsPdu(p: Pending, line: string)
    ensures Route(p, line) == Prompted ==> p.pdu.Some?
  {
  }

  // ----- the list of intermediate lines

  /** Newest first, as the list is built, is the reverse of the order of arrival. */
  function Reversed(s: seq<string>): (r: seq<string>)
    ensures |r| == |s|
  {
    if s == [] then [] else Reversed(s[1..]) + [s[0]]
  }

  lemma {:induction false} ReversedSnoc(s: seq<string>, x: string)
    ensures Reversed(s + [x]) == [x] + Reversed(s)
  {
    if s == [] {
      assert s + [x] == [x];
    } else {
      ReversedSnoc(s[1..], x);
      assert (s + [x])[1..] == s[1..] + [x];
    }
  }

  lemma {:induction false} ReversedTwice(s: seq<string>)
    ensures Reversed(Reversed(s)) == s
  {
    if s != [] {
      ReversedTwice(s[1..]);
      ReversedSnoc(Reversed(s[1..]), s[0]);
    }
  }

  class Line {
    const line: string
    var next: Line?

    constructor (line: string, next: Line?)
      ensures this.line == line && this.next == next
    {
      this.line := line;
      this.next := next;
    }
  }

  /** `nodes` is the list that starts at `head`. */
  ghost predicate Chain(nodes: seq<Line>, head: Line?)
    reads nodes
  {
    && (head == null <==> nodes == [])
    && (nodes != [] ==> head == nodes[0])
    && (forall i {:trigger nodes[i].next} :: 0 <= i < |nodes| ==>
          nodes[i].next == if i + 1 < |nodes| then nodes[i + 1] else null)
    && (forall i, j :: 0 <= i < j < |nodes| ==> nodes[i] != nodes[j])
  }

  lemma ChainTail(nodes: seq<Line>, head: Line?)
    requires Chain(nodes, head) && nodes != []
    ensures Chain(nodes[1..], nodes[0].next) && nodes[0] !in nodes[1..]
  {
    var t := nodes[1..];
    assert forall i {:trigger t[i].next} :: 0 <= i < |t| ==> t[i].next == nodes[i + 1].next;
  }

  lemma ChainCons(nodes: seq<Line>, head: Line?, x: Line)
    requires Chain(nodes, head) && x !in nodes && x.next == head
    ensures Chain([x] + nodes, x)
  {
    var t := [x] + nodes;
    assert forall i {:trigger t[i].next} :: 1 <= i < |t| ==> t[i].next == nodes[i - 1].next;
  }

  function Texts(nodes: seq<Line>): (s: seq<string>)
    ensures |s| == |nodes|
  {
    seq(|nodes|, i requires 0 <= i < |nodes| => nodes[i].line)
  }

  lemma ChainHead(nodes: seq<Line>, head: Line?)
    requires Chain(nodes, head)
    ensures head == null <==> nodes == []
    ensures nodes != [] ==> head == nodes[0]
  {
  }

  lemma Distinct(nodes: seq<Line>, head: Line?)
    requires Chain(nodes, head)
    ensures forall i, j :: 0 <= i < j < |nodes| ==> nodes[i] != nodes[j]
  {
  }

  lemma NoLines()
    ensures Chain([], null) && Texts([]) == [] && Reversed([]) == []
  {
  }

  lemma TextsSnoc(nodes: seq<Line>, x: Line)
    ensures Texts(nodes + [x]) == Texts(nodes) + [x.line]
  {
  }

  lemma TextsCons(x: Line, nodes: seq<Line>)
    ensures Texts([x] + nodes) == [x.line] + Texts(nodes)
  {
  }

  class Response {
    var success: bool
    var finalResponse: Option<string>
    var intermediates: Line?
    ghost var nodes: seq<Line>

    ghost predicate Valid()
      reads this, nodes
    {
      Chain(nodes, intermediates)
    }

    /** The intermediate lines in list order. */
    ghost function Intermediates(): seq<string>
      reads this
    {
      Texts(nodes)
    }

    constructor ()
      ensures Valid() && nodes == [] && finalResponse == None && !success
    {
      success := false;
      finalResponse := None;
      intermediates := null;
      nodes := [];
    }

    /** addIntermediate: at the head of the list. */
    method AddIntermediate(line: string)
      requires Valid()
      modifies this`intermediates, this`nodes
      ensures Valid() && Intermediates() == [line] + old(Intermediates())
      ensures forall n :: n in nodes ==> n in old(nodes) || fresh(n)
    {
      var p := new Line(line, intermediates);
      intermediates := p;
      nodes := [p] + nodes;
      assert Texts(nodes) == [line] + old(Texts(nodes));
    }

    /** reverseIntermediates: in place, no node is made or lost. */
    method ReverseIntermediates()
      requires Valid()
      modifies this`intermediates, this`nodes, nodes
      ensures Valid() && Intermediates() == Reversed(old(Intermediates()))
      ensures multiset(nodes) == multiset(old(nodes))
    {
      hide Chain;
      hide Texts;
      hide Reversed;
      ghost var all := nodes;
      ghost var done: seq<Line> := [];
      ghost var k := 0;
      var cur := intermediates;
      intermediates := null;
      NoLines();
      Distinct(all, cur);
      assert all[..0] == [] && all[0..] == all;
      while cur != null
        invariant 0 <= k <= |all| && |done| == k
        invariant Chain(all[k..], cur) && Chain(done, intermediates)
        invariant forall i, j :: 0 <= i < k <= j < |all| ==> all[i] != all[j]
        invariant forall n :: n in done ==> n in all[..k]
        invariant Texts(done) == Reversed(Texts(all[..k]))
        invariant multiset(done) == multiset(all[..k])
        decreases |all| - k
      {
        ghost var rest := all[k..];
        ChainHead(rest, cur);
        ghost var x := all[k];
        ChainTail(rest, cur);
        assert x !in done && rest[1..] == all[k + 1..];
        var next := cur.next;
        cur.next := intermediates;
        ChainCons(done, intermediates, x);
        intermediates := cur;
        assert all[..k + 1] == all[..k] + [x];
        TextsSnoc(all[..k], x);
        ReversedSnoc(Texts(all[..k]), x.line);
        TextsCons(x, done);
        done := [x] + done;
        cur := next;
        k := k + 1;
      }
      ChainHead(all[k..], cur);
      nodes := done;
      assert all[..k] == all;
    }
  }
}
