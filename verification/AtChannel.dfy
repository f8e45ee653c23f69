/** The state of atchannel.c that s_commandmutex protects, and the routines that
    change it. */
module AtChannel {
  import opened Basics
  import opened AtReader
  import opened AtResponse

  class Channel {
    var kind: CommandType
    var prefix: Option<string>
    var pdu: Option<string>
    var response: Response?
    /** What the unsolicited handler was called with, and what was sent after a prompt. */
    ghost var handled: seq<string>
    ghost var sent: seq<string>

    ghost predicate Valid()
      reads this, response, if response == null then [] else response.nodes
    {
      response != null ==> response.Valid() && (kind == SingleLine || kind == MultiLine ==> prefix.Some?)
    }

    /** The pending command, if there is one. */
    ghost function State(): Option<Pending>
      reads this, response
    {
      if response == null then None
      else Some(Pending(kind, if prefix.Some? then prefix.value else "", pdu,
                        Reversed(response.Intermediates()), response.finalResponse, response.success))
    }

    constructor ()
      ensures Valid() && State() == None && prefix == None && pdu == None && handled == [] && sent == []
    {
      kind, prefix, pdu, response := NoResult, None, None, null;
      handled, sent := [], [];
    }

    /** handleUnsolicited. */
    method Handle(line: string)
      modifies this`handled
      ensures handled == old(handled) + [line]
    {
      handled := handled + [line];
    }

    /** handleFinalResponse, without the wake-up. */
    method SetFinal(line: string, ok: bool)
      requires response != null && response.Valid()
      modifies response`success, response`finalResponse
      ensures response.success == ok && response.finalResponse == Some(line)
    {
      response.success := ok;
      response.finalResponse := Some(line);
    }

    method Accept(line: string)
      requires response != null && response.Valid()
      modifies response`intermediates, response`nodes
      ensures response.Valid()
      ensures Reversed(response.Intermediates()) == old(Reversed(response.Intermediates())) + [line]
    {
      hide Reversed;
      response.AddIntermediate(line);
      ReversedCons(line, old(response.Intermediates()));
    }

    /** processLine: with no command pending the line is unsolicited; otherwise it
        takes its route. */
    method ProcessLine(line: string)
      requires Valid()
      modifies this, response
      ensures Valid() && response == old(response)
      ensures old(State()) == None ==> handled == old(handled) + [line] && sent == old(sent)
      ensures old(State()).Some? ==>
        var p := old(State()).value;
        && State() == Some(Step(p, line))
        && handled == (if Route(p, line) == Handled then old(handled) + [line] else old(handled))
        && sent == (if Route(p, line) == Prompted then old(sent) + [p.pdu.value] else old(sent))
      ensures State() == None ==> prefix == old(prefix) && pdu == old(pdu)
      ensures response != null && StartsWith(line, "OK") ==>
                response.success && response.finalResponse == Some(line) && handled == old(handled)
      ensures response != null && StartsWith(line, "ERROR") ==>
                !response.success && response.finalResponse == Some(line) && handled == old(handled)
      ensures StartsWith(line, "RING") ==> State() == old(State()) && handled == old(handled) + [line]
    {
      Words(line);
      hide IsUnsolicited;
      hide IsFinalSuccess;
      hide IsFinalError;
      hide StartsWith;
      hide Reversed;
      if response == null || IsUnsolicited(line) {
        Handle(line);
        return;
      }
      EmptyIffNull(response);
      if IsFinalSuccess(line) {
        SetFinal(line, true);
      } else if IsFinalError(line) {
        SetFinal(line, false);
      } else if pdu != None && line == "> " {
        sent := sent + [pdu.value];
        pdu := None;
      } else {
        match kind {
          case NoResult =>
            Handle(line);
          case Numeric =>
            if response.intermediates == null && line != "" && '0' <= line[0] <= '9' {
              Accept(line);
            } else {
              Handle(line);
            }
          case SingleLine =>
            if response.intermediates == null && StartsWith(line, prefix.value) {
              Accept(line);
            } else {
              Handle(line);
            }
          case MultiLine =>
            if StartsWith(line, prefix.value) {
              Accept(line);
            } else {
              Handle(line);
            }
        }
      }
    }

    /** The lines read one after the other, as the reader thread hands them on: the
        handler, the PDU, the list and the final response get what the lines say. */
    method ProcessLines(lines: seq<string>)
      requires Valid() && (State().Some? ==> State().value.accepted == [])
      modifies this, response
      ensures Valid() && response == old(response)
      ensures old(State()) == None ==> handled == old(handled) + lines && sent == old(sent)
      ensures old(State()).Some? ==>
        var p := old(State()).value;
        && State() == Some(Described(p, lines))
        && handled == old(handled) + Destined(p, lines, ToHandler, |lines|)
        && sent == old(sent) + (if p.pdu.Some? && PROMPT in lines then [p.pdu.value] else [])
    {
      hide Described, Destined, Run, Route, Taking, Reversed;
      ghost var s0, h0, t0 := State(), handled, sent;
      NothingYet(s0, h0, t0);
      var i := 0;
      while i < |lines|
        invariant i <= |lines| && Valid() && response == old(response)
        invariant After(s0, h0, t0, lines[..i], State(), handled, sent)
      {
        ghost var s1, h1, t1 := State(), handled, sent;
        ProcessLine(lines[i]);
        AfterOneMore(s0, h0, t0, lines[..i], lines[i], s1, h1, t1, State(), handled, sent);
        assert lines[..i + 1] == lines[..i] + [lines[i]];
        i := i + 1;
      }
      assert lines[..i] == lines;
      if s0.Some? {
        RunIsDescribed(s0.value, lines);
        TakingIs(s0.value, lines);
      }
    }

    /** The assignments that make a command pending. */
    method Begin(k: CommandType, pre: Option<string>, sms: Option<string>)
      requires k == SingleLine || k == MultiLine ==> pre.Some?
      modifies this`kind, this`prefix, this`pdu, this`response
      ensures Valid() && fresh(response)
      ensures State() == Some(Pending(k, if pre.Some? then pre.value else "", sms, [], None, false))
    {
      kind := k;
      prefix := pre;
      pdu := sms;
      response := new Response();
      assert response.Intermediates() == [];
    }

    /** Handing the response over: the list is turned into order of arrival, and
        nothing stays pending. */
    method Collect() returns (r: Response)
      requires Valid() && response != null
      modifies this`prefix, this`pdu, this`response, response, response.nodes
      ensures r == old(response) && r.Valid()
      ensures r.Intermediates() == old(State()).value.accepted
      ensures r.finalResponse == old(State()).value.final && r.success == old(State()).value.success
      ensures Valid() && State() == None && prefix == None && pdu == None
    {
      hide Reversed;
      response.ReverseIntermediates();
      r := response;
      response := null;
      ClearPending();
    }

    /** clearPendingCommand. */
    method ClearPending()
      modifies this`prefix, this`pdu, this`response
      ensures Valid() && State() == None && prefix == None && pdu == None && response == null
    {
      response := null;
      prefix := None;
      pdu := None;
    }
  }

  /** State, handler calls and PDUs sent after `lines`. */
  ghost predicate After(s0: Option<Pending>, h0: seq<string>, t0: seq<string>, lines: seq<string>,
                        s: Option<Pending>, h: seq<string>, t: seq<string>)
  {
    if s0 == None then s == None && h == h0 + lines && t == t0
    else
      var p := s0.value;
      && s == Some(Run(p, lines))
      && h == h0 + Taking(p, lines, ToHandler)
      && t == t0 + (if p.pdu.Some? && PROMPT in lines then [p.pdu.value] else [])
  }

  lemma NothingYet(s0: Option<Pending>, h0: seq<string>, t0: seq<string>)
    ensures After(s0, h0, t0, [], s0, h0, t0)
  {
  }

  lemma AfterOneMore(s0: Option<Pending>, h0: seq<string>, t0: seq<string>, lines: seq<string>, line: string,
                     s1: Option<Pending>, h1: seq<string>, t1: seq<string>,
                     s2: Option<Pending>, h2: seq<string>, t2: seq<string>)
    requires s0.Some? ==> s0.value.accepted == []
    requires After(s0, h0, t0, lines, s1, h1, t1)
    requires s1 == None ==> s2 == None && h2 == h1 + [line] && t2 == t1
    requires s1.Some? ==>
      && s2 == Some(Step(s1.value, line))
      && h2 == (if Route(s1.value, line) == Handled then h1 + [line] else h1)
      && t2 == (if Route(s1.value, line) == Prompted then t1 + [s1.value.pdu.value] else t1)
    ensures After(s0, h0, t0, lines + [line], s2, h2, t2)
  {
    hide Step, Run, Taking;
    if s0.Some? {
      TakingSnoc(s0.value, lines, line);
      Assembly(s0.value, lines);
      PromptIsPlain();
    }
  }

  lemma Words(line: string)
    ensures StartsWith(line, "OK") ==> !IsUnsolicited(line) && IsFinalSuccess(line)
    ensures StartsWith(line, "ERROR") ==> !IsUnsolicited(line) && !IsFinalSuccess(line) && IsFinalError(line)
    ensures StartsWith(line, "RING") ==> IsUnsolicited(line)
  {
    hide StartsWith, IsUnsolicited, IsFinalSuccess, IsFinalError;
    FinalWords(line);
    UnsolicitedWords(line);
    if StartsWith(line, "OK") { NotUnsolicited(line, "OK"); }
    if StartsWith(line, "ERROR") {
      NotUnsolicited(line, "ERROR");
      Differ(line, "ERROR", "OK", 0);
      Differ(line, "ERROR", "CONNECT", 0);
      Differ(line, "ERROR", "ATA:OK", 0);
    }
  }

  lemma ReversedCons(x: string, s: seq<string>)
    ensures Reversed([x] + s) == Reversed(s) + [x]
  {
    assert ([x] + s)[1..] == s;
  }

  lemma EmptyIffNull(r: Response)
    requires r.Valid()
    ensures r.intermediates == null <==> Reversed(r.Intermediates()) == []
  {
    assert |Reversed(r.Intermediates())| == |r.nodes|;
  }
}
