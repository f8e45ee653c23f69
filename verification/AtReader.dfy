/** The line reader of atchannel.c: one sliding buffer fed by reads of any size. */
module AtReader {
  import opened Basics

  /** MAX_AT_RESPONSE. */
  const MAX := 8192

  predicate Newline(c: char) {
    c == '\r' || c == '\n'
  }

  predicate StartsWith(line: string, prefix: string) {
    |prefix| <= |line| && line[..|prefix|] == prefix
  }

  // ----- the stream, without a buffer

  function SkipNewlines(s: string): (t: string)
    ensures |t| <= |s| && (t == [] || !Newline(t[0]))
  {
    if s != [] && Newline(s[0]) then SkipNewlines(s[1..]) else s
  }

  /** Index of the first newline, or the length. */
  function EolIndex(s: string): (e: nat)
    ensures e <= |s|
    ensures forall i :: 0 <= i < e ==> !Newline(s[i])
    ensures e < |s| ==> Newline(s[e])
  {
    if s == [] || Newline(s[0]) then 0 else 1 + EolIndex(s[1..])
  }

  /** The first complete line and what follows its terminator. */
  function NextLine(s: string): (r: Option<(string, string)>)
    ensures r.Some? ==> |r.value.1| < |s|
  {
    var t := SkipNewlines(s);
    var e := EolIndex(t);
    if e == |t| then None else Some((t[..e], t[e + 1..]))
  }

  function Lines(s: string): seq<string>
    decreases |s|
  {
    match NextLine(s)
    case None => []
    case Some(n) => [n.0] + Lines(n.1)
  }

  /** The terminated pieces between consecutive newline characters. */
  function Pieces(s: string): seq<string>
    decreases |s|
  {
    var e := EolIndex(s);
    if e == |s| then [] else [s[..e]] + Pieces(s[e + 1..])
  }

  function NonEmpty(ps: seq<string>): seq<string> {
    if ps == [] then []
    else (if ps[0] == "" then [] else [ps[0]]) + NonEmpty(ps[1..])
  }

  /** The lines are the non-empty pieces between newline characters. */
  lemma {:induction false} LinesAreNonEmptyPieces(s: string)
    ensures Lines(s) == NonEmpty(Pieces(s))
    decreases |s|
  {
    if s == [] {
    } else if Newline(s[0]) {
      LinesAreNonEmptyPieces(s[1..]);
      assert NextLine(s) == NextLine(s[1..]);
      assert Pieces(s) == [""] + Pieces(s[1..]);
      NonEmptyCons("", Pieces(s[1..]));
    } else {
      var e := EolIndex(s);
      if e < |s| {
        LinesAreNonEmptyPieces(s[e + 1..]);
        assert NextLine(s) == Some((s[..e], s[e + 1..]));
        NonEmptyCons(s[..e], Pieces(s[e + 1..]));
      }
    }
  }

  lemma NonEmptyCons(p: string, ps: seq<string>)
    ensures NonEmpty([p] + ps) == (if p == "" then [] else [p]) + NonEmpty(ps)
  {
    assert ([p] + ps)[1..] == ps;
  }

  // ----- what the reader asks of the stream

  /** No line starts like the prompt or the USSD answer, whose handling depends
      on where a read ends. */
  ghost predicate Plain(s: string) {
    forall i :: 0 <= i < |s| && (i == 0 || Newline(s[i - 1])) ==>
      !StartsWith(s[i..], "> ") && !StartsWith(s[i..], "+CUSD:")
  }

  /** Every run of newlines and the line after it fit the buffer. */
  predicate Bounded(s: string)
    decreases |s|
  {
    var t := SkipNewlines(s);
    && |s| - |t| + EolIndex(t) < MAX
    && (NextLine(s).Some? ==> Bounded(NextLine(s).value.1))
  }

  predicate NoNul(s: string) {
    '\0' !in s
  }

  function Flatten(chunks: seq<string>): string {
    if chunks == [] then [] else chunks[0] + Flatten(chunks[1..])
  }

  // ----- facts about the stream

  lemma {:induction false} SkipNewlinesShape(s: string)
    ensures var t := SkipNewlines(s);
            t == s[|s| - |t|..] && forall i :: 0 <= i < |s| - |t| ==> Newline(s[i])
  {
    if s != [] && Newline(s[0]) {
      SkipNewlinesShape(s[1..]);
    }
  }

  lemma {:induction false} SkipNewlinesIs(s: string, k: nat)
    requires k <= |s| && (forall i :: 0 <= i < k ==> Newline(s[i])) && (k == |s| || !Newline(s[k]))
    ensures SkipNewlines(s) == s[k..]
  {
    if k > 0 {
      SkipNewlinesIs(s[1..], k - 1);
      assert s[1..][k - 1..] == s[k..];
    }
  }

  lemma {:induction false} EolIndexIs(s: string, e: nat)
    requires e <= |s| && (forall i :: 0 <= i < e ==> !Newline(s[i])) && (e == |s| || Newline(s[e]))
    ensures EolIndex(s) == e
  {
    if e > 0 { EolIndexIs(s[1..], e - 1); }
  }

  /** After `k` newlines and a line of `e` characters, the next line. */
  lemma NextLineIs(s: string, k: nat, e: nat)
    requires k + e < |s| && Newline(s[k + e])
    requires forall i :: 0 <= i < k ==> Newline(s[i])
    requires e > 0 && forall i :: k <= i < k + e ==> !Newline(s[i])
    ensures NextLine(s) == Some((s[k..k + e], s[k + e + 1..]))
  {
    SkipNewlinesIs(s, k);
    EolIndexIs(s[k..], e);
    assert s[k..][..e] == s[k..k + e] && s[k..][e + 1..] == s[k + e + 1..];
  }

  lemma NoLine(s: string, k: nat)
    requires k <= |s| && (forall i :: 0 <= i < k ==> Newline(s[i]))
    requires forall i :: k <= i < |s| ==> !Newline(s[i])
    ensures NextLine(s) == None
  {
    SkipNewlinesIs(s, k);
    EolIndexIs(s[k..], |s| - k);
  }

  lemma BoundedRun(s: string, k: nat, e: nat)
    requires Bounded(s) && k + e <= |s|
    requires forall i :: 0 <= i < k ==> Newline(s[i])
    requires forall i :: k <= i < k + e ==> !Newline(s[i])
    ensures k + e < MAX
  {
    SkipNewlinesShape(s);
    var n := |s| - |SkipNewlines(s)|;
    if e > 0 {
      SkipNewlinesIs(s, k);
      var t := SkipNewlines(s);
      assert t == s[k..];
      assert forall i :: 0 <= i < e ==> t[i] == s[k + i];
    } else {
      assert n < |s| ==> SkipNewlines(s)[0] == s[n];
    }
  }

  lemma PlainSuffix(s: string, k: nat)
    requires Plain(s) && k <= |s| && (k == 0 || Newline(s[k - 1]))
    ensures Plain(s[k..])
  {
    forall i | 0 <= i < |s[k..]| && (i == 0 || Newline(s[k..][i - 1]))
      ensures !StartsWith(s[k..][i..], "> ") && !StartsWith(s[k..][i..], "+CUSD:")
    {
      assert s[k..][i..] == s[k + i..];
      assert i > 0 ==> s[k..][i - 1] == s[k + i - 1];
    }
  }

  // ----- the reader

  class LineReader {
    const buf: array<char>
    var cur: nat
    /** Where the NUL that ends the buffered data is. */
    ghost var end: nat
    /** The environment: what successive reads will deliver before end of file. */
    var input: seq<string>

    ghost predicate Valid()
      reads this, buf
    {
      && buf.Length == MAX + 1
      && cur <= end <= MAX && buf[end] == '\0'
      && (forall k :: cur <= k < end ==> buf[k] != '\0')
      && (forall c :: c in input ==> c != "" && NoNul(c))
    }

    /** Everything not yet handed out. */
    ghost function Stream(): string
      requires buf.Length == MAX + 1 && cur <= end <= MAX
      reads this, buf
    {
      buf[cur..end] + Flatten(input)
    }

    constructor (chunks: seq<string>)
      requires forall c :: c in chunks ==> c != "" && NoNul(c)
      ensures Valid() && Stream() == Flatten(chunks) && fresh(buf)
    {
      buf := new char[MAX + 1](_ => '\0');
      cur := 0;
      end := 0;
      input := chunks;
    }

    /** read(2): up to `max` bytes of what is available; "" at end of file. */
    method Read(max: nat) returns (chunk: string)
      requires max > 0 && forall c :: c in input ==> c != "" && NoNul(c)
      modifies this`input
      ensures |chunk| <= max && NoNul(chunk) && forall c :: c in input ==> c != "" && NoNul(c)
      ensures old(Flatten(input)) == chunk + Flatten(input)
      ensures chunk == "" <==> old(input) == []
      ensures chunk == "" ==> input == old(input)
      ensures chunk != "" ==> |Flatten(input)| < |old(Flatten(input))|
    {
      if input == [] {
        return "";
      }
      var head := input[0];
      ghost var rest := input[1..];
      assert head in input;
      if |head| <= max {
        chunk := head;
        input := input[1..];
        assert forall c :: c in input ==> c in [head] + rest;
      } else {
        chunk := head[..max];
        SplitHead(head, max, rest);
        input := [head[max..]] + input[1..];
        assert forall c :: c in input ==> c == head[max..] || c in old(input);
      }
      assert old(input) == [head] + rest;
    }

    /** The loops over leading newlines. */
    method SkipLeading()
      requires Valid()
      modifies this`cur
      ensures Valid() && old(cur) <= cur
      ensures forall k :: old(cur) <= k < cur ==> Newline(buf[k])
      ensures cur == end || !Newline(buf[cur])
    {
      while buf[cur] == '\r' || buf[cur] == '\n'
        invariant Valid() && old(cur) <= cur
        invariant forall k :: old(cur) <= k < cur ==> Newline(buf[k])
        decreases end - cur
      {
        cur := cur + 1;
      }
    }

    /** findNextEOL: the end of the line at `at`, or -1. */
    method FindNextEol(at: nat) returns (eol: int)
      requires Valid() && cur <= at <= end
      ensures buf[at..end] == "> " ==> eol == at + 2
      ensures buf[at..end] != "> " ==>
        if exists k :: at <= k < end && Newline(buf[k]) then
          at <= eol < end && Newline(buf[eol]) && forall k :: at <= k < eol ==> !Newline(buf[k])
        else eol == -1
    {
      if buf[at] == '>' && buf[at + 1] == ' ' && buf[at + 2] == '\0' {
        assert buf[at..end] == "> ";
        return at + 2;
      }
      assert buf[at..end] == "> " ==> buf[at..end][0] == '>' && buf[at..end][1] == ' ';
      var i := at;
      while buf[i] != '\0' && buf[i] != '\r' && buf[i] != '\n'
        invariant at <= i <= end
        invariant forall k :: at <= k < i ==> !Newline(buf[k])
        decreases end - i
      {
        i := i + 1;
      }
      eol := if buf[i] == '\0' then -1 else i;
    }

    /** processUSSD: a line starting "+CUSD:" ends with the buffered data. */
    method ProcessUssd(at: nat) returns (eol: int)
      requires Valid() && cur <= at <= end
      ensures eol == if StartsWith(buf[at..end], "+CUSD:") then end else -1
    {
      var prefix := "+CUSD:";
      var i := 0;
      while i < |prefix| && buf[at + i] != '\0'
        invariant 0 <= i <= |prefix| && at + i <= end
        invariant buf[at..at + i] == prefix[..i]
      {
        if buf[at + i] != prefix[i] {
          assert buf[at..end][i] != prefix[i];
          return -1;
        }
        assert buf[at..at + i + 1] == buf[at..at + i] + [prefix[i]];
        i := i + 1;
      }
      if i < |prefix| {
        assert |buf[at..end]| < |prefix|;
        return -1;
      }
      assert prefix[..i] == prefix;
      forall k | 0 <= k < i ensures buf[at..end][k] == prefix[k] {
        assert buf[at..at + i][k] == prefix[k];
      }
      var j := at;
      while buf[j] != '\0'
        invariant at <= j <= end
        decreases end - j
      {
        j := j + 1;
      }
      eol := j;
    }

    /** What readline has seen of the stream `s` at entry: `lead` newlines, and then
        the buffered data. */
    ghost predicate Seen(s: string, lead: nat)
      requires buf.Length == MAX + 1 && cur <= end <= MAX
      reads this, buf
    {
      lead <= |s| && s[lead..] == Stream() && forall i :: 0 <= i < lead ==> Newline(s[i])
    }

    /** Nothing but an unfinished line is buffered; newlines still in the buffer
        are among the `lead`. */
    ghost predicate Partial(lead: nat)
      requires Valid()
      reads this, buf
    {
      cur <= lead && forall k :: cur <= k < end ==> !Newline(buf[k])
    }

    ghost predicate Found(eol: int)
      requires Valid()
      reads this, buf
    {
      cur < eol < end && Newline(buf[eol]) && forall k :: cur <= k < eol ==> !Newline(buf[k])
    }

    /** Leading newlines are seen and skipped. */
    method SkipSeen(ghost s: string, ghost lead: nat) returns (ghost lead': nat)
      requires Valid() && Seen(s, lead)
      modifies this`cur
      ensures Valid() && Seen(s, lead') && lead' - lead == cur - old(cur) >= 0
      ensures cur == end || !Newline(buf[cur])
    {
      ghost var c0, b := cur, buf[cur..end];
      SkipLeading();
      lead' := lead + (cur - c0);
      assert forall k :: 0 <= k < cur - c0 ==> b[k] == buf[c0 + k];
      DropRun(s, lead, b, Flatten(input), cur - c0);
      assert buf[cur..end] == b[cur - c0..];
    }

    /** Skips newlines and looks for the end of a line. */
    method FindLine(ghost s: string, ghost lead: nat) returns (eol: int, ghost lead': nat)
      requires Valid() && Seen(s, lead) && Plain(s)
      modifies this`cur
      ensures Valid() && Seen(s, lead') && lead' - lead == cur - old(cur) >= 0
      ensures if eol < 0 then eol == -1 && forall k :: cur <= k < end ==> !Newline(buf[k]) else Found(eol)
    {
      hide Plain;
      hide StartsWith;
      hide Newline;
      lead' := SkipSeen(s, lead);
      PlainHere(s, lead', buf[cur..end], Flatten(input));
      eol := ProcessUssd(cur);
      if eol < 0 {
        eol := FindNextEol(cur);
      }
    }

    /** Moves an unfinished line to the front of the buffer. */
    method MoveUp() returns (len: nat)
      requires Valid()
      modifies this, buf
      ensures Valid() && cur == 0 && end == len == old(end) - old(cur) && input == old(input)
      ensures buf[..len] == old(buf[cur..end])
    {
      len := 0;
      while buf[cur + len] != '\0'
        invariant cur + len <= end
        decreases end - len
      {
        len := len + 1;
      }
      ghost var b := buf[cur..end];
      var from := cur;
      forall k | 0 <= k <= len {
        buf[k] := buf[from + k];
      }
      cur := 0;
      end := len;
      assert buf[..len] == b;
    }

    /** The data of one read, with its NUL, after the buffered data. */
    method Store(chunk: string, pRead: nat)
      requires Valid() && pRead == end && end + |chunk| <= MAX && NoNul(chunk)
      modifies this`end, buf
      ensures Valid() && end == old(end) + |chunk|
      ensures buf[cur..end] == old(buf[cur..end]) + chunk
    {
      ghost var b := buf[cur..end];
      forall k | 0 <= k < |chunk| {
        buf[pRead + k] := chunk[k];
      }
      buf[pRead + |chunk|] := '\0';
      end := end + |chunk|;
      assert buf[cur..end] == b + chunk;
    }

    /** readline up to its loop: what is left from the last read. */
    method Resume(ghost s: string) returns (eol: int, pRead: nat, ghost lead: nat)
      requires Valid() && s == Stream() && Plain(s)
      modifies this, buf
      ensures Valid() && input == old(input) && Seen(s, lead)
      ensures if eol < 0 then eol == -1 && Partial(lead) && pRead == end else Found(eol)
    {
      hide Plain, Newline, Flatten, NoNul;
      assert s[0..] == s;
      eol, pRead, lead := -1, 0, 0;
      if buf[cur] == '\0' {
        assert buf[cur..end] == [];
        cur := 0;
        buf[0] := '\0';
        end := 0;
        assert buf[cur..end] == [];
      } else {
        eol, lead := SkipAndFind(s);
        if eol < 0 {
          ghost var b := buf[cur..end];
          pRead := MoveUp();
          assert buf[cur..end] == b;
          assert forall k :: 0 <= k < end ==> buf[k] == b[k];
        }
      }
    }

    /** One turn of the loop of readline; `eof` when read delivers nothing. */
    method Refill(pRead: nat, ghost s: string, ghost lead: nat)
      returns (eof: bool, eol: int, pRead': nat, ghost lead': nat)
      requires Valid() && Seen(s, lead) && Partial(lead) && pRead == end && Plain(s) && Bounded(s)
      modifies this, buf
      ensures Valid()
      ensures eof ==> NextLine(s) == None
      ensures !eof ==> Seen(s, lead') && |Flatten(input)| < |old(Flatten(input))|
      ensures !eof ==> if eol < 0 then eol == -1 && Partial(lead') && pRead' == end else Found(eol)
    {
      hide Plain;
      hide Bounded;
      hide NextLine;
      NotFull(s, lead, buf[cur..end], Flatten(input), cur, end);
      eof, eol, pRead', lead' := false, -1, pRead, lead;
      if MAX - pRead == 0 {
        // the source discards the buffer here
        assert false;
      }
      ghost var b := buf[cur..end];
      var chunk := Read(MAX - pRead);
      if chunk == "" {
        AtEof(s, lead, b);
        return true, eol, pRead', lead';
      }
      Store(chunk, pRead);
      assert b + (chunk + Flatten(input)) == b + chunk + Flatten(input);
      eol, lead' := FindLine(s, lead);
      pRead' := pRead + |chunk|;
    }

    /** Cuts the line out, with a NUL over its terminator. */
    method Take(eol: int, ghost s: string, ghost lead: nat) returns (line: string)
      requires Valid() && Seen(s, lead) && Found(eol)
      modifies this, buf
      ensures Valid() && NextLine(s) == Some((line, Stream()))
    {
      hide NextLine, Newline, Flatten, NoNul;
      ghost var b := buf[cur..end];
      assert forall k :: 0 <= k < |b| ==> b[k] == buf[cur + k];
      LineFound(s, lead, b, Flatten(input), eol - cur);
      line := buf[cur..eol];
      assert line == b[..eol - cur];
      ghost var rest := buf[eol + 1..end];
      assert rest == b[eol - cur + 1..];
      buf[eol] := '\0';
      cur := eol + 1;
      assert buf[cur..end] == rest;
    }

    /** readline: the next line of the stream, whatever the reads deliver at a time. */
    method ReadLine() returns (line: Option<string>)
      requires Valid() && Plain(Stream()) && Bounded(Stream())
      modifies this, buf
      ensures Valid()
      ensures match NextLine(old(Stream()))
              case None => line == None
              case Some(n) => line == Some(n.0) && Stream() == n.1
    {
      hide Plain;
      hide Bounded;
      hide NextLine;
      hide Newline;
      ghost var s := Stream();
      var eol, pRead; ghost var lead;
      eol, pRead, lead := Resume(s);
      while eol < 0
        invariant Valid() && Seen(s, lead)
        invariant if eol < 0 then eol == -1 && Partial(lead) && pRead == end else Found(eol)
        decreases eol < 0, |Flatten(input)|
      {
        var eof;
        eof, eol, pRead, lead := Refill(pRead, s, lead);
        if eof {
          return None;
        }
      }
      var l := Take(eol, s, lead);
      line := Some(l);
    }

    /** The first branch of readline: data is left from the last read. */
    method SkipAndFind(ghost s: string) returns (eol: int, ghost lead: nat)
      requires Valid() && s == Stream() && Plain(s)
      modifies this`cur
      ensures Valid() && Seen(s, lead) && lead <= cur
      ensures if eol < 0 then eol == -1 && forall k :: cur <= k < end ==> !Newline(buf[k]) else Found(eol)
    {
      hide Plain;
      hide StartsWith;
      hide Newline;
      assert s[0..] == s;
      lead := SkipSeen(s, 0);
      PlainHere(s, lead, buf[cur..end], Flatten(input));
      eol := FindNextEol(cur);
    }
  }

  // ----- the same facts about the stream, buffer part `b` and unread part `f`

  lemma DropRun(s: string, lead: nat, b: string, f: string, n: nat)
    requires lead <= |s| && s[lead..] == b + f && n <= |b|
    requires forall i :: 0 <= i < lead ==> Newline(s[i])
    requires forall i :: 0 <= i < n ==> Newline(b[i])
    ensures lead + n <= |s| && s[lead + n..] == b[n..] + f
    ensures forall i :: 0 <= i < lead + n ==> Newline(s[i])
  {
    assert s[lead + n..] == s[lead..][n..];
    forall i | lead <= i < lead + n ensures Newline(s[i]) {
      assert s[i] == s[lead..][i - lead] == b[i - lead];
    }
  }

  lemma PrefixKept(b: string, f: string, prefix: string)
    ensures StartsWith(b, prefix) ==> StartsWith(b + f, prefix)
  {
    if StartsWith(b, prefix) {
      assert (b + f)[..|prefix|] == b[..|prefix|];
    }
  }

  /** The buffered data cannot be a prompt or a USSD answer. */
  lemma PlainHere(s: string, lead: nat, b: string, f: string)
    requires Plain(s) && lead <= |s| && s[lead..] == b + f
    requires forall i :: 0 <= i < lead ==> Newline(s[i])
    ensures b != "> " && !StartsWith(b, "+CUSD:")
  {
    assert b == "> " ==> StartsWith(b, "> ");
    if lead < |s| {
      assert lead == 0 || Newline(s[lead - 1]);
      PrefixKept(b, f, "> ");
      PrefixKept(b, f, "+CUSD:");
    } else {
      assert |b + f| == 0;
    }
  }

  lemma NotFull(s: string, lead: nat, b: string, f: string, cur: nat, end: nat)
    requires Bounded(s) && lead <= |s| && s[lead..] == b + f
    requires forall i :: 0 <= i < lead ==> Newline(s[i])
    requires cur <= lead && cur + |b| == end && forall i :: 0 <= i < |b| ==> !Newline(b[i])
    ensures end < MAX
  {
    hide Bounded;
    forall i | lead <= i < lead + |b| ensures !Newline(s[i]) {
      assert s[i] == s[lead..][i - lead] == b[i - lead];
    }
    BoundedRun(s, lead, |b|);
  }

  lemma AtEof(s: string, lead: nat, b: string)
    requires lead <= |s| && s[lead..] == b + ""
    requires forall i :: 0 <= i < lead ==> Newline(s[i])
    requires forall i :: 0 <= i < |b| ==> !Newline(b[i])
    ensures NextLine(s) == None
  {
    forall i | lead <= i < |s| ensures !Newline(s[i]) {
      assert s[i] == s[lead..][i - lead] == b[i - lead];
    }
    NoLine(s, lead);
  }

  lemma LineFound(s: string, lead: nat, b: string, f: string, e: nat)
    requires lead <= |s| && s[lead..] == b + f
    requires forall i :: 0 <= i < lead ==> Newline(s[i])
    requires 0 < e < |b| && Newline(b[e]) && forall i :: 0 <= i < e ==> !Newline(b[i])
    ensures NextLine(s) == Some((b[..e], b[e + 1..] + f))
  {
    var t := s[lead..];
    assert forall i :: 0 <= i <= e ==> s[lead + i] == t[i] == b[i];
    forall i | lead <= i < lead + e ensures !Newline(s[i]) {
      assert s[i] == b[i - lead];
    }
    NextLineIs(s, lead, e);
    assert s[lead..lead + e] == t[..e] == b[..e];
    assert s[lead + e + 1..] == t[e + 1..] == b[e + 1..] + f;
  }

  lemma SplitHead(head: string, max: nat, rest: seq<string>)
    requires max < |head| && NoNul(head)
    ensures Flatten([head] + rest) == head + Flatten(rest)
    ensures head + Flatten(rest) == head[..max] + Flatten([head[max..]] + rest)
    ensures Flatten([head[max..]] + rest) == head[max..] + Flatten(rest)
    ensures NoNul(head[..max]) && NoNul(head[max..])
  {
    assert ([head] + rest)[1..] == rest;
    assert ([head[max..]] + rest)[1..] == rest;
    assert head == head[..max] + head[max..];
  }

  // ----- all the lines

  lemma NextKeeps(s: string)
    requires Plain(s) && Bounded(s) && NextLine(s).Some?
    ensures Plain(NextLine(s).value.1) && Bounded(NextLine(s).value.1)
  {
    SkipNewlinesShape(s);
    var t := SkipNewlines(s);
    var k := |s| - |t| + EolIndex(t);
    assert Newline(s[k]) && t[EolIndex(t) + 1..] == s[k + 1..];
    hide Bounded;
    PlainSuffix(s, k + 1);
  }

  const SMS_UNSOLICITED := ["+CMT:", "+CDS:", "+CBM:", "+CDSI:", "^SMMEMFULL:", "^HCMT:", "^HCDS:",
                            "^HCMGSS:", "^HCMGSF:", "+CMGL:", "+CMGR:"]

  predicate IsSmsUnsolicited(line: string) {
    exists i :: 0 <= i < |SMS_UNSOLICITED| && StartsWith(line, SMS_UNSOLICITED[i])
  }

  /** What the reader hands on: single lines, and announcements with the line after. */
  datatype Event = Single(line: string) | Pair(line1: string, line2: string)

  function Dispatch(lines: seq<string>): seq<Event> {
    if lines == [] then []
    else if !IsSmsUnsolicited(lines[0]) then [Single(lines[0])] + Dispatch(lines[1..])
    else if |lines| == 1 then []
    else [Pair(lines[0], lines[1])] + Dispatch(lines[2..])
  }

  /** An announcement is a line that starts like this. */
  lemma SmsWords(line: string)
    ensures IsSmsUnsolicited(line) <==>
            StartsWith(line, "+CMT:") || StartsWith(line, "+CDS:") || StartsWith(line, "+CBM:") ||
            StartsWith(line, "+CDSI:") || StartsWith(line, "^SMMEMFULL:") || StartsWith(line, "^HCMT:") ||
            StartsWith(line, "^HCDS:") || StartsWith(line, "^HCMGSS:") || StartsWith(line, "^HCMGSF:") ||
            StartsWith(line, "+CMGL:") || StartsWith(line, "+CMGR:")
  {
    hide StartsWith;
    assert SMS_UNSOLICITED[0] == "+CMT:" && SMS_UNSOLICITED[1] == "+CDS:" && SMS_UNSOLICITED[2] == "+CBM:";
    assert SMS_UNSOLICITED[3] == "+CDSI:" && SMS_UNSOLICITED[4] == "^SMMEMFULL:" && SMS_UNSOLICITED[5] == "^HCMT:";
    assert SMS_UNSOLICITED[6] == "^HCDS:" && SMS_UNSOLICITED[7] == "^HCMGSS:" && SMS_UNSOLICITED[8] == "^HCMGSF:";
    assert SMS_UNSOLICITED[9] == "+CMGL:" && SMS_UNSOLICITED[10] == "+CMGR:";
  }

  function LinesOf(e: Event): seq<string> {
    match e
    case Single(a) => [a]
    case Pair(a, b) => [a, b]
  }

  /** The lines of the events, one event after the other. */
  function Spread(events: seq<Event>): seq<string> {
    if events == [] then [] else LinesOf(events[0]) + Spread(events[1..])
  }

  /** No line is lost, doubled or moved: the events hold the lines in order, each
      announcement with the line after it and every other line by itself; only an
      announcement at the very end, whose second line never came, is dropped. */
  lemma {:induction false} DispatchKeeps(lines: seq<string>)
    ensures var events := Dispatch(lines);
            && (Spread(events) == lines ||
                (lines != [] && Spread(events) == lines[..|lines| - 1] && IsSmsUnsolicited(lines[|lines| - 1])))
            && forall e :: e in events ==> (e.Pair? <==> IsSmsUnsolicited(LinesOf(e)[0]))
    decreases |lines|
  {
    hide IsSmsUnsolicited;
    if lines != [] {
      var events := Dispatch(lines);
      if !IsSmsUnsolicited(lines[0]) {
        DispatchKeeps(lines[1..]);
        assert events == [Single(lines[0])] + Dispatch(lines[1..]);
        assert events[1..] == Dispatch(lines[1..]);
        assert lines == [lines[0]] + lines[1..];
      } else if |lines| > 1 {
        DispatchKeeps(lines[2..]);
        assert events == [Pair(lines[0], lines[1])] + Dispatch(lines[2..]);
        assert events[1..] == Dispatch(lines[2..]);
        assert lines == [lines[0], lines[1]] + lines[2..];
      }
    }
  }

  lemma LinesStep(s: string)
    ensures Lines(s) == match NextLine(s) case None => [] case Some(n) => [n.0] + Lines(n.1)
  {
  }

  lemma OneMore(events: seq<Event>, e: Event, rest: seq<Event>)
    ensures events + ([e] + rest) == events + [e] + rest
  {
  }

  /** readerLoop until end of file: the events depend on the bytes, not on how the
      reads split them. */
  method ReaderLoop(chunks: seq<string>) returns (events: seq<Event>)
    requires forall c :: c in chunks ==> c != "" && NoNul(c)
    requires Plain(Flatten(chunks)) && Bounded(Flatten(chunks))
    ensures events == Dispatch(Lines(Flatten(chunks)))
  {
    hide Plain;
    hide Bounded;
    hide NextLine;
    hide Lines;
    hide IsSmsUnsolicited;
    var reader := new LineReader(chunks);
    ghost var all := Dispatch(Lines(Flatten(chunks)));
    events := [];
    assert events + all == all;
    while true
      invariant fresh(reader) && fresh(reader.buf) && reader.Valid()
      invariant Plain(reader.Stream()) && Bounded(reader.Stream())
      invariant events + Dispatch(Lines(reader.Stream())) == all
      decreases |reader.Stream()|
    {
      ghost var s := reader.Stream();
      LinesStep(s);
      if NextLine(s).Some? { NextKeeps(s); }
      var line := reader.ReadLine();
      if line == None {
        assert events + [] == events;
        break;
      }
      ghost var s1 := reader.Stream();
      ghost var ls := Lines(s);
      assert ls[1..] == Lines(s1);
      if IsSmsUnsolicited(line.value) {
        LinesStep(s1);
        if NextLine(s1).Some? { NextKeeps(s1); }
        var line2 := reader.ReadLine();
        if line2 == None {
          assert events + [] == events;
          break;
        }
        ghost var s2 := reader.Stream();
        assert ls[2..] == Lines(s2);
        OneMore(events, Pair(line.value, line2.value), Dispatch(Lines(s2)));
        events := events + [Pair(line.value, line2.value)];
      } else {
        OneMore(events, Single(line.value), Dispatch(Lines(s1)));
        events := events + [Single(line.value)];
      }
    }
  }
}
