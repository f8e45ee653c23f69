/** The tokenizer of at_tok.c, which cuts a response line in place. */
module AtTok {
  import opened Basics

  const NUL: char := '\0'

  // ----- the C library's part

  predicate IsSpace(c: char) {
    c == ' ' || '\t' <= c <= '\r'
  }

  /** The first `c` in `r`, or the end. */
  function Cut(r: string, c: char): (k: nat)
    ensures k <= |r|
  {
    if r == [] || r[0] == c then 0 else 1 + Cut(r[1..], c)
  }

  function SkipSpace(r: string): string {
    if r != [] && IsSpace(r[0]) then SkipSpace(r[1..]) else r
  }

  function DigitVal(c: char): (v: int)
    ensures -1 <= v < 16
  {
    if '0' <= c <= '9' then c as int - '0' as int
    else if 'a' <= c <= 'f' then c as int - 'a' as int + 10
    else if 'A' <= c <= 'F' then c as int - 'A' as int + 10
    else -1
  }

  predicate IsDigit(c: char, base: nat) {
    0 <= DigitVal(c) < base
  }

  /** The leading digits of `r`. */
  function Digits(r: string, base: nat): string {
    if r != [] && IsDigit(r[0], base) then [r[0]] + Digits(r[1..], base) else []
  }

  function Val(d: string, base: nat): int {
    if d == [] then 0 else Val(d[..|d| - 1], base) * base + DigitVal(d[|d| - 1])
  }

  const MIN32: int := -0x8000_0000
  const MAX32: int := 0x7FFF_FFFF
  const ALL32: int := 0x1_0000_0000

  /** Conversion of a 32-bit unsigned value to int. */
  function Wrap(v: int): int {
    if v % ALL32 > MAX32 then v % ALL32 - ALL32 else v % ALL32
  }

  /** strtol, or strtoul when `uns`, with 32-bit long; None when no digit was found. */
  function Number(token: string, base: nat, uns: bool): Option<int> {
    var t := SkipSpace(token);
    var neg := t != [] && t[0] == '-';
    var u := if t != [] && (t[0] == '-' || t[0] == '+') then t[1..] else t;
    var hex := base == 16 && |u| > 2 && u[0] == '0' && (u[1] == 'x' || u[1] == 'X') && IsDigit(u[2], 16);
    var d := Digits(if hex then u[2..] else u, base);
    if d == [] then None
    else
      var v := Val(d, base);
      if uns then Some(Wrap(if v >= ALL32 then ALL32 - 1 else if neg then -v else v))
      else if neg then Some(if -v < MIN32 then MIN32 else -v)
      else Some(if v > MAX32 then MAX32 else v)
  }

  // ----- one token

  function AfterComma(r: string): string {
    var j := Cut(r, ',');
    if j == |r| then [] else r[j + 1..]
  }

  /** strsep. */
  function Separate(r: string, c: char): (string, Option<string>) {
    var k := Cut(r, c);
    if k == |r| then (r, None) else (r[..k], Some(r[k + 1..]))
  }

  function QuotedNext(q: string): (string, Option<string>) {
    var (token, rest) := Separate(q, '"');
    (token, if rest.None? then None else Some(AfterComma(rest.value)))
  }

  predicate Quote(t: string) {
    t != [] && t[0] == '"'
  }

  /** nextTok on the text at the cursor: the token, and the text then at the cursor. */
  function Next(r: string): (string, Option<string>) {
    var t := SkipSpace(r);
    if Quote(t) then QuotedNext(t[1..]) else Separate(t, ',')
  }

  /** The C string at `i`. */
  function TextAt(s: seq<char>, i: nat): string
    requires i <= |s|
    decreases |s| - i
  {
    if i == |s| || s[i] == NUL then [] else [s[i]] + TextAt(s, i + 1)
  }

  lemma TextNext(s: seq<char>, i: nat)
    requires i <= |s|
    ensures if i == |s| || s[i] == NUL then TextAt(s, i) == [] else TextAt(s, i) == [s[i]] + TextAt(s, i + 1)
  {
  }

  lemma {:induction false} TextSlice(s: seq<char>, i: nat)
    requires i <= |s|
    ensures var n := |TextAt(s, i)|;
            && i + n <= |s| && TextAt(s, i) == s[i..i + n] && NUL !in TextAt(s, i)
            && (i + n < |s| ==> s[i + n] == NUL)
    decreases |s| - i
  {
    hide TextAt;
    TextNext(s, i);
    if i < |s| && s[i] != NUL {
      TextSlice(s, i + 1);
      var n := |TextAt(s, i + 1)|;
      assert s[i..i + 1 + n] == [s[i]] + s[i + 1..i + 1 + n];
    }
  }

  lemma TextBound(s: seq<char>, i: nat)
    requires i <= |s|
    ensures i + |TextAt(s, i)| <= |s|
    ensures forall k :: 0 <= k < |TextAt(s, i)| ==> TextAt(s, i)[k] == s[i + k] != NUL
    ensures i + |TextAt(s, i)| < |s| ==> s[i + |TextAt(s, i)|] == NUL
    ensures i < |s| && s[|s| - 1] == NUL ==> i + |TextAt(s, i)| < |s|
  {
    hide TextAt;
    TextSlice(s, i);
    var t := TextAt(s, i);
    forall k | 0 <= k < |t| ensures t[k] == s[i + k] != NUL {
      assert t[k] in t;
    }
    assert |t| > 0 ==> t[|t| - 1] == s[i + |t| - 1];
  }

  /** A text is what lies between its start and the next NUL. */
  lemma {:induction false} SliceIs(s: seq<char>, i: nat, n: nat)
    requires i + n < |s| && s[i + n] == NUL && NUL !in s[i..i + n]
    ensures TextAt(s, i) == s[i..i + n]
    decreases n
  {
    hide TextAt;
    TextNext(s, i);
    if n > 0 {
      var m := n - 1;
      assert s[i..i + n] == [s[i]] + s[i + 1..i + 1 + m];
      SliceIs(s, i + 1, m);
    }
  }

  lemma SubSlice(s: seq<char>, i: nat, n: nat, m: nat)
    requires n <= m && i + m <= |s|
    ensures s[i..i + m][..n] == s[i..i + n] && s[i..i + m][n..] == s[i + n..i + m]
    ensures NUL !in s[i..i + m] ==> NUL !in s[i..i + n] && NUL !in s[i + n..i + m]
  {
    var t := s[i..i + m];
    assert t == t[..n] + t[n..];
    assert t[..n] == s[i..i + n] && t[n..] == s[i + n..i + m];
  }

  lemma TextSuffix(s: seq<char>, i: nat, n: nat)
    requires i < |s| && s[|s| - 1] == NUL && n <= |TextAt(s, i)|
    ensures i + n < |s| && TextAt(s, i + n) == TextAt(s, i)[n..]
  {
    hide TextAt;
    TextBound(s, i);
    TextSlice(s, i);
    var m := |TextAt(s, i)|;
    SubSlice(s, i, n, m);
    SliceIs(s, i + n, m - n);
  }

  /** Writing the NUL at the end of a token, or anywhere else outside a text. */
  lemma TextCut(s: seq<char>, i: nat, n: nat)
    requires i < |s| && s[|s| - 1] == NUL && n < |TextAt(s, i)|
    ensures i + n + 1 < |s|
    ensures TextAt(s[i + n := NUL], i) == TextAt(s, i)[..n]
    ensures TextAt(s[i + n := NUL], i + n + 1) == TextAt(s, i)[n + 1..]
  {
    hide TextAt;
    TextBound(s, i);
    TextSlice(s, i);
    var s' := s[i + n := NUL];
    SubSlice(s, i, n, |TextAt(s, i)|);
    assert s'[i..i + n] == s[i..i + n];
    SliceIs(s', i, n);
    TextSuffix(s, i, n + 1);
    TextSurvives(s, s', i + n + 1);
  }

  lemma TextSurvives(s: seq<char>, s': seq<char>, i: nat)
    requires |s| == |s'| && i < |s| && s[|s| - 1] == NUL
    requires forall k :: i <= k <= i + |TextAt(s, i)| && k < |s| ==> s'[k] == s[k]
    ensures TextAt(s', i) == TextAt(s, i)
  {
    hide TextAt;
    TextBound(s, i);
    TextSlice(s, i);
    var n := |TextAt(s, i)|;
    assert s'[i..i + n] == s[i..i + n];
    SliceIs(s', i, n);
  }

  lemma {:induction false} CutAfter(x: string, y: string, c: char)
    requires c !in x && (y == [] || y[0] == c)
    ensures Cut(x + y, c) == |x|
  {
    if x == [] {
      assert x + y == y;
    } else {
      CutAfter(x[1..], y, c);
      assert (x + y)[1..] == x[1..] + y;
    }
  }

  lemma {:induction false} SkipAfter(x: string, y: string)
    requires (forall k :: 0 <= k < |x| ==> IsSpace(x[k])) && (y == [] || !IsSpace(y[0]))
    ensures SkipSpace(x + y) == y
  {
    if x == [] {
      assert x + y == y;
    } else {
      assert IsSpace(x[0]);
      SkipAfter(x[1..], y);
      assert (x + y)[1..] == x[1..] + y;
    }
  }

  class Tokenizer {
    var line: array<char>
    /** None is the NULL pointer. */
    var cur: Option<nat>

    ghost predicate Valid()
      reads this, line
    {
      line.Length > 0 && line[line.Length - 1] == NUL && (cur.Some? ==> cur.value < line.Length)
    }

    /** The text at the cursor. */
    ghost function Rest(): Option<string>
      requires Valid()
      reads this, line
    {
      if cur.None? then None else Some(TextAt(line[..], cur.value))
    }

    constructor (l: array<char>)
      requires l.Length > 0 && l[l.Length - 1] == NUL
      ensures Valid() && line == l && cur == Some(0)
    {
      line := l;
      cur := Some(0);
    }

    /** The scanning loops: from `i` to the first `c` or the end. */
    method Find(i: nat, c: char) returns (p: nat)
      requires Valid() && i < line.Length && c != NUL
      ensures i <= p < line.Length && p == i + Cut(TextAt(line[..], i), c)
      ensures line[p] == c <==> p < i + |TextAt(line[..], i)|
      ensures line[p] == c || line[p] == NUL
    {
      hide TextAt, Cut;
      ghost var r := TextAt(line[..], i);
      TextBound(line[..], i);
      p := i;
      while line[p] != NUL && line[p] != c
        invariant i <= p <= i + |r|
        invariant c !in r[..p - i]
        decreases line.Length - p
      {
        assert r[..p - i + 1] == r[..p - i] + [r[p - i]];
        p := p + 1;
      }
      assert r == r[..p - i] + r[p - i..];
      CutAfter(r[..p - i], r[p - i..], c);
    }

    method Start() returns (ok: bool)
      requires Valid()
      modifies this`cur
      ensures Valid()
      ensures old(Rest()) == None ==> !ok && cur == None
      ensures old(Rest()).Some? ==>
                var r := old(Rest()).value;
                ok == (Cut(r, ':') < |r|) && Rest() == if ok then Some(r[Cut(r, ':') + 1..]) else None
      ensures ok ==> cur.value > old(cur).value
    {
      if cur.None? {
        return false;
      }
      var p := Find(cur.value, ':');
      if line[p] == NUL {
        cur := None;
        return false;
      }
      TextSuffix(line[..], cur.value, p + 1 - cur.value);
      cur := Some(p + 1);
      return true;
    }

    method SkipWhiteSpace()
      requires Valid()
      modifies this`cur
      ensures Valid()
      ensures old(Rest()) == None ==> cur == None
      ensures old(Rest()).Some? ==> cur.Some? && cur.value >= old(cur).value && Rest() == Some(SkipSpace(old(Rest()).value))
    {
      hide TextAt, SkipSpace;
      if cur.None? {
        return;
      }
      var p := cur.value;
      ghost var r := TextAt(line[..], p);
      TextBound(line[..], p);
      while line[p] != NUL && IsSpace(line[p])
        invariant cur.value <= p <= cur.value + |r|
        invariant forall k :: 0 <= k < p - cur.value ==> IsSpace(r[k])
        decreases line.Length - p
      {
        p := p + 1;
      }
      ghost var n := p - cur.value;
      assert r == r[..n] + r[n..];
      SkipAfter(r[..n], r[n..]);
      TextSuffix(line[..], cur.value, n);
      cur := Some(p);
    }

    method SkipNextComma()
      requires Valid()
      modifies this`cur
      ensures Valid()
      ensures old(Rest()) == None ==> cur == None
      ensures old(Rest()).Some? ==>
                var r := old(Rest()).value;
                cur.Some? && cur.value >= old(cur).value && Rest() == Some(AfterComma(r))
    {
      if cur.None? {
        return;
      }
      var p := Find(cur.value, ',');
      if line[p] == ',' {
        TextSuffix(line[..], cur.value, p + 1 - cur.value);
        cur := Some(p + 1);
      } else {
        cur := Some(p);
      }
    }

    /** strsep: the delimiter becomes the end of the token. */
    method StrSep(c: char) returns (t: nat)
      requires Valid() && cur.Some? && c != NUL
      modifies this`cur, line
      ensures Valid() && line == old(line) && t == old(cur).value
      ensures (TextAt(line[..], t), Rest()) == Separate(old(Rest()).value, c)
      ensures t + |TextAt(line[..], t)| < (if cur.Some? then cur.value else line.Length)
      ensures forall i :: 0 <= i < t ==> line[i] == old(line[i])
    {
      t := cur.value;
      TextBound(line[..], t);
      var p := Find(t, c);
      if line[p] == NUL {
        cur := None;
      } else {
        TextCut(line[..], t, p - t);
        ghost var s := line[..];
        line[p] := NUL;
        assert line[..] == s[p := NUL];
        cur := Some(p + 1);
      }
    }

    method NextTok() returns (tok: Option<nat>)
      requires Valid()
      modifies this`cur, line
      ensures Valid() && line == old(line)
      ensures old(cur).None? ==> tok == None && cur == None && line[..] == old(line[..])
      ensures old(cur).Some? ==> (tok.Some? && old(cur).value <= tok.value < line.Length &&
                (TextAt(line[..], tok.value), Rest()) == Next(old(Rest()).value))
      ensures old(cur).Some? ==> tok.value + |TextAt(line[..], tok.value)| < (if cur.Some? then cur.value else line.Length)
      ensures old(cur).Some? ==> forall i :: 0 <= i < old(cur).value ==> line[i] == old(line[i])
    {
      hide TextAt, Cut, SkipSpace, Separate, AfterComma;
      SkipWhiteSpace();
      if cur.None? {
        return None;
      }
      TextBound(line[..], cur.value);
      if line[cur.value] == '"' {
        TextSuffix(line[..], cur.value, 1);
        cur := Some(cur.value + 1);
        var t := StrSep('"');
        SkipNextComma();
        tok := Some(t);
      } else {
        var t := StrSep(',');
        tok := Some(t);
      }
    }

    /** at_tok_nextint_base: the out value is stored even when no digit was found. */
    method NextIntBase(base: nat, uns: bool) returns (ok: bool, out: int)
      requires Valid()
      modifies this`cur, line
      ensures Valid() && line == old(line)
      ensures old(cur).None? ==> !ok && cur == None && line[..] == old(line[..])
      ensures old(cur).Some? ==>
                var (token, rest) := Next(old(Rest()).value);
                Rest() == rest && ok == Number(token, base, uns).Some? && (ok ==> out == Number(token, base, uns).value)
      ensures old(cur).Some? && cur.Some? ==> cur.value >= old(cur).value
      ensures old(cur).Some? ==> forall i :: 0 <= i < old(cur).value ==> line[i] == old(line[i])
    {
      if cur.None? {
        return false, 0;
      }
      var tok := NextTok();
      ghost var token := TextAt(line[..], tok.value);
      var l := StrToL(tok.value, base, uns);
      match l {
        case Some(v) => return true, v;
        case None => return false, 0;
      }
    }

    /** The library's conversion, applied to the text at `t`. */
    method StrToL(t: nat, base: nat, uns: bool) returns (v: Option<int>)
      requires Valid() && t < line.Length
      ensures v == Number(TextAt(line[..], t), base, uns)
    {
      v := Number(TextAt(line[..], t), base, uns);
    }

    method NextStr() returns (ok: bool, out: Option<nat>)
      requires Valid()
      modifies this`cur, line
      ensures Valid() && line == old(line)
      ensures ok == old(cur).Some?
      ensures !ok ==> cur == None && line[..] == old(line[..])
      ensures ok ==> (out.Some? && old(cur).value <= out.value < line.Length &&
                (TextAt(line[..], out.value), Rest()) == Next(old(Rest()).value))
      ensures ok ==> out.value + |TextAt(line[..], out.value)| < (if cur.Some? then cur.value else line.Length)
      ensures ok ==> forall i :: 0 <= i < old(cur).value ==> line[i] == old(line[i])
    {
      if cur.None? {
        return false, None;
      }
      out := NextTok();
      return true, out;
    }

    method HasMore() returns (more: bool)
      requires Valid()
      ensures more <==> Rest().Some? && Rest().value != []
    {
      return !(cur.None? || line[cur.value] == NUL);
    }
  }

  // ----- printed lines

  datatype Body = Int(v: int) | Hex(n: nat) | Quoted(s: string) | Bare(s: string)

  /** A field, with white space in front. */
  datatype Field = Field(pad: string, body: Body)

  function DigitChar(v: nat): (c: char)
    requires v < 16
    ensures DigitVal(c) == v && !IsSpace(c) && c != NUL && c != ',' && c != '"' && c != '-' && c != '+'
  {
    if v < 10 then ('0' as int + v) as char else ('A' as int + v - 10) as char
  }

  function PrintNat(v: nat, base: nat): (s: string)
    requires 2 <= base <= 16
    ensures s != []
  {
    if v < base then [DigitChar(v)] else PrintNat(v / base, base) + [DigitChar(v % base)]
  }

  function Shown(b: Body): string {
    match b
    case Int(v) => if v < 0 then "-" + PrintNat(-v, 10) else PrintNat(v, 10)
    case Hex(n) => PrintNat(n, 16)
    case Quoted(s) => "\"" + s + "\""
    case Bare(s) => s
  }

  predicate Printable(b: Body) {
    match b
    case Int(_) => true
    case Hex(_) => true
    case Quoted(s) => '"' !in s && NUL !in s
    case Bare(s) => s != [] && ',' !in s && NUL !in s && !IsSpace(s[0]) && s[0] != '"'
  }

  ghost predicate WellFormed(f: Field) {
    Printable(f.body) && forall k :: 0 <= k < |f.pad| ==> IsSpace(f.pad[k])
  }

  function FieldText(f: Field): string {
    f.pad + Shown(f.body)
  }

  function Joined(fs: seq<Field>): string
    requires fs != []
  {
    FieldText(fs[0]) + if |fs| == 1 then [] else "," + Joined(fs[1..])
  }

  /** The token that a field is read as. */
  function TokenOf(b: Body): string {
    if b.Quoted? then b.s else Shown(b)
  }

  lemma ValNext(s: string, c: char, base: nat)
    ensures Val(s + [c], base) == Val(s, base) * base + DigitVal(c)
  {
    assert (s + [c])[..|s|] == s;
  }

  lemma DivMod(v: nat, base: nat)
    requires 2 <= base <= v
    ensures v == (v / base) * base + v % base && v / base < v
  {
  }

  lemma PrintNatNext(v: nat, base: nat)
    requires 2 <= base <= 16 && v >= base
    ensures PrintNat(v, base) == PrintNat(v / base, base) + [DigitChar(v % base)]
  {
  }

  lemma {:induction false} PrintNatDigits(v: nat, base: nat)
    requires 2 <= base <= 16
    ensures AllDigits(PrintNat(v, base), base)
    ensures Val(PrintNat(v, base), base) == v
  {
    hide Val, DigitVal, PrintNat;
    if v >= base {
      DivMod(v, base);
      PrintNatNext(v, base);
      var q, r := v / base, v % base;
      PrintNatDigits(q, base);
      ValNext(PrintNat(q, base), DigitChar(r), base);
    } else {
      OneDigit(v, base);
    }
  }

  lemma OneDigit(v: nat, base: nat)
    requires v < base <= 16 && base >= 2
    ensures PrintNat(v, base) == [DigitChar(v)] && Val([DigitChar(v)], base) == v
  {
    ValNext([], DigitChar(v), base);
    assert [] + [DigitChar(v)] == [DigitChar(v)];
    ValNone(base);
  }

  lemma ValNone(base: nat)
    ensures Val([], base) * base == 0
  {
  }

  ghost predicate AllDigits(s: string, base: nat) {
    forall k :: 0 <= k < |s| ==> IsDigit(s[k], base)
  }

  lemma {:induction false} DigitsAll(s: string, base: nat)
    requires AllDigits(s, base)
    ensures Digits(s, base) == s
  {
    if s != [] { DigitsAll(s[1..], base); }
  }

  lemma NumberOfDigits(s: string)
    requires s != [] && AllDigits(s, 10)
    ensures var v := Val(s, 10);
            Number(s, 10, false) == Some(if v > MAX32 then MAX32 else v) &&
            Number("-" + s, 10, false) == Some(if -v < MIN32 then MIN32 else -v)
  {
    hide Val;
    DigitsAll(s, 10);
    assert IsDigit(s[0], 10);
    assert ("-" + s)[1..] == s;
  }

  /** An integer is read back exactly when it fits 32 bits. */
  lemma IntBackIff(v: int)
    ensures Number(Shown(Int(v)), 10, false) == Some(v) <==> MIN32 <= v <= MAX32
    ensures Number(Shown(Int(v)), 10, false) == Some(if v < MIN32 then MIN32 else if v > MAX32 then MAX32 else v)
  {
    hide Val, Number, PrintNat;
    var n := if v < 0 then -v else v;
    PrintNatDigits(n, 10);
    NumberOfDigits(PrintNat(n, 10));
  }

  lemma HexBack(n: nat)
    ensures Number(Shown(Hex(n)), 16, true) == Some(if n < ALL32 then Wrap(n) else -1)
  {
    hide PrintNat, Val;
    var s := PrintNat(n, 16);
    PrintNatDigits(n, 16);
    DigitsAll(s, 16);
    assert |s| > 2 ==> IsDigit(s[1], 16);
    assert IsDigit(s[0], 16);
  }

  lemma ShownShape(b: Body)
    requires Printable(b)
    ensures var s := Shown(b);
            s != [] && !IsSpace(s[0]) && (!b.Quoted? ==> s[0] != '"' && ',' !in s) && NUL !in s
  {
    match b
    case Int(v) => NoComma(if v < 0 then -v else v, 10);
    case Hex(n) => NoComma(n, 16);
    case Quoted(s) =>
    case Bare(s) =>
  }

  lemma {:induction false} NoComma(v: nat, base: nat)
    requires 2 <= base <= 16
    ensures var s := PrintNat(v, base); ',' !in s && NUL !in s && !IsSpace(s[0]) && s[0] != '"'
  {
    if v >= base {
      NoComma(v / base, base);
      var s := PrintNat(v / base, base);
      assert PrintNat(v, base)[0] == s[0];
    }
  }

  function Tail(b: Body, tail: string): Option<string> {
    if tail != [] then Some(tail[1..]) else if b.Quoted? then Some([]) else None
  }

  /** Reading one printed field. */
  lemma NextField(f: Field, tail: string)
    requires WellFormed(f) && (tail == [] || tail[0] == ',')
    ensures Next(FieldText(f) + tail) == (TokenOf(f.body), Tail(f.body, tail))
  {
    hide Cut, SkipSpace, Shown;
    var s := Shown(f.body);
    ShownShape(f.body);
    assert FieldText(f) + tail == f.pad + (s + tail);
    SkipAfter(f.pad, s + tail);
    if f.body.Quoted? {
      NextQuoted(f.body.s, tail);
    } else {
      CutAfter(s, tail, ',');
      assert (s + tail)[..|s|] == s;
      assert tail != [] ==> (s + tail)[|s| + 1..] == tail[1..];
      assert tail == [] ==> s + tail == s;
    }
  }

  lemma NextQuoted(x: string, tail: string)
    requires '"' !in x && (tail == [] || tail[0] == ',')
    ensures var t := Shown(Quoted(x)) + tail;
            t[0] == '"' && QuotedNext(t[1..]) == (x, Tail(Quoted(x), tail))
  {
    hide Cut;
    var t := Shown(Quoted(x)) + tail;
    assert t[1..] == x + ("\"" + tail);
    CutAfter(x, "\"" + tail, '"');
    assert (x + ("\"" + tail))[|x| + 1..] == tail;
    assert (x + ("\"" + tail))[..|x|] == x;
    CutAfter([], tail, ',');
    assert [] + tail == tail;
  }

  ghost predicate AllWellFormed(fs: seq<Field>) {
    forall k :: 0 <= k < |fs| ==> WellFormed(fs[k])
  }

  /** Reading the first of several printed fields; more remain exactly when there is
      another field. */
  lemma NextOfJoined(fs: seq<Field>)
    requires fs != [] && AllWellFormed(fs)
    ensures var (token, rest) := Next(Joined(fs));
            token == TokenOf(fs[0].body) &&
            (if |fs| == 1 then rest == None || rest == Some([]) else rest == Some(Joined(fs[1..])) && rest.value != [])
  {
    hide Next, Shown;
    if |fs| == 1 {
      NextField(fs[0], []);
    } else {
      NextField(fs[0], "," + Joined(fs[1..]));
      ShownShape(fs[1].body);
    }
  }

  // ----- reading a whole line

  datatype Value = Num(n: int) | At(pos: nat)

  /** The value read for a field: an int, or a pointer to the field's text. */
  ghost predicate Reads(b: Body, v: Value, line: seq<char>)
    requires |line| > 0
  {
    match b
    case Int(n) => v == Num(n)
    case Hex(n) => v == Num(Wrap(n))
    case _ => v.At? && v.pos < |line| && TextAt(line, v.pos) == b.s
  }

  predicate InRange(b: Body) {
    (b.Int? ==> MIN32 <= b.v <= MAX32) && (b.Hex? ==> b.n < ALL32)
  }

  /** What a token read earlier needs to survive: it ends before the cursor. */
  ghost predicate Behind(v: Value, line: seq<char>, limit: nat) {
    v.At? ==> v.pos < |line| && v.pos + |TextAt(line, v.pos)| < limit
  }

  lemma SurvivesCut(b: Body, v: Value, s: seq<char>, s': seq<char>, limit: nat, limit': nat)
    requires |s| == |s'| > 0 && s[|s| - 1] == NUL && limit <= limit'
    requires Reads(b, v, s) && Behind(v, s, limit) && forall i :: 0 <= i < limit && i < |s| ==> s'[i] == s[i]
    ensures Reads(b, v, s') && Behind(v, s', limit')
  {
    if v.At? { TextSurvives(s, s', v.pos); }
  }

  lemma StartOf(prefix: string, rest: string)
    requires ':' !in prefix
    ensures var r := prefix + ":" + rest; Cut(r, ':') == |prefix| < |r| && r[|prefix| + 1..] == rest
  {
    assert prefix + ":" + rest == prefix + (":" + rest);
    CutAfter(prefix, ":" + rest, ':');
  }

  /** One field of the line, by the reader that fits it. */
  method ReadField(tok: Tokenizer, fs: seq<Field>) returns (v: Value)
    requires tok.Valid() && fs != [] && AllWellFormed(fs) && InRange(fs[0].body)
    requires tok.Rest() == Some(Joined(fs))
    modifies tok, tok.line
    ensures tok.Valid() && tok.line == old(tok.line)
    ensures Reads(fs[0].body, v, tok.line[..]) && Behind(v, tok.line[..], Limit(tok))
    ensures if |fs| == 1 then tok.Rest() == None || tok.Rest() == Some([])
            else tok.Rest() == Some(Joined(fs[1..])) && tok.Rest().value != []
    ensures old(Limit(tok)) <= Limit(tok)
    ensures forall i :: 0 <= i < old(Limit(tok)) && i < tok.line.Length ==> tok.line[i] == old(tok.line[i])
  {
    hide Next, Joined, PrintNat, TextAt, Cut, Number, Wrap;
    NextOfJoined(fs);
    match fs[0].body {
      case Int(n) =>
        IntBackIff(n);
        var ok, x := tok.NextIntBase(10, false);
        v := Num(x);
      case Hex(n) =>
        HexBack(n);
        var ok, x := tok.NextIntBase(16, true);
        v := Num(x);
      case _ =>
        var ok, p := tok.NextStr();
        v := At(p.value);
    }
  }

  /** A client of the tokenizer: it starts the line and reads one field after the other.
      `more` records what at_tok_hasmore said after each. */
  method ReadLine(tok: Tokenizer, prefix: string, fs: seq<Field>) returns (vs: seq<Value>, more: seq<bool>)
    requires tok.Valid() && fs != [] && AllWellFormed(fs) && ':' !in prefix
    requires forall k :: 0 <= k < |fs| ==> InRange(fs[k].body)
    requires tok.Rest() == Some(prefix + ":" + Joined(fs))
    modifies tok, tok.line
    ensures tok.Valid() && tok.line == old(tok.line) && |vs| == |more| == |fs|
    ensures forall k :: 0 <= k < |fs| ==> Reads(fs[k].body, vs[k], tok.line[..])
    ensures forall k :: 0 <= k < |fs| ==> more[k] == (k + 1 < |fs|)
  {
    hide Next, Joined, Shown, TextAt, Cut, Number, Wrap, TokenOf;
    StartOf(prefix, Joined(fs));
    var ok := tok.Start();
    vs, more := [], [];
    while |vs| < |fs|
      invariant tok.Valid() && tok.line == old(tok.line)
      invariant |vs| == |more| <= |fs|
      invariant |vs| < |fs| ==> tok.Rest() == Some(Joined(fs[|vs|..]))
      invariant forall k :: 0 <= k < |vs| ==> Reads(fs[k].body, vs[k], tok.line[..]) && Behind(vs[k], tok.line[..], Limit(tok))
      invariant forall k :: 0 <= k < |vs| ==> more[k] == (k + 1 < |fs|)
    {
      var n := |vs|;
      ghost var s, limit := tok.line[..], Limit(tok);
      var v := ReadField(tok, fs[n..]);
      assert fs[n..][1..] == fs[n + 1..];
      forall k | 0 <= k < n ensures Reads(fs[k].body, vs[k], tok.line[..]) && Behind(vs[k], tok.line[..], Limit(tok)) {
        SurvivesCut(fs[k].body, vs[k], s, tok.line[..], limit, Limit(tok));
      }
      var m := tok.HasMore();
      vs, more := vs + [v], more + [m];
    }
  }

  ghost function Limit(tok: Tokenizer): nat
    reads tok, tok.line
  {
    if tok.cur.Some? then tok.cur.value else tok.line.Length
  }

  /** The first integer that does not fit. */
  lemma TooBigSaturates()
    ensures Number(Shown(Int(0x8000_0000)), 10, false) == Some(0x7FFF_FFFF)
  {
    hide Number, Shown;
    IntBackIff(0x8000_0000);
  }
}
