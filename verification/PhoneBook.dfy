/** The phone-book record of sxx-ril-phonebook.c: 28 characters of name, two of number
    length, two of type code and 24 of number, on top of the bit buffer. */
module PhoneBook {
  import opened Basics
  import opened Bits
  import opened Septets
  import opened BitStream

  const ZERO: byte := '0' as int
  const TWO: byte := '2' as int
  const THREE: byte := '3' as int
  const EIGHT: byte := '8' as int
  const PLUS: byte := '+' as int
  const F: byte := 'F' as int
  const SMALLF: byte := 'f' as int

  // ----- what is written

  predicate IsPair(s: seq<byte>, i: nat, a: byte, b: byte) {
    i + 1 < |s| && s[i] == a && s[i + 1] == b
  }

  /** Only blanks, in whole UCS2 units. */
  predicate Blank(alpha: text) {
    forall k :: 0 <= k < |alpha| / 4 ==> BlankUnit(alpha, k)
  }

  predicate BlankUnit(alpha: text, k: nat) {
    IsPair(alpha, 4 * k, ZERO, ZERO) && IsPair(alpha, 4 * k + 2, TWO, ZERO)
  }

  function Upto(s: text, n: nat): text {
    if n <= |s| then s[..n] else s
  }

  function From(s: text, n: nat): (r: text)
    ensures |r| == if n <= |s| then |s| - n else 0
  {
    if n <= |s| then s[n..] else []
  }

  /** The low byte of every unit. */
  function Trimmed(alpha: text): text
    decreases |alpha|
  {
    if alpha == [] then [] else Upto(From(alpha, 2), 2) + Trimmed(From(alpha, 4))
  }

  /** What retrive_alpha makes of the name. */
  function AlphaText(alpha: text, force: bool): text {
    if force then alpha
    else if IsPair(alpha, 0, ZERO, ZERO) then Trimmed(alpha)
    else [EIGHT, ZERO] + alpha
  }

  predicate IsDigit(c: byte) {
    ZERO <= c <= '9' as int
  }

  /** copy_number_to_alpha: a character that is no digit costs two counts. */
  function Copied(number: text, i: nat, src: nat, len: nat): text
    requires src <= i && len <= |number|
    decreases |number| - i
  {
    if i >= len then []
    else if !IsDigit(number[src]) then Copied(number, i + 2, src + 1, len)
    else [THREE, number[src]] + Copied(number, i + 1, src + 1, len)
  }

  /** retrive_number: digits swapped in pairs, where a '+' found in front of a pair is
      dropped but costs three counts. */
  function Swapped(number: text, i: nat, src: nat): text
    requires src <= i
    decreases |number| - i
  {
    if i + 1 < |number| then
      if number[src] == PLUS then Swapped(number, i + 3, src + 1)
      else [number[src + 1], number[src]] + Swapped(number, i + 2, src + 2)
    else if i < |number| then [F, number[src]]
    else []
  }

  function HexDigit(v: nat): (c: byte)
    requires v < 16
    ensures c != 0
  {
    if v < 10 then '0' as int + v else 'A' as int + v - 10
  }

  function Hex2(v: nat): (s: text)
    requires v < 256
    ensures |s| == 2
  {
    [HexDigit(v / 16), HexDigit(v % 16)]
  }

  function Name(alpha: text, number: text): text {
    if Blank(alpha) then Copied(number, 0, 0, Min(|number|, 13)) else alpha
  }

  function LengthField(number: text): nat {
    (|number| + 1) / 2 + 1
  }

  /** A text that is stored pair by pair fits a temporary buffer, with its NUL. */
  predicate PairsFit(s: text) {
    |s| + |s| % 2 < 64
  }

  predicate Writable(alpha: text, code: int, number: text) {
    && PairsFit(AlphaText(Name(alpha, number), Blank(alpha)))
    && |alpha| < 64 && PairsFit(number) && 0 <= code < 256
  }

  lemma {:induction false} SwappedLength(number: text, i: nat, src: nat)
    requires src <= i
    ensures |Swapped(number, i, src)| <= if i < |number| then |number| - i + 1 else 0
    decreases |number| - i
  {
    if i + 1 < |number| {
      if number[src] == PLUS { SwappedLength(number, i + 3, src + 1); }
      else { SwappedLength(number, i + 2, src + 2); }
    }
  }

  /** The record after convert_phone_book, written in the order of the source. */
  function Record(r: seq<byte>, alpha: text, code: nat, number: text): (q: seq<byte>)
    requires |r| >= 128 && Writable(alpha, code, number)
    ensures |q| == |r|
  {
    SwappedLength(number, 0, 0);
    var r1 := Splice(r, 0, AlphaText(Name(alpha, number), Blank(alpha)));
    var r2 := Splice(r1, 28, Hex2(LengthField(number)));
    var r3 := Splice(r2, 30, Hex2(code));
    Splice(r3, 32, Swapped(number, 0, 0))
  }

  // ----- the entry and its conversion, in place

  class Entry {
    var alpha: text
    var code: int
    var number: text
    var numberLength: int

    constructor ()
      ensures alpha == [] && number == [] && code == 0 && numberLength == 0
    {
      alpha, number, code, numberLength := [], [], 0, 0;
    }
  }

  method IsEmptyAlpha(alpha: text) returns (b: bool)
    ensures b == Blank(alpha)
  {
    for i := 0 to |alpha| / 4
      invariant forall k :: 0 <= k < i ==> BlankUnit(alpha, k)
    {
      if alpha[4 * i] != ZERO || alpha[4 * i + 1] != ZERO || alpha[4 * i + 2] != TWO || alpha[4 * i + 3] != ZERO {
        assert !BlankUnit(alpha, i);
        return false;
      }
    }
    return true;
  }

  method CopyNumberToAlpha(number: text, len: nat) returns (dst: text)
    requires len <= |number|
    ensures dst == Copied(number, 0, 0, len)
  {
    dst := [];
    var i, src: nat := 0, 0;
    while i < len
      invariant src <= i
      invariant dst + Copied(number, i, src, len) == Copied(number, 0, 0, len)
      decreases len - i
    {
      if !IsDigit(number[src]) {
        src := src + 1;
        i := i + 2;
        continue;
      }
      Join(dst, [THREE, number[src]], Copied(number, i + 1, src + 1, len));
      dst := dst + [THREE, number[src]];
      src := src + 1;
      i := i + 1;
    }
    assert dst + [] == dst;
  }

  lemma Join(a: text, b: text, c: text)
    ensures a + b + c == a + (b + c)
  {
  }

  method RetriveAlpha(alpha: text, force: bool) returns (tmp: text)
    ensures tmp == AlphaText(alpha, force)
  {
    hide Trimmed, Upto, From;
    var trim := false;
    tmp := [];
    FromEnds(alpha);
    if !force {
      if IsPair(alpha, 0, ZERO, ZERO) { trim := true; }
      else { tmp := [EIGHT, ZERO]; }
    }
    var i := 0;
    while i < |alpha|
      invariant trim ==> tmp + Trimmed(From(alpha, i)) == AlphaText(alpha, force)
      invariant !trim ==> tmp + From(alpha, i) == AlphaText(alpha, force)
      decreases |alpha| - i
    {
      ghost var rest, tmp0 := From(alpha, i), tmp;
      FromFrom(alpha, i, 2);
      FromFrom(alpha, i, 4);
      if trim {
        i := i + 2;
        TrimmedNext(rest);
        Join(tmp0, Upto(From(rest, 2), 2), Trimmed(From(rest, 4)));
      } else {
        TwoAndRest(rest);
        Join(tmp0, Upto(rest, 2), From(rest, 2));
      }
      tmp := tmp + Upto(From(alpha, i), 2);
      i := i + 2;
    }
    assert tmp + [] == tmp;
  }

  lemma TrimmedNext(s: text)
    requires s != []
    ensures Trimmed(s) == Upto(From(s, 2), 2) + Trimmed(From(s, 4))
  {
  }

  lemma TwoAndRest(s: text)
    ensures s == Upto(s, 2) + From(s, 2)
  {
  }

  lemma FromEnds(s: text)
    ensures From(s, 0) == s && Trimmed([]) == []
    ensures forall i: nat :: i >= |s| ==> From(s, i) == []
    ensures forall i: nat :: i < |s| ==> From(s, i) != []
    ensures forall i: nat :: |Upto(From(s, i), 2)| <= 2
  {
  }

  lemma FromFrom(s: text, i: nat, n: nat)
    ensures From(From(s, i), n) == From(s, i + n)
  {
  }

  method RetriveNumber(number: text) returns (tmp: text)
    ensures tmp == Swapped(number, 0, 0)
  {
    tmp := [];
    var i, src: nat := 0, 0;
    while i + 1 < |number|
      invariant src <= i
      invariant tmp + Swapped(number, i, src) == Swapped(number, 0, 0)
      decreases |number| - i
    {
      if number[src] == PLUS {
        src := src + 1;
        i := i + 3;
        continue;
      }
      Join(tmp, [number[src + 1], number[src]], Swapped(number, i + 2, src + 2));
      tmp := tmp + [number[src + 1], number[src]];
      src := src + 2;
      i := i + 2;
    }
    if i < |number| {
      tmp := tmp + [F, number[src]];
    } else {
      assert tmp + [] == tmp;
    }
  }

  // ----- what is read

  predicate Terminator(s: text) {
    IsPair(s, 0, F, F) || IsPair(s, 0, SMALLF, SMALLF)
  }

  /** Pairs of characters up to a terminator, each with "00" in front when the name
      was stored as single bytes. */
  function Pairs(s: text, widen: bool): text
    decreases |s|
  {
    if s == [] || Terminator(s) then []
    else (if widen then [ZERO, ZERO] else []) + Upto(s, 2) + Pairs(From(s, 2), widen)
  }

  function AlphaOf(s: text): text {
    if IsPair(s, 0, EIGHT, ZERO) then Pairs(s[2..], false) else Pairs(s, true)
  }

  function Unswapped(s: text): text {
    if |s| < 2 then [] else [s[1], s[0]] + Unswapped(s[2..])
  }

  function WithoutFill(s: text): text
    requires s != []
  {
    if s[|s| - 1] == F || s[|s| - 1] == SMALLF then s[..|s| - 1] else s
  }

  function NumberOf(s: text): text
    requires |s| >= 2
  {
    WithoutFill(Unswapped(s))
  }

  predicate IsHex(c: byte) {
    ZERO <= c <= '9' as int || 'A' as int <= c <= 'F' as int || 'a' as int <= c <= 'f' as int
  }

  function HexVal(c: byte): (v: nat)
    requires IsHex(c)
    ensures v < 16
  {
    if c <= '9' as int then c - ZERO
    else if c <= 'F' as int then c - 'A' as int + 10
    else c - 'a' as int + 10
  }

  function Hex2Val(a: byte, b: byte): nat
    requires IsHex(a) && IsHex(b)
  {
    16 * HexVal(a) + HexVal(b)
  }

  /** A buffer whose first bytes were replaced by a read. */
  function Refilled(buf: seq<byte>, s: seq<byte>): seq<byte>
    requires |s| <= |buf|
  {
    s + buf[|s|..]
  }

  // ----- byte-aligned fields of the bit buffer

  lemma AlignedPut(s: seq<byte>, at: nat, t: seq<byte>)
    requires at + |t| <= |s|
    ensures Put(ByteBits(s), 8 * at, ByteBits(t), 8 * |t|) == ByteBits(Splice(s, at, t))
  {
    hide ByteBits;
    var r := Splice(s, at, t);
    ByteBitsAppend(s[..at] + t, s[at + |t|..]);
    ByteBitsAppend(s[..at], t);
    ByteBitsPrefix(s, at);
    ByteBitsSuffix(s, at + |t|);
    PutAll(ByteBits(s), 8 * at, ByteBits(t));
  }

  lemma PutAll(c: seq<bool>, pos: nat, src: seq<bool>)
    requires pos + |src| <= |c|
    ensures Put(c, pos, src, |src|) == c[..pos] + src + c[pos + |src|..]
  {
  }

  lemma SameBytes(s: seq<byte>, t: seq<byte>)
    requires |s| == |t| && ByteBits(s) == ByteBits(t)
    ensures s == t
  {
    BytesOfRoundTrip(s);
    BytesOfRoundTrip(t);
  }

  lemma AlignedWrite(s: seq<byte>, r: seq<byte>, at: nat, t: seq<byte>)
    requires |s| == |r| && Wrote(ByteBits(s), ByteBits(r), 8 * at, t, 8 * |t|)
    ensures r == Splice(s, at, t)
  {
    assert t[..|t|] == t;
    AlignedPut(s, at, t);
    SameBytes(r, Splice(s, at, t));
  }

  lemma AlignedTaken(s: seq<byte>, at: nat, n: nat)
    requires at + n <= |s|
    ensures Taken(ByteBits(s), 8 * at, 8 * n) == s[at..at + n]
  {
    hide ByteBits, Taken;
    var t := s[at..at + n];
    var f := Field(t, 8 * n);
    TakenIff(f);
    ByteBitsSuffix(s, at);
    ByteBitsPrefix(s[at..], n);
    assert s[at..][..n] == t;
    var b := ByteBits(s);
    assert b[8 * at..8 * at + 8 * n] == b[8 * at..][..8 * n];
    assert ByteBits(t)[..8 * n] == ByteBits(t);
    TakenIsLocal(b, 8 * at, ByteBits(t), 8 * n);
  }

  /** The write_bits_8 loop of write_alpha and write_number. */
  method WriteText(stream: Stream, s: text, at: nat)
    requires stream.dataPos == 8 * at && at + |s| + 1 <= stream.buffer.Length
    modifies stream`dataPos, stream.buffer
    ensures stream.dataPos == 8 * (at + |s|)
    ensures stream.buffer[..] == Splice(old(stream.buffer[..]), at, s)
  {
    hide ByteBits, Wrote;
    ghost var r := stream.buffer[..];
    assert Splice(r, at, s[..0]) == r;
    for i := 0 to |s|
      invariant stream.dataPos == 8 * (at + i)
      invariant stream.buffer[..] == Splice(r, at, s[..i])
    {
      stream.WriteBits([s[i]], 8);
      AlignedWrite(Splice(r, at, s[..i]), stream.buffer[..], at + i, [s[i]]);
      SpliceNext(r, at, s, i);
    }
    assert s[..|s|] == s;
  }

  lemma SpliceNext(r: seq<byte>, at: nat, s: text, i: nat)
    requires at + |s| <= |r| && i < |s|
    ensures Splice(Splice(r, at, s[..i]), at + i, [s[i]]) == Splice(r, at, s[..i + 1])
  {
  }

  /** write_number_length and write_internat_code: two hexadecimal digits. */
  method WriteHex(stream: Stream, v: nat, at: nat)
    requires v < 256 && stream.dataPos == 8 * at && at + 3 <= stream.buffer.Length
    modifies stream`dataPos, stream.buffer
    ensures stream.buffer[..] == Splice(old(stream.buffer[..]), at, Hex2(v))
  {
    hide ByteBits, Wrote;
    stream.WriteBits(Hex2(v), 16);
    AlignedWrite(old(stream.buffer[..]), stream.buffer[..], at, Hex2(v));
  }

  method ConvertPhoneBook(pb: Entry, buffer: array<byte>)
    requires buffer.Length >= 128 && Writable(pb.alpha, pb.code, pb.number)
    modifies pb`alpha, buffer
    ensures buffer[..] == Record(old(buffer[..]), old(pb.alpha), pb.code, pb.number)
    ensures pb.alpha == Name(old(pb.alpha), pb.number)
  {
    hide AlphaText, Swapped, Blank, Copied, Hex2, ByteBits, Splice;
    var force := IsEmptyAlpha(pb.alpha);
    if force {
      var len := |pb.number|;
      if len > 13 {
        len := 13;
      }
      pb.alpha := CopyNumberToAlpha(pb.number, len);
    }
    var stream := new Stream(buffer);
    var alpha := RetriveAlpha(pb.alpha, force);
    WriteText(stream, alpha, 0);
    stream.SetDataPos(28 * 8);
    WriteHex(stream, (|pb.number| + 1) / 2 + 1, 28);
    stream.SetDataPos(30 * 8);
    WriteHex(stream, pb.code, 30);
    stream.SetDataPos(32 * 8);
    SwappedLength(pb.number, 0, 0);
    if |pb.number| != 0 {
      var number := RetriveNumber(pb.number);
      WriteText(stream, number, 32);
    } else {
      NoNumber(buffer[..], pb.number);
    }
  }

  lemma NoNumber(r: seq<byte>, number: text)
    requires number == [] && |r| >= 128
    ensures |Swapped(number, 0, 0)| == 0 && Splice(r, 32, Swapped(number, 0, 0)) == r
  {
  }

  /** The reading loop of read_alpha. */
  method ReadPairs(s: text, widen: bool) returns (tmp: text)
    ensures tmp == Pairs(s, widen)
  {
    tmp := [];
    var i := 0;
    while i < |s|
      invariant tmp + Pairs(From(s, i), widen) == Pairs(s, widen)
      decreases |s| - i
    {
      ghost var rest := From(s, i);
      if Terminator(s[i..]) {
        break;
      }
      FromFrom(s, i, 2);
      Regroup(tmp, if widen then [ZERO, ZERO] else [], Upto(rest, 2), Pairs(From(rest, 2), widen));
      if widen {
        tmp := tmp + [ZERO, ZERO];
      } else {
        assert tmp + [] == tmp;
      }
      tmp := tmp + Upto(s[i..], 2);
      i := i + 2;
    }
    assert tmp + [] == tmp;
  }

  lemma Regroup(a: text, b: text, c: text, d: text)
    ensures a + (b + c + d) == a + b + c + d
  {
  }

  method UnswapNumber(s: text) returns (tmp: text)
    requires |s| >= 2
    ensures tmp == NumberOf(s)
  {
    tmp := [];
    var i := 0;
    while i + 1 < |s|
      invariant i <= |s| && |tmp| == i && i % 2 == 0
      invariant tmp + Unswapped(s[i..]) == Unswapped(s)
    {
      assert s[i..][2..] == s[i + 2..];
      Join(tmp, [s[i + 1], s[i]], Unswapped(s[i + 2..]));
      tmp := tmp + [s[i + 1], s[i]];
      i := i + 2;
    }
    assert tmp + [] == tmp;
    if tmp[|tmp| - 1] == F || tmp[|tmp| - 1] == SMALLF {
      tmp := tmp[..|tmp| - 1];
    }
  }

  /** strlen and the string it delimits. */
  method StringAt(a: array<byte>) returns (s: text)
    requires 0 in a[..]
    ensures s == CString(a[..])
  {
    CStringPrefix(a[..]);
    ghost var whole := CString(a[..]);
    assert forall k :: 0 <= k < |whole| ==> a[k] == whole[k];
    var n := 0;
    while a[n] != 0
      invariant n <= |whole| < a.Length
      decreases |whole| - n
    {
      n := n + 1;
    }
    s := a[..n];
  }

  method CopyString(a: array<byte>, s: text)
    requires |s| < a.Length
    modifies a
    ensures a[..] == Splice(old(a[..]), 0, s + [0])
  {
    for i := 0 to |s|
      invariant forall k :: 0 <= k < a.Length ==> a[k] == if k < i then s[k] else old(a[k])
    {
      a[i] := s[i];
    }
    a[|s|] := 0;
  }

  class PhoneBook {
    var alphaBuf: array<byte>
    var numberBuf: array<byte>

    ghost predicate Valid()
      reads this
    {
      alphaBuf.Length == 128 && numberBuf.Length == 128 && alphaBuf != numberBuf
    }

    constructor ()
      ensures Valid() && fresh(alphaBuf) && fresh(numberBuf)
      ensures forall i :: 0 <= i < 128 ==> alphaBuf[i] == 0 && numberBuf[i] == 0
    {
      alphaBuf := new byte[128](_ => 0);
      numberBuf := new byte[128](_ => 0);
    }

    /** Readable data: hexadecimal fields, and strings that end inside their buffers. */
    ghost predicate Readable(r: seq<byte>, dataLen: nat)
      reads this, alphaBuf, numberBuf
      requires Valid()
    {
      && 32 <= dataLen < |r|
      && IsHex(r[28]) && IsHex(r[29]) && IsHex(r[30]) && IsHex(r[31])
      && 0 <= ReadLength(r) < 128
      && 0 in alphaBuf[28..]
      && PairsFit(ReadName(r, alphaBuf[..]))
      && var s := NumberBytes(r, dataLen, ReadLength(r), numberBuf[..]);
         0 in s && 2 <= |CString(s)| < 64
    }

    method ReadAlpha(stream: Stream)
      requires Valid() && stream.buffer != alphaBuf
      requires stream.readPos == 0 && 28 * 8 <= stream.dataPos && stream.buffer.Length >= 32
      requires 0 in alphaBuf[28..] && PairsFit(ReadName(stream.buffer[..], alphaBuf[..]))
      modifies stream`readPos, alphaBuf
      ensures stream.readPos == 28 * 8
      ensures 0 in alphaBuf[..] && CString(alphaBuf[..]) == ReadName(stream.buffer[..], old(alphaBuf[..]))
      ensures alphaBuf[..] == Splice(Refilled(old(alphaBuf[..]), stream.buffer[..28]), 0,
                                     ReadName(stream.buffer[..], old(alphaBuf[..])) + [0])
    {
      hide ByteBits, Taken, Pairs, CString;
      ghost var r, a := stream.buffer[..], alphaBuf[..];
      assert stream.buffer[..28] == r[..28];
      AlignedTaken(r, 0, 28);
      var ok := stream.ReadBits(alphaBuf, 28 * 8);
      assert alphaBuf[..] == Refilled(a, r[..28]);
      ZeroKept(a, r[..28]);
      var s := StringAt(alphaBuf);
      var tmp;
      if IsPair(s, 0, EIGHT, ZERO) {
        tmp := ReadPairs(s[2..], false);
      } else {
        tmp := ReadPairs(s, true);
      }
      CopyString(alphaBuf, tmp);
      StringOf(Refilled(a, r[..28]), tmp);
    }

    method ReadHex(stream: Stream, at: nat) returns (v: int)
      requires stream.readPos == 8 * at && 8 * (at + 2) <= stream.dataPos && at + 3 <= stream.buffer.Length
      requires IsHex(stream.buffer[at]) && IsHex(stream.buffer[at + 1])
      modifies stream`readPos
      ensures stream.readPos == 8 * (at + 2)
      ensures v == Hex2Val(stream.buffer[at], stream.buffer[at + 1])
    {
      hide ByteBits, Taken, HexVal, IsHex;
      ghost var r := stream.buffer[..];
      AlignedTaken(r, at, 2);
      var c := new byte[16];
      var ok := stream.ReadBits(c, 16);
      assert c[..2] == r[at..at + 2];
      assert c[0] == c[..2][0] && c[1] == c[..2][1];
      v := Hex2Val(c[0], c[1]);
    }

    method ReadNumberField(stream: Stream, dataLen: nat, len: nat)
      requires Valid() && stream.buffer != numberBuf
      requires stream.readPos == 8 * 32 && stream.dataPos == 8 * dataLen && 32 <= dataLen < stream.buffer.Length && len < 128
      requires var s := NumberBytes(stream.buffer[..], dataLen, len, numberBuf[..]); 0 in s && 2 <= |CString(s)| < 64
      modifies stream`readPos, numberBuf
      ensures var n := ReadNumber(stream.buffer[..], dataLen, len, old(numberBuf[..]));
              |n| < 128 &&
              numberBuf[..] == Splice(NumberBytes(stream.buffer[..], dataLen, len, old(numberBuf[..])), 0, n + [0])
    {
      hide ByteBits, Taken, Unswapped, CString;
      ghost var r, b := stream.buffer[..], numberBuf[..];
      if 32 + len <= dataLen { AlignedTaken(r, 32, len); }
      var ok := stream.ReadBits(numberBuf, len * 8);
      assert numberBuf[..] == NumberBytes(r, dataLen, len, b);
      var s := StringAt(numberBuf);
      var n := UnswapNumber(s);
      UnswappedLength(s);
      CopyString(numberBuf, n);
    }

    method ExtractPhoneBook(pb: Entry, buffer: array<byte>, dataLen: nat)
      requires Valid() && buffer != alphaBuf && buffer != numberBuf && Readable(buffer[..], dataLen)
      modifies pb, alphaBuf, numberBuf
      ensures alphaBuf == old(alphaBuf) && numberBuf == old(numberBuf)
      ensures pb.alpha == ReadName(buffer[..], old(alphaBuf[..]))
      ensures |pb.alpha| < 64 &&
              alphaBuf[..] == Splice(Refilled(old(alphaBuf[..]), buffer[..28]), 0, pb.alpha + [0])
      ensures pb.numberLength == ReadLength(buffer[..]) && pb.code == ReadCode(buffer[..])
      ensures pb.number == ReadNumber(buffer[..], dataLen, pb.numberLength, old(numberBuf[..]))
      ensures |pb.number| < 128 && numberBuf[..] ==
                Splice(NumberBytes(buffer[..], dataLen, pb.numberLength, old(numberBuf[..])), 0, pb.number + [0])
    {
      hide ByteBits, Unswapped, CString, HexVal, ReadName, IsHex, NumberBytes, ReadNumber;
      ghost var r, b := buffer[..], numberBuf[..];
      assert buffer[..28] == r[..28];
      var stream := new Stream(buffer);
      stream.SetReadPos(0);
      stream.SetDataPos(dataLen * 8);
      ReadAlpha(stream);
      pb.numberLength := ReadHex(stream, 28);
      pb.numberLength := (pb.numberLength - 1) * 2;
      pb.code := ReadHex(stream, 30);
      ReadNumberField(stream, dataLen, pb.numberLength);
      pb.alpha := StringAt(alphaBuf);
      pb.number := StringAt(numberBuf);
      StringOf(NumberBytes(r, dataLen, pb.numberLength, b), ReadNumber(r, dataLen, pb.numberLength, b));
    }
  }

  lemma ZeroKept(a: seq<byte>, s: seq<byte>)
    requires |s| <= |a| && 0 in a[|s|..]
    ensures 0 in Refilled(a, s)
  {
    var i :| 0 <= i < |a[|s|..]| && a[|s|..][i] == 0;
    assert Refilled(a, s)[|s| + i] == 0;
  }

  lemma StringOf(a: seq<byte>, s: text)
    requires |s| < |a|
    ensures CString(Splice(a, 0, s + [0])) == s && 0 in Splice(a, 0, s + [0])
  {
    var t: seq<byte> := [0] + a[|s| + 1..];
    CStringAppend(s, t);
    assert Splice(a, 0, s + [0]) == s + t;
    assert (s + t)[|s|] == 0;
  }

  // ----- the number comes back

  ghost predicate NoPlus(number: text, i: nat) {
    forall k :: i <= k && k + 1 < |number| && (k - i) % 2 == 0 ==> number[k] != PLUS
  }

  predicate EndsInFill(number: text) {
    number != [] && (number[|number| - 1] == F || number[|number| - 1] == SMALLF)
  }

  /** The numbers that survive: no '+' in front of a pair, and no fill character as
      the last of an even number. */
  ghost predicate Sendable(number: text) {
    NoPlus(number, 0) && (|number| % 2 == 0 ==> !EndsInFill(number))
  }

  function Fill(n: nat): (s: text)
    ensures |s| == n
  {
    seq(n, i => F)
  }

  /** What an even count of semi-octets stands for before the fill is dropped. */
  function Padded(number: text): text {
    if |number| % 2 == 0 then number else number + [F]
  }

  lemma {:induction false} SwapBack(number: text, i: nat)
    requires i <= |number| && i % 2 == 0 && NoPlus(number, i)
    ensures Unswapped(Swapped(number, i, i)) == Padded(number)[i..]
    ensures |Swapped(number, i, i)| == |Padded(number)| - i
    decreases |number| - i
  {
    if i + 1 < |number| {
      SwapBack(number, i + 2);
      var s := Swapped(number, i, i);
      assert s[2..] == Swapped(number, i + 2, i + 2);
      assert Padded(number)[i..] == [number[i], number[i + 1]] + Padded(number)[i + 2..];
    }
  }

  lemma UnswappedNone()
    ensures Unswapped([]) == []
  {
  }

  lemma UnswappedCons(a: byte, b: byte, s: text)
    requires a != 0 && b != 0
    ensures Unswapped([a, b] + s) == [b, a] + Unswapped(s)
  {
    assert ([a, b] + s)[2..] == s;
  }

  lemma {:induction false} UnswappedAppend(s: text, t: text)
    requires |s| % 2 == 0
    ensures Unswapped(s + t) == Unswapped(s) + Unswapped(t)
    ensures |Unswapped(s)| == |s|
    decreases |s|
  {
    hide Unswapped;
    if s == [] {
      UnswappedNone();
      assert s + t == t;
    } else {
      var x := s[2..];
      UnswappedAppend(x, t);
      UnswappedCons(s[0], s[1], x);
      UnswappedCons(s[0], s[1], x + t);
      assert s == [s[0], s[1]] + x;
      assert s + t == [s[0], s[1]] + (x + t);
    }
  }

  lemma {:induction false} UnswappedLength(s: text)
    ensures |Unswapped(s)| == 2 * (|s| / 2)
  {
    if |s| >= 2 { UnswappedLength(s[2..]); }
  }

  /** Once a '+' was dropped the next character is no '+', or it is a '+' and stands
      alone before a fill. */
  lemma {:induction false} AfterPlus(number: text, i: nat, src: nat)
    requires src < i
    ensures var t := Swapped(number, i, src);
            t == [] || (|t| >= 2 && (t[1] != PLUS || (number[src] == PLUS && t[0] == F)))
    decreases |number| - i
  {
    if i + 1 < |number| && number[src] == PLUS { AfterPlus(number, i + 3, src + 1); }
  }

  lemma {:induction false} SwappedEven(number: text, i: nat, src: nat)
    requires src <= i
    ensures |Swapped(number, i, src)| % 2 == 0
    decreases |number| - i
  {
    if i + 1 < |number| {
      if number[src] == PLUS { SwappedEven(number, i + 3, src + 1); }
      else { SwappedEven(number, i + 2, src + 2); }
    }
  }

  lemma SwappedCons(number: text, i: nat)
    requires i + 1 < |number| && number[i] != PLUS
    ensures Swapped(number, i, i) == [number[i + 1], number[i]] + Swapped(number, i + 2, i + 2)
  {
  }

  lemma SwappedPlus(number: text, i: nat)
    requires i + 1 < |number| && number[i] == PLUS
    ensures Swapped(number, i, i) == Swapped(number, i + 3, i + 1)
  {
  }

  /** Where the first '+' is dropped. */
  lemma {:induction false} FirstPlus(number: text, i: nat) returns (n: nat)
    requires !NoPlus(number, i)
    ensures i + 2 * n + 1 < |number| && number[i + 2 * n] == PLUS
    ensures forall k :: 0 <= k < n ==> number[i + 2 * k] != PLUS
    decreases |number| - i
  {
    if i + 1 < |number| && number[i] == PLUS {
      n := 0;
    } else {
      var m := FirstPlus(number, i + 2);
      n := m + 1;
      forall k | 0 <= k < n ensures number[i + 2 * k] != PLUS {
        if k > 0 { assert number[i + 2 + 2 * (k - 1)] != PLUS; }
      }
    }
  }

  /** Up to there pairs are swapped. */
  lemma {:induction false} SwapUntil(number: text, i: nat, n: nat) returns (s: text, t: text)
    requires i + 2 * n + 1 < |number| && number[i + 2 * n] == PLUS
    requires forall k :: 0 <= k < n ==> number[i + 2 * k] != PLUS
    ensures |s| == 2 * n && Unswapped(s) == number[i..i + 2 * n]
    ensures t == Swapped(number, i + 2 * n + 3, i + 2 * n + 1)
    ensures Swapped(number, i, i) == s + t
    decreases n
  {
    hide Swapped, Unswapped;
    if n == 0 {
      s, t := [], Swapped(number, i, i);
      SwappedPlus(number, i);
      UnswappedNone();
    } else {
      assert number[i + 2 * 0] != PLUS;
      forall k | 0 <= k < n - 1 ensures number[i + 2 + 2 * k] != PLUS {
        assert number[i + 2 * (k + 1)] != PLUS;
      }
      var s1;
      s1, t := SwapUntil(number, i + 2, n - 1);
      s := [number[i + 1], number[i]] + s1;
      UnswappedCons(number[i + 1], number[i], s1);
      SwappedCons(number, i);
      assert number[i..i + 2 * n] == [number[i], number[i + 1]] + number[i + 2..i + 2 * n];
    }
  }

  lemma SwappedFits(number: text)
    ensures |Swapped(number, 0, 0)| <= |Padded(number)|
  {
    SwappedLength(number, 0, 0);
    SwappedEven(number, 0, 0);
  }

  /** The number field of a fresh record, and what a zeroed buffer makes of it. */
  function NumberField(number: text): text
    requires |Swapped(number, 0, 0)| <= |Padded(number)|
  {
    Swapped(number, 0, 0) + Fill(|Padded(number)| - |Swapped(number, 0, 0)|)
  }

  lemma PlusIsLost(number: text)
    requires number != [] && |Swapped(number, 0, 0)| <= |Padded(number)| && !NoPlus(number, 0)
    ensures NumberOf(NumberField(number)) != number
  {
    hide Unswapped, Swapped, NoPlus;
    var n := FirstPlus(number, 0);
    var s, t := SwapUntil(number, 0, n);
    AfterPlus(number, 2 * n + 3, 2 * n + 1);
    var g := t + Fill(|Padded(number)| - |Swapped(number, 0, 0)|);
    assert NumberField(number) == s + g;
    UnswappedAppend(s, g);
    SwappedFits(number);
    assert t == [] ==> g == Fill(|g|) && |g| >= 2;
    LostHere(number, n, t, g, Unswapped(g));
  }

  lemma LostHere(number: text, n: nat, t: text, g: text, u: text)
    requires 2 * n + 1 < |number| && number[2 * n] == PLUS
    requires |g| >= 2 && u == Unswapped(g)
    requires if t == [] then g[1] == F else |t| >= 2 && g[0] == t[0] && g[1] == t[1]
    requires t == [] || t[1] != PLUS || (number[2 * n + 1] == PLUS && t[0] == F)
    ensures WithoutFill(number[..2 * n] + u) != number
  {
    assert u[0] == g[1] && u[1] == g[0];
    var w := number[..2 * n] + u;
    assert w[2 * n] == u[0] && w[2 * n + 1] == u[1];
  }

  /** A number comes back, into a zeroed buffer, exactly when it is sendable. */
  lemma NumberIff(number: text)
    requires number != []
    ensures |Swapped(number, 0, 0)| <= |Padded(number)|
    ensures NumberOf(NumberField(number)) == number <==> Sendable(number)
  {
    SwappedFits(number);
    if NoPlus(number, 0) {
      SwapBack(number, 0);
      assert NumberField(number) == Swapped(number, 0, 0);
      assert Padded(number)[0..] == Padded(number);
    } else {
      PlusIsLost(number);
    }
  }

  // ----- the name comes back

  ghost predicate NoTerminator(s: text) {
    forall k :: 0 <= k < |s| / 2 ==> NoTerminatorAt(s, k)
  }

  predicate NoTerminatorAt(s: text, k: nat) {
    !IsPair(s, 2 * k, F, F) && !IsPair(s, 2 * k, SMALLF, SMALLF)
  }

  lemma NoTerminatorStep(s: text)
    requires |s| >= 2
    ensures NoTerminator(s) <==> !Terminator(s) && NoTerminator(s[2..])
  {
    if !Terminator(s) && NoTerminator(s[2..]) {
      forall k | 0 <= k < |s| / 2 ensures NoTerminatorAt(s, k) {
        if k > 0 { assert NoTerminatorAt(s[2..], k - 1); }
      }
    }
    if NoTerminator(s) {
      assert NoTerminatorAt(s, 0);
      forall k | 0 <= k < |s[2..]| / 2 ensures NoTerminatorAt(s[2..], k) {
        assert NoTerminatorAt(s, k + 1);
      }
    }
  }

  lemma PairsStep(s: text, widen: bool)
    requires |s| >= 2 && !Terminator(s)
    ensures Pairs(s, widen) == (if widen then [ZERO, ZERO] else []) + s[..2] + Pairs(s[2..], widen)
  {
  }

  /** Reading stops at the terminator, whatever follows. */
  lemma {:induction false} PairsStop(s: text, t: text, widen: bool)
    requires |s| % 2 == 0 && Terminator(t)
    ensures Pairs(s + t, widen) == Pairs(s, widen)
    decreases |s|
  {
    if s == [] {
      assert s + t == t;
    } else {
      assert Terminator(s + t) <==> Terminator(s);
      if !Terminator(s) {
        PairsStop(s[2..], t, widen);
        PairsStep(s + t, widen);
        PairsStep(s, widen);
        assert (s + t)[2..] == s[2..] + t && (s + t)[..2] == s[..2];
      }
    }
  }

  /** Whole units come out when a terminator is met at an even place. */
  lemma {:induction false} PairsWhole(s: text, j: nat, widen: bool)
    requires IsPair(s, 2 * j, F, F)
    ensures |Pairs(s, widen)| % (if widen then 4 else 2) == 0
    decreases j
  {
    if !Terminator(s) {
      PairsWhole(s[2..], j - 1, widen);
      PairsStep(s, widen);
    }
  }

  lemma {:induction false} PairsKeep(s: text)
    requires |s| % 2 == 0
    ensures Pairs(s, false) == s <==> NoTerminator(s)
    decreases |s|
  {
    if s != [] {
      NoTerminatorStep(s);
      if !Terminator(s) {
        PairsKeep(s[2..]);
        PairsStep(s, false);
        assert s == s[..2] + s[2..];
        assert Pairs(s, false)[2..] == Pairs(s[2..], false);
      }
    }
  }

  ghost predicate HighZero(alpha: text) {
    forall k :: 0 <= k < |alpha| / 4 ==> IsPair(alpha, 4 * k, ZERO, ZERO)
  }

  lemma HighZeroStep(alpha: text)
    requires |alpha| >= 4
    ensures HighZero(alpha) <==> IsPair(alpha, 0, ZERO, ZERO) && HighZero(alpha[4..])
  {
    if HighZero(alpha) {
      assert IsPair(alpha, 4 * 0, ZERO, ZERO);
      forall k | 0 <= k < |alpha[4..]| / 4 ensures IsPair(alpha[4..], 4 * k, ZERO, ZERO) {
        assert IsPair(alpha, 4 * (k + 1), ZERO, ZERO);
      }
    }
    if IsPair(alpha, 0, ZERO, ZERO) && HighZero(alpha[4..]) {
      forall k | 0 <= k < |alpha| / 4 ensures IsPair(alpha, 4 * k, ZERO, ZERO) {
        if k > 0 { assert IsPair(alpha[4..], 4 * (k - 1), ZERO, ZERO); }
      }
    }
  }

  lemma TrimmedStep(alpha: text)
    requires |alpha| >= 4
    ensures Trimmed(alpha) == alpha[2..4] + Trimmed(alpha[4..])
  {
  }

  lemma TrimNothing()
    ensures Trimmed([]) == [] && Pairs([], true) == [] && HighZero([]) && NoTerminator([])
  {
  }

  /** One unit is widened back from its low byte. */
  lemma UnitBack(alpha: text, s: text, r: text)
    requires |alpha| >= 4 && s == alpha[2..4] && |r| >= 4 && r[..4] == [ZERO, ZERO] + s
    ensures r == alpha <==> IsPair(alpha, 0, ZERO, ZERO) && r[4..] == alpha[4..]
  {
    assert r == r[..4] + r[4..] && alpha == alpha[..4] + alpha[4..];
    assert alpha[..4] == [alpha[0], alpha[1]] + alpha[2..4];
  }

  /** Widening what was trimmed. */
  lemma {:induction false} TrimBack(alpha: text)
    requires |alpha| % 4 == 0
    ensures |Trimmed(alpha)| == |alpha| / 2
    ensures Pairs(Trimmed(alpha), true) == alpha <==> HighZero(alpha) && NoTerminator(Trimmed(alpha))
    decreases |alpha|
  {
    hide Trimmed, Pairs, HighZero, NoTerminator;
    if alpha == [] {
      TrimNothing();
    } else {
      TrimmedStep(alpha);
      HighZeroStep(alpha);
      TrimBack(alpha[4..]);
      var s := Trimmed(alpha);
      assert s[2..] == Trimmed(alpha[4..]) && s[..2] == alpha[2..4];
      NoTerminatorStep(s);
      if Terminator(s) {
        StopsAtOnce(s);
      } else {
        PairsStep(s, true);
        var r := Pairs(s, true);
        assert r[..4] == [ZERO, ZERO] + s[..2] && r[4..] == Pairs(s[2..], true);
        UnitBack(alpha, s[..2], r);
      }
    }
  }

  lemma StopsAtOnce(s: text)
    requires Terminator(s)
    ensures Pairs(s, true) == []
  {
  }

  // ----- the whole record

  /** A record filled with 'F', as it is before conversion. */
  ghost predicate Filled(r: seq<byte>) {
    |r| >= 128 && forall i :: 0 <= i < 56 ==> r[i] == F
  }

  /** Names and numbers that fit their fields. */
  predicate Fits(alpha: text, code: int, number: text) {
    && Writable(alpha, code, number)
    && |AlphaText(Name(alpha, number), Blank(alpha))| <= 28
    && 0 <= code < 256
    && 1 <= |number| <= 24
  }

  /** Names that leave room for a terminator. */
  predicate HasEnd(alpha: text, number: text) {
    |AlphaText(Name(alpha, number), Blank(alpha))| <= 26
  }

  /** What reading goes on with behind a full name field. */
  function Behind(alphaBuf: seq<byte>): text
    requires |alphaBuf| == 128
  {
    CString(alphaBuf[28..])
  }

  /** Nothing more is read from `t`. */
  predicate Ended(t: text) {
    t == [] || Terminator(t)
  }

  lemma Layout(r: seq<byte>, a: text, l: text, c: text, n: text)
    requires Filled(r) && |a| <= 28 && |l| == 2 && |c| == 2 && |n| <= 24
    ensures var q := Splice(Splice(Splice(Splice(r, 0, a), 28, l), 30, c), 32, n);
            q[..28] == a + Fill(28 - |a|) && q[28..30] == l && q[30..32] == c && q[32..56] == n + Fill(24 - |n|)
  {
    var q1 := Splice(r, 0, a);
    var q2 := Splice(q1, 28, l);
    var q3 := Splice(q2, 30, c);
    var q := Splice(q3, 32, n);
    assert q[..28] == q3[..28] == q2[..28] == q1[..28];
    assert q[28..30] == q3[28..30] == q2[28..30];
    assert q[30..32] == q3[30..32];
    assert forall i :: 32 + |n| <= i < 56 ==> q[i] == q3[i] == q2[i] == q1[i] == r[i];
  }

  lemma Hex2RoundTrip(v: nat)
    requires v < 256
    ensures var s := Hex2(v); IsHex(s[0]) && IsHex(s[1]) && Hex2Val(s[0], s[1]) == v
  {
  }

  /** What extract_phone_book reads as the name. */
  function ReadName(r: seq<byte>, alphaBuf: seq<byte>): text
    requires |r| >= 28 && |alphaBuf| == 128
  {
    AlphaOf(CString(Refilled(alphaBuf, r[..28])))
  }

  lemma NameBytes(w: text, alphaBuf: seq<byte>) returns (t: text)
    requires |w| <= 26 && |alphaBuf| == 128
    ensures CString(Refilled(alphaBuf, w + Fill(28 - |w|))) == w + t
    ensures |t| >= 2 && t[0] == F && t[1] == F
    ensures |w| % 2 == 1 ==> IsPair(w + t, |w| + 1, F, F)
  {
    var f := Fill(28 - |w|);
    CStringAppend(w + f, alphaBuf[28..]);
    t := f + CString(alphaBuf[28..]);
    assert w + f + CString(alphaBuf[28..]) == w + t;
  }

  /** The names that survive: whole units of one form, with no terminator inside, and
      none that would be taken for the other form. */
  ghost predicate Storable(alpha: text) {
    if IsPair(alpha, 0, ZERO, ZERO) then
      |alpha| % 4 == 0 && HighZero(alpha) && NoTerminator(Trimmed(alpha)) && !IsPair(alpha, 2, EIGHT, ZERO)
    else
      |alpha| % 2 == 0 && NoTerminator(alpha)
  }

  lemma WideIff(alpha: text, t: text)
    requires alpha != [] && |t| >= 2 && t[0] == F && t[1] == F && !IsPair(alpha, 0, ZERO, ZERO)
    requires |alpha| % 2 == 1 ==> IsPair([EIGHT, ZERO] + alpha + t, |alpha| + 3, F, F)
    ensures AlphaOf([EIGHT, ZERO] + alpha + t) == alpha <==> Storable(alpha)
  {
    hide Pairs;
    var s := [EIGHT, ZERO] + alpha + t;
    assert s[2..] == alpha + t;
    if |alpha| % 2 == 0 {
      PairsStop(alpha, t, false);
      PairsKeep(alpha);
    } else {
      PairsWhole(alpha + t, (|alpha| + 1) / 2, false);
    }
  }

  lemma {:induction false} TrimmedLength(alpha: text)
    ensures |Trimmed(alpha)| == 2 * (|alpha| / 4) + if |alpha| % 4 == 3 then 1 else 0
    decreases |alpha|
  {
    if alpha != [] { TrimmedLength(From(alpha, 4)); }
  }

  lemma NarrowTerminated(w: text, t: text)
    requires |t| >= 2 && t[0] == F && t[1] == F && (|w| % 2 == 1 ==> IsPair(w + t, |w| + 1, F, F))
    ensures IsPair(w + t, 2 * ((|w| + 1) / 2), F, F)
  {
  }

  lemma NarrowStart(alpha: text, t: text)
    requires |alpha| >= 4
    ensures var w := Trimmed(alpha); |w| >= 2 && (IsPair(w + t, 0, EIGHT, ZERO) <==> IsPair(alpha, 2, EIGHT, ZERO))
  {
    hide Trimmed;
    TrimmedStep(alpha);
  }

  lemma NarrowIff(alpha: text, t: text)
    requires |alpha| >= 4 && |t| >= 2 && t[0] == F && t[1] == F && IsPair(alpha, 0, ZERO, ZERO)
    requires var w := Trimmed(alpha); |w| % 2 == 1 ==> IsPair(w + t, |w| + 1, F, F)
    ensures AlphaOf(Trimmed(alpha) + t) == alpha <==> Storable(alpha)
  {
    hide Pairs, Trimmed, HighZero, NoTerminator;
    var w := Trimmed(alpha);
    var s := w + t;
    var j := (|w| + 1) / 2;
    NarrowStart(alpha, t);
    NarrowTerminated(w, t);
    if IsPair(s, 0, EIGHT, ZERO) {
      assert IsPair(s[2..], 2 * (j - 1), F, F);
      NarrowMistaken(alpha, s, j);
    } else if |alpha| % 4 == 0 {
      TrimBack(alpha);
      PairsStop(w, t, true);
    } else {
      PairsWhole(s, j, true);
    }
  }

  lemma {:induction false} PairsBefore(s: text, j: nat, widen: bool)
    requires IsPair(s, 2 * j, F, F)
    ensures |Pairs(s, widen)| <= (if widen then 4 else 2) * j
    decreases j
  {
    if !Terminator(s) {
      PairsBefore(s[2..], j - 1, widen);
      PairsStep(s, widen);
    }
  }

  lemma NarrowMistaken(alpha: text, s: text, j: nat)
    requires |alpha| >= 4 && j == (|Trimmed(alpha)| + 1) / 2 && IsPair(alpha, 2, EIGHT, ZERO)
    requires |s| >= 2 && j >= 1 && IsPair(s[2..], 2 * (j - 1), F, F)
    ensures Pairs(s[2..], false) != alpha
  {
    TrimmedLength(alpha);
    PairsBefore(s[2..], j - 1, false);
  }

  lemma NameIsLong(alpha: text)
    requires !Blank(alpha)
    ensures |alpha| >= 4
  {
  }

  /** Without a terminator reading goes on behind `s`. */
  lemma {:induction false} PairsAppend(s: text, t: text, widen: bool)
    requires |s| % 2 == 0 && NoTerminator(s)
    ensures Pairs(s + t, widen) == Pairs(s, widen) + Pairs(t, widen)
    ensures |Pairs(s, widen)| == if widen then 2 * |s| else |s|
    decreases |s|
  {
    hide Pairs, NoTerminator;
    if s == [] {
      PairsNone(widen);
      assert s + t == t && [] + Pairs(t, widen) == Pairs(t, widen);
    } else {
      NoTerminatorStep(s);
      PairsAppend(s[2..], t, widen);
      PairsStep(s, widen);
      PairsStep(s + t, widen);
      assert (s + t)[2..] == s[2..] + t && (s + t)[..2] == s[..2];
      var head := (if widen then [ZERO, ZERO] else []) + s[..2];
      Join(head, Pairs(s[2..], widen), Pairs(t, widen));
    }
  }

  lemma PairsNone(widen: bool)
    ensures Pairs([], widen) == []
  {
  }

  /** With one it stops there, after whole units. */
  lemma {:induction false} PairsWithin(s: text, t: text, widen: bool)
    requires |s| % 2 == 0 && !NoTerminator(s)
    ensures Pairs(s + t, widen) == Pairs(s, widen) && |s| >= 2
    ensures |Pairs(s, widen)| % (if widen then 4 else 2) == 0
    ensures |Pairs(s, widen)| <= (if widen then 2 else 1) * (|s| - 2)
    decreases |s|
  {
    hide Pairs, NoTerminator;
    assert |s| >= 2 by { EmptyHasNone(s); }
    NoTerminatorStep(s);
    assert (s + t)[2..] == s[2..] + t && (s + t)[..2] == s[..2];
    if Terminator(s) {
      PairsEnd(s, widen);
      PairsEnd(s + t, widen);
    } else {
      PairsWithin(s[2..], t, widen);
      PairsStep(s, widen);
      PairsStep(s + t, widen);
    }
  }

  lemma EmptyHasNone(s: text)
    ensures |s| < 2 ==> NoTerminator(s)
  {
  }

  /** Nothing is read exactly of an ended string, and otherwise at least a character. */
  lemma PairsEnd(t: text, widen: bool)
    ensures Pairs(t, widen) == [] <==> Ended(t)
    ensures Pairs(t, widen) != [] && widen ==> |Pairs(t, widen)| >= 3
  {
  }

  /** A name in UCS2 form that leaves no terminator. */
  lemma FullWideIff(alpha: text, z: text, tail: text)
    requires !IsPair(alpha, 0, ZERO, ZERO) && 25 <= |alpha| <= 26
    requires z == if |alpha| == 26 then alpha else alpha + [F]
    ensures AlphaOf([EIGHT, ZERO] + z + tail) == alpha <==> Storable(alpha) && Ended(tail)
  {
    hide Pairs, NoTerminator, Ended;
    var s := [EIGHT, ZERO] + z + tail;
    assert s[2..] == z + tail;
    PairsKeep(z);
    PairsEnd(tail, false);
    if NoTerminator(z) { PairsAppend(z, tail, false); }
    else { PairsWithin(z, tail, false); }
  }

  /** A name in single-byte form that leaves no terminator. */
  lemma FullNarrowIff(alpha: text, z: text, tail: text)
    requires |alpha| >= 4 && IsPair(alpha, 0, ZERO, ZERO) && 27 <= |Trimmed(alpha)| <= 28 && |tail| <= 28
    requires z == if |Trimmed(alpha)| == 28 then Trimmed(alpha) else Trimmed(alpha) + [F]
    ensures AlphaOf(z + tail) == alpha <==> Storable(alpha) && Ended(tail)
  {
    hide Pairs, NoTerminator, Ended, Trimmed, HighZero;
    var w, s := Trimmed(alpha), z + tail;
    TrimmedLength(alpha);
    NarrowStart(alpha, z[|w|..] + tail);
    assert s == w + (z[|w|..] + tail);
    PairsEnd(tail, true);
    if IsPair(s, 0, EIGHT, ZERO) {
      PairsShort(s[2..]);
    } else {
      if |alpha| % 4 == 0 { TrimBack(alpha); }
      if NoTerminator(z) { PairsAppend(z, tail, true); }
      else { PairsWithin(z, tail, true); }
    }
  }

  lemma {:induction false} PairsShort(s: text)
    ensures |Pairs(s, false)| <= |s|
    decreases |s|
  {
    if s != [] && !Terminator(s) { PairsShort(From(s, 2)); }
  }

  lemma TextIff(q: seq<byte>, alpha: text, alphaBuf: seq<byte>)
    requires |alpha| >= 4 && |q| >= 28 && |alphaBuf| == 128
    requires var w := AlphaText(alpha, false); |w| <= 26 && q[..28] == w + Fill(28 - |w|)
    ensures ReadName(q, alphaBuf) == alpha <==> Storable(alpha)
  {
    hide Pairs, AlphaOf, Storable, Trimmed, Refilled, CString, Fill;
    var t := NameBytes(AlphaText(alpha, false), alphaBuf);
    if IsPair(alpha, 0, ZERO, ZERO) { NarrowIff(alpha, t); }
    else { WideIff(alpha, t); }
  }

  lemma FullTextIff(q: seq<byte>, alpha: text, alphaBuf: seq<byte>)
    requires |alpha| >= 4 && |q| >= 28 && |alphaBuf| == 128 && |Behind(alphaBuf)| <= 28
    requires var w := AlphaText(alpha, false); 27 <= |w| <= 28 && q[..28] == w + Fill(28 - |w|)
    ensures ReadName(q, alphaBuf) == alpha <==> Storable(alpha) && Ended(Behind(alphaBuf))
  {
    hide Pairs, AlphaOf, Storable, Trimmed, CString, Ended;
    var w, tail := AlphaText(alpha, false), Behind(alphaBuf);
    var f := Fill(28 - |w|);
    CStringAppend(w + f, alphaBuf[28..]);
    if IsPair(alpha, 0, ZERO, ZERO) {
      var z := if |w| == 28 then w else w + [F];
      assert w + f == z;
      FullNarrowIff(alpha, z, tail);
    } else {
      var z := if |w| == 28 then alpha else alpha + [F];
      assert w + f == [EIGHT, ZERO] + z;
      FullWideIff(alpha, z, tail);
    }
  }

  /** A name comes back exactly when it is storable, whatever an earlier record left in the
      static buffer; when it leaves no room for a terminator, exactly when moreover nothing
      is read behind it, of an older name of at most 56 characters. */
  lemma NameIff(r: seq<byte>, alpha: text, code: nat, number: text, alphaBuf: seq<byte>)
    requires Filled(r) && Fits(alpha, code, number) && !Blank(alpha) && |alphaBuf| == 128
    requires HasEnd(alpha, number) || |Behind(alphaBuf)| <= 28
    ensures ReadName(Record(r, alpha, code, number), alphaBuf) == alpha
       <==> Storable(alpha) && (HasEnd(alpha, number) || Ended(Behind(alphaBuf)))
  {
    hide AlphaText, ReadName, Record, Swapped, Storable, Hex2, Writable, Blank, Fill, Ended, Behind;
    RecordFields(r, alpha, code, number);
    NameIsLong(alpha);
    if HasEnd(alpha, number) { TextIff(Record(r, alpha, code, number), alpha, alphaBuf); }
    else { FullTextIff(Record(r, alpha, code, number), alpha, alphaBuf); }
  }

  lemma RecordFields(r: seq<byte>, alpha: text, code: nat, number: text)
    requires Filled(r) && Fits(alpha, code, number)
    ensures |Swapped(number, 0, 0)| <= |Padded(number)| <= 24
    ensures var q, w, s := Record(r, alpha, code, number), AlphaText(Name(alpha, number), Blank(alpha)), Swapped(number, 0, 0);
            q[..28] == w + Fill(28 - |w|) && q[28..30] == Hex2(LengthField(number)) &&
            q[30..32] == Hex2(code) && q[32..56] == s + Fill(24 - |s|)
  {
    hide Splice, AlphaText, Name, Blank, Swapped, Hex2, Writable, Fill;
    SwappedFits(number);
    Layout(r, AlphaText(Name(alpha, number), Blank(alpha)), Hex2(LengthField(number)), Hex2(code), Swapped(number, 0, 0));
  }

  function ReadLength(r: seq<byte>): int
    requires |r| >= 32 && IsHex(r[28]) && IsHex(r[29])
  {
    (Hex2Val(r[28], r[29]) - 1) * 2
  }

  function ReadCode(r: seq<byte>): nat
    requires |r| >= 32 && IsHex(r[30]) && IsHex(r[31])
  {
    Hex2Val(r[30], r[31])
  }

  /** The static number buffer after the field was read into it: a read past the end of
      the data is refused and leaves it alone. */
  function NumberBytes(r: seq<byte>, dataLen: nat, len: int, numberBuf: seq<byte>): seq<byte>
    requires 32 <= dataLen <= |r| && len < 128 == |numberBuf|
  {
    if 0 <= len && 32 + len <= dataLen then Refilled(numberBuf, r[32..32 + len]) else numberBuf
  }

  lemma FieldFilled(q: seq<byte>, s: text, len: nat)
    requires |q| >= 56 && |s| <= len <= 24 && q[32..56] == s + Fill(24 - |s|)
    ensures q[32..32 + len] == s + Fill(len - |s|)
  {
    var a, b := q[32..56], q[32..32 + len];
    assert forall i :: 0 <= i < len ==> b[i] == a[i];
  }

  lemma FieldsBack(r: seq<byte>, alpha: text, code: nat, number: text, numberBuf: seq<byte>)
    requires Filled(r) && Fits(alpha, code, number) && |numberBuf| == 128
    ensures var q := Record(r, alpha, code, number);
            |q| >= 128 && IsHex(q[28]) && IsHex(q[29]) && IsHex(q[30]) && IsHex(q[31]) &&
            ReadCode(q) == code && ReadLength(q) == |Padded(number)| <= 24 &&
            |Swapped(number, 0, 0)| <= |Padded(number)| &&
            NumberBytes(q, 56, ReadLength(q), numberBuf) == NumberField(number) + numberBuf[|Padded(number)|..]
  {
    hide Record, Swapped, Hex2, HexVal, IsHex, AlphaText, Name, Blank, Writable, Fill;
    RecordFields(r, alpha, code, number);
    Hex2RoundTrip(code);
    Hex2RoundTrip(LengthField(number));
    var q := Record(r, alpha, code, number);
    var a, b := q[28..30], q[30..32];
    assert a[0] == q[28] && a[1] == q[29] && b[0] == q[30] && b[1] == q[31];
    var len := |Padded(number)|;
    var s := Swapped(number, 0, 0);
    FieldFilled(q, s, len);
  }

  /** What extract_phone_book stores as the number. */
  function ReadNumber(r: seq<byte>, dataLen: nat, len: int, numberBuf: seq<byte>): text
    requires 32 <= dataLen <= |r| && len < 128 == |numberBuf|
    requires |CString(NumberBytes(r, dataLen, len, numberBuf))| >= 2
  {
    NumberOf(CString(NumberBytes(r, dataLen, len, numberBuf)))
  }

  lemma PaddedWhole(number: text, s: seq<byte>)
    requires number != []
    ensures |Padded(number)| % 2 == 0 && |Padded(number)| >= 2
    ensures |Swapped(number, 0, 0)| <= |Padded(number)|
    ensures CString(NumberField(number) + s) == NumberField(number) + CString(s)
    ensures |NumberField(number)| == |Padded(number)|
  {
    SwappedFits(number);
    CStringAppend(NumberField(number), s);
  }

  /** The record round trip: code and length always come back; name and number do, into
      a zeroed number buffer, exactly when they are storable and sendable. */
  lemma RecordRoundTripIff(r: seq<byte>, alpha: text, code: nat, number: text, alphaBuf: seq<byte>, numberBuf: seq<byte>)
    requires Filled(r) && Fits(alpha, code, number) && !Blank(alpha)
    requires |alphaBuf| == 128 == |numberBuf| && forall i :: 0 <= i < 128 ==> numberBuf[i] == 0
    requires HasEnd(alpha, number) || |Behind(alphaBuf)| <= 28
    ensures var q := Record(r, alpha, code, number);
            IsHex(q[28]) && IsHex(q[29]) && IsHex(q[30]) && IsHex(q[31]) && ReadLength(q) < 128 &&
            |CString(NumberBytes(q, 56, ReadLength(q), numberBuf))| >= 2 &&
            ReadCode(q) == code &&
            (ReadName(q, alphaBuf) == alpha <==>
             Storable(alpha) && (HasEnd(alpha, number) || Ended(Behind(alphaBuf)))) &&
            (ReadNumber(q, 56, ReadLength(q), numberBuf) == number <==> Sendable(number))
  {
    hide Record, Swapped, Hex2, HexVal, IsHex, AlphaText, Name, Blank, Writable, Unswapped, Padded, Fill, Storable, NoPlus;
    FieldsBack(r, alpha, code, number, numberBuf);
    NameIff(r, alpha, code, number, alphaBuf);
    NumberIff(number);
    var len := |Padded(number)|;
    PaddedWhole(number, numberBuf[len..]);
    assert CString(numberBuf[len..]) == [];
    assert NumberField(number) + [] == NumberField(number);
  }

  /** A number read over a longer old one keeps the tail of the old one: it comes back
      exactly when it is sendable and the buffer ends within one character behind it. */
  lemma StaleNumberIff(r: seq<byte>, alpha: text, code: nat, number: text, numberBuf: seq<byte>)
    requires Filled(r) && Fits(alpha, code, number) && |numberBuf| == 128
    ensures var q, len := Record(r, alpha, code, number), |Padded(number)|;
            IsHex(q[28]) && IsHex(q[29]) && ReadLength(q) == len <= 24 &&
            |CString(NumberBytes(q, 56, len, numberBuf))| >= 2 &&
            (ReadNumber(q, 56, len, numberBuf) == number <==>
             Sendable(number) && (numberBuf[len] == 0 || numberBuf[len + 1] == 0))
  {
    hide Record, Swapped, Hex2, HexVal, IsHex, AlphaText, Name, Blank, Writable, Fill, Unswapped, Sendable, Padded, CString, NumberField;
    FieldsBack(r, alpha, code, number, numberBuf);
    PaddedLength(number);
    var stale := numberBuf[|Padded(number)|..];
    PaddedWhole(number, stale);
    ShortString(stale);
    TailIff(number, CString(stale));
  }

  lemma PaddedLength(number: text)
    ensures |number| <= |Padded(number)| <= |number| + 1
  {
  }

  lemma TailIff(number: text, tail: text)
    requires number != [] && |Swapped(number, 0, 0)| <= |Padded(number)|
    ensures |NumberField(number)| >= 2
    ensures NumberOf(NumberField(number) + tail) == number <==> Sendable(number) && |tail| <= 1
  {
    hide Swapped, Fill, Unswapped, Sendable, Padded, NumberField;
    PaddedLength(number);
    PaddedWhole(number, []);
    var f := NumberField(number);
    UnswappedAppend(f, tail);
    UnswappedLength(tail);
    NumberIff(number);
    if |tail| <= 1 {
      assert Unswapped(f) + [] == Unswapped(f);
    }
  }

  lemma ShortString(s: seq<byte>)
    requires |s| >= 2
    ensures |CString(s)| <= 1 <==> s[0] == 0 || s[1] == 0
  {
    assert s[1..][0] == s[1];
  }

  /** The number buffer after an extraction that gave `number`. */
  function Afterwards(buf: seq<byte>, number: text): seq<byte>
    requires |number| < |buf|
  {
    Splice(buf, 0, number + [0])
  }

  /** Nothing but an older number is left in the number buffer. */
  ghost predicate LeftBy(buf: seq<byte>, older: text) {
    && |buf| == 128 && |older| <= 24
    && (forall i :: 0 <= i < |older| ==> buf[i] != 0)
    && (forall i :: |older| <= i < 128 ==> buf[i] == 0)
  }

  lemma ZeroTail(f: text, m: text, zeros: seq<byte>)
    requires |m| <= |f| <= |m| + 1 && |f| <= 24 && LeftBy(zeros, [])
    ensures LeftBy(Afterwards(f + zeros[|f|..], m), m)
  {
  }

  /** An extraction into a zeroed buffer leaves nothing in it but the number returned. */
  lemma FirstLeaves(r: seq<byte>, alpha: text, code: nat, number: text, zeros: seq<byte>)
    requires Filled(r) && Fits(alpha, code, number) && LeftBy(zeros, [])
    ensures var q, len := Record(r, alpha, code, number), |Padded(number)|;
            len <= 24 && |CString(NumberBytes(q, 56, len, zeros))| >= 2 &&
            var first := ReadNumber(q, 56, len, zeros);
            |first| <= 24 && LeftBy(Afterwards(NumberBytes(q, 56, len, zeros), first), first)
  {
    hide Record, Swapped, Hex2, HexVal, IsHex, AlphaText, Name, Blank, Writable, Fill, Unswapped, CString, NumberField, Padded, Afterwards;
    FieldsBack(r, alpha, code, number, zeros);
    PaddedLength(number);
    var len := |Padded(number)|;
    PaddedWhole(number, zeros[len..]);
    NothingInZeros(zeros[len..]);
    var f := NumberField(number);
    assert f + [] == f;
    UnswappedLength(f);
    ZeroTail(f, NumberOf(f), zeros);
  }

  /** A number extracted after another one comes back exactly when it is sendable and the
      number returned before is at most one longer than its digits rounded up to pairs. */
  lemma AfterOlderIff(r: seq<byte>, alpha: text, code: nat, number: text, buf: seq<byte>, older: text)
    requires Filled(r) && Fits(alpha, code, number) && LeftBy(buf, older)
    ensures var q, len := Record(r, alpha, code, number), |Padded(number)|;
            |q| >= 128 && len <= 24 && |CString(NumberBytes(q, 56, len, buf))| >= 2 &&
            (ReadNumber(q, 56, len, buf) == number <==> Sendable(number) && |older| <= len + 1)
  {
    hide Record, Swapped, Hex2, HexVal, IsHex, AlphaText, Name, Blank, Writable, Sendable, CString, Padded;
    StaleNumberIff(r, alpha, code, number, buf);
  }

  lemma NothingInZeros(s: seq<byte>)
    requires s != [] && s[0] == 0
    ensures CString(s) == []
  {
  }

  // ----- a blank name

  ghost predicate AllDigits(number: text) {
    forall i :: 0 <= i < |number| ==> IsDigit(number[i])
  }

  /** The digits as UCS2 hexadecimal. */
  function Spelled(number: text): text {
    if number == [] then [] else Spelled(number[..|number| - 1]) + [ZERO, ZERO, THREE, number[|number| - 1]]
  }

  lemma SpelledNext(number: text, i: nat)
    requires i < |number|
    ensures Spelled(number[..i + 1]) == Spelled(number[..i]) + [ZERO, ZERO, THREE, number[i]]
  {
    assert number[..i + 1][..i] == number[..i];
  }

  lemma CopiedNext(number: text, i: nat, len: nat)
    requires i < len <= |number| && IsDigit(number[i])
    ensures Copied(number, i, i, len) == [THREE, number[i]] + Copied(number, i + 1, i + 1, len)
  {
  }

  lemma WidenNext(c: byte, s: text)
    requires c != 0
    ensures Pairs([THREE, c] + s, true) == [ZERO, ZERO, THREE, c] + Pairs(s, true)
  {
    var t := [THREE, c] + s;
    PairsStep(t, true);
    assert t[2..] == s && t[..2] == [THREE, c];
  }

  lemma NothingCopied(number: text, len: nat)
    requires len <= |number|
    ensures Copied(number, len, len, len) == [] && Pairs([], true) == []
  {
  }

  lemma {:induction false} CopiedDigits(number: text, i: nat, len: nat)
    requires i <= len <= |number| && AllDigits(number)
    ensures |Copied(number, i, i, len)| == 2 * (len - i)
    ensures Spelled(number[..i]) + Pairs(Copied(number, i, i, len), true) == Spelled(number[..len])
    decreases len - i
  {
    hide Copied, Pairs, Spelled;
    if i < len {
      var d := Copied(number, i + 1, i + 1, len);
      CopiedDigits(number, i + 1, len);
      CopiedNext(number, i, len);
      WidenNext(number[i], d);
      SpelledNext(number, i);
      Join(Spelled(number[..i]), [ZERO, ZERO, THREE, number[i]], Pairs(d, true));
    } else {
      NothingCopied(number, len);
      assert Spelled(number[..i]) + [] == Spelled(number[..i]);
    }
  }

  lemma NarrowName(q: seq<byte>, w: text, alphaBuf: seq<byte>)
    requires |q| >= 28 && |alphaBuf| == 128 && |w| <= 26 && q[..28] == w + Fill(28 - |w|)
    requires |w| % 2 == 0 && !IsPair(w, 0, EIGHT, ZERO)
    ensures ReadName(q, alphaBuf) == Pairs(w, true)
  {
    hide Pairs, CString, Refilled, Fill;
    var t := NameBytes(w, alphaBuf);
    PairsStop(w, t, true);
  }

  /** An entry without a name is stored under its number, at most thirteen digits of it. */
  lemma BlankNameIsNumber(r: seq<byte>, alpha: text, code: nat, number: text, alphaBuf: seq<byte>)
    requires Filled(r) && Writable(alpha, code, number) && 1 <= |number| <= 24 && Blank(alpha) && AllDigits(number)
    requires |alphaBuf| == 128
    ensures ReadName(Record(r, alpha, code, number), alphaBuf) == Spelled(number[..Min(|number|, 13)])
  {
    hide Pairs, Record, Blank, Swapped, Hex2, Spelled, Copied, ReadName, Fill, AllDigits;
    var m := Min(|number|, 13);
    var w := Copied(number, 0, 0, m);
    CopiedDigits(number, 0, m);
    FirstCopied(number, m);
    RecordFields(r, alpha, code, number);
    NarrowName(Record(r, alpha, code, number), w, alphaBuf);
    assert number[..0] == [];
    SpelledNone();
    assert [] + Pairs(w, true) == Pairs(w, true);
  }

  lemma FirstCopied(number: text, len: nat)
    requires len <= |number| && AllDigits(number)
    ensures !IsPair(Copied(number, 0, 0, len), 0, EIGHT, ZERO)
  {
  }

  lemma SpelledNone()
    ensures Spelled([]) == []
  {
  }

  // ----- both directions, in place

  lemma ShortName(q: seq<byte>, w: text, alphaBuf: seq<byte>)
    requires |q| >= 28 && |alphaBuf| == 128 && |w| <= 28 && q[..28] == w + Fill(28 - |w|)
    requires |w| <= 26 || Behind(alphaBuf) == []
    ensures |ReadName(q, alphaBuf)| <= 56
  {
    hide Pairs, CString, Refilled, Fill;
    if |w| <= 26 {
      var t := NameBytes(w, alphaBuf);
      var s := w + t;
      var j := (|w| + 1) / 2;
      assert IsPair(s, 2 * j, F, F);
      if IsPair(s, 0, EIGHT, ZERO) {
        assert |w| >= 2;
        assert IsPair(s[2..], 2 * (j - 1), F, F);
        PairsBefore(s[2..], j - 1, false);
      } else {
        PairsBefore(s, j, true);
      }
    } else {
      FullShort(q, w, alphaBuf);
    }
  }

  lemma FullShort(q: seq<byte>, w: text, alphaBuf: seq<byte>)
    requires |q| >= 28 && |alphaBuf| == 128 && |w| <= 28 && q[..28] == w + Fill(28 - |w|)
    requires Behind(alphaBuf) == []
    ensures |ReadName(q, alphaBuf)| <= 56
  {
    hide Pairs, CString;
    var z := w + Fill(28 - |w|);
    CStringAppend(z, alphaBuf[28..]);
    assert z + [] == z;
    PairsShort(z[2..]);
    PairsDouble(z);
  }

  lemma {:induction false} PairsDouble(s: text)
    ensures |Pairs(s, true)| <= 2 * |s| + 2 * (|s| % 2)
    decreases |s|
  {
    if s != [] && !Terminator(s) { PairsDouble(From(s, 2)); }
  }

  lemma RecordIsReadable(r: seq<byte>, alpha: text, code: nat, number: text, alphaBuf: seq<byte>, numberBuf: seq<byte>)
    requires Filled(r) && Fits(alpha, code, number)
    requires |alphaBuf| == 128 == |numberBuf| && forall i :: 24 <= i < 128 ==> numberBuf[i] == 0
    requires HasEnd(alpha, number) || Behind(alphaBuf) == []
    ensures var q := Record(r, alpha, code, number);
            IsHex(q[28]) && IsHex(q[29]) && IsHex(q[30]) && IsHex(q[31]) && 0 <= ReadLength(q) < 128 &&
            PairsFit(ReadName(q, alphaBuf)) &&
            var s := NumberBytes(q, 56, ReadLength(q), numberBuf);
            0 in s && 2 <= |CString(s)| < 64
  {
    hide Record, Swapped, Hex2, HexVal, IsHex, AlphaText, Name, Blank, Writable, Unswapped, Fill, ReadName;
    RecordFields(r, alpha, code, number);
    ShortName(Record(r, alpha, code, number), AlphaText(Name(alpha, number), Blank(alpha)), alphaBuf);
    FieldsBack(r, alpha, code, number, numberBuf);
    var len := |Padded(number)|;
    var s := numberBuf[len..];
    PaddedWhole(number, s);
    ShortBefore(s, 24 - len);
    assert (NumberField(number) + s)[127] == 0;
  }

  lemma {:induction false} ShortBefore(s: seq<byte>, k: nat)
    requires k < |s| && s[k] == 0
    ensures |CString(s)| <= k
  {
    if s[0] != 0 { ShortBefore(s[1..], k - 1); }
  }

  lemma NothingBehind(alphaBuf: seq<byte>)
    requires |alphaBuf| == 128 && alphaBuf[28] == 0
    ensures Behind(alphaBuf) == [] && Ended([])
  {
  }

  /** convert_phone_book and then extract_phone_book, on fresh static buffers. */
  method StoreAndLoad(book: PhoneBook, pb: Entry, back: Entry, buffer: array<byte>)
    requires book.Valid() && buffer != book.alphaBuf && buffer != book.numberBuf && pb != back
    requires forall i :: 0 <= i < 128 ==> book.alphaBuf[i] == 0 && book.numberBuf[i] == 0
    requires Filled(buffer[..]) && Fits(pb.alpha, pb.code, pb.number) && !Blank(pb.alpha)
    modifies pb, back, buffer, book.alphaBuf, book.numberBuf
    ensures back.code == old(pb.code)
    ensures back.alpha == old(pb.alpha) <==> Storable(old(pb.alpha))
    ensures back.number == old(pb.number) <==> Sendable(old(pb.number))
  {
    hide Record, ReadName, ReadNumber, ReadCode, ReadLength, NumberBytes, CString, IsHex, Storable, NoPlus, Splice, Blank, AlphaText;
    ghost var r, alpha, code, number, a, n := buffer[..], pb.alpha, pb.code, pb.number, book.alphaBuf[..], book.numberBuf[..];
    ConvertPhoneBook(pb, buffer);
    NothingBehind(a);
    RecordIsReadable(r, alpha, code, number, a, n);
    RecordRoundTripIff(r, alpha, code, number, a, n);
    assert a[28..][0] == 0;
    book.ExtractPhoneBook(back, buffer, 56);
  }

  lemma ZeroStays(a: seq<byte>, s: seq<byte>, m: text)
    requires |a| == 128 && |s| == 28 && |m| < 64 && forall i :: 64 <= i < 128 ==> a[i] == 0
    ensures var b := Splice(Refilled(a, s), 0, m + [0]); |b| == 128 && 0 in b[28..]
  {
    var b := Splice(Refilled(a, s), 0, m + [0]);
    assert b[28..][99] == b[127] == 0;
  }

  lemma FitsWrites(alpha: text, code: int, number: text)
    requires Fits(alpha, code, number)
    ensures Writable(alpha, code, number)
  {
  }

  /** Two entries stored and loaded one after the other: what the first left in the static
      number buffer shows in the second exactly when it was longer. */
  method StoreAndLoadTwice(book: PhoneBook, one: Entry, two: Entry, back: Entry, buffer1: array<byte>, buffer2: array<byte>)
    returns (seen: text)
    requires book.Valid() && one != back && two != back && one != two && buffer1 != buffer2
    requires {buffer1, buffer2} !! {book.alphaBuf, book.numberBuf}
    requires forall i :: 0 <= i < 128 ==> book.alphaBuf[i] == 0 && book.numberBuf[i] == 0
    requires Filled(buffer1[..]) && Fits(one.alpha, one.code, one.number)
    requires Filled(buffer2[..]) && Fits(two.alpha, two.code, two.number) && HasEnd(two.alpha, two.number)
    modifies one, two, back, buffer1, buffer2, book.alphaBuf, book.numberBuf
    ensures seen == old(one.number) <==> Sendable(old(one.number))
    ensures back.number == old(two.number) <==> Sendable(old(two.number)) && |seen| <= |Padded(old(two.number))| + 1
  {
    hide Record, ReadName, ReadNumber, ReadCode, ReadLength, NumberBytes, CString, IsHex, Sendable, Splice, Blank, AlphaText, Padded, Fits, Writable, Swapped, Refilled;
    ghost var r1, r2, zeros := buffer1[..], buffer2[..], book.numberBuf[..];
    ghost var alpha1, code1, number1 := one.alpha, one.code, one.number;
    ghost var alpha2, code2, number2 := two.alpha, two.code, two.number;
    FitsWrites(alpha1, code1, number1);
    FitsWrites(alpha2, code2, number2);
    FieldsBack(r1, alpha1, code1, number1, zeros);
    FieldsBack(r2, alpha2, code2, number2, zeros);
    FirstLeaves(r1, alpha1, code1, number1, zeros);
    StaleNumberIff(r1, alpha1, code1, number1, zeros);
    ConvertPhoneBook(one, buffer1);
    NothingBehind(book.alphaBuf[..]);
    RecordIsReadable(r1, alpha1, code1, number1, book.alphaBuf[..], zeros);
    assert book.alphaBuf[28..][0] == 0;
    ghost var a := book.alphaBuf[..];
    book.ExtractPhoneBook(back, buffer1, 56);
    ZeroStays(a, buffer1[..28], back.alpha);
    seen := back.number;
    ConvertPhoneBook(two, buffer2);
    AfterOlderIff(r2, alpha2, code2, number2, book.numberBuf[..], seen);
    RecordIsReadable(r2, alpha2, code2, number2, book.alphaBuf[..], book.numberBuf[..]);
    book.ExtractPhoneBook(back, buffer2, 56);
  }

  // ----- what does not come back

  /** The bytes of a string of 7-bit characters. */
  function Codes(s: string): (t: text)
    requires forall i :: 0 <= i < |s| ==> 0 < s[i] as int < 128
    ensures |t| == |s| && forall i :: 0 <= i < |s| ==> t[i] == s[i] as int
  {
    if s == [] then [] else [s[0] as int] + Codes(s[1..])
  }

  /** An international number, and an even one that ends in 'F'. */
  lemma NumbersLost()
    ensures NumberOf(NumberField(Codes("+123"))) != Codes("+123")
    ensures NumberOf(NumberField(Codes("1F"))) != Codes("1F")
  {
    hide NumberOf, NumberField;
    var a, b := Codes("+123"), Codes("1F");
    NumberIff(a);
    NumberIff(b);
    assert a[0] == PLUS && b[1] == F;
  }

  /** A Latin and a Chinese character. */
  function MixedName(): text {
    Codes("00414E2D")
  }

  function SomeNumber(): (t: text)
    ensures |t| == 3
  {
    Codes("123")
  }

  lemma MixedFits()
    ensures var alpha := MixedName();
            Fits(alpha, 129, SomeNumber()) && HasEnd(alpha, SomeNumber()) && !Blank(alpha) && !Storable(alpha)
  {
    hide Trimmed, SomeNumber;
    var alpha := MixedName();
    assert !BlankUnit(alpha, 0);
    TrimBack(alpha);
    assert !IsPair(alpha, 4 * 1, ZERO, ZERO);
  }

  /** The high byte of the second character is lost. */
  lemma MixedNameLost(r: seq<byte>, alphaBuf: seq<byte>)
    requires Filled(r) && |alphaBuf| == 128
    ensures Fits(MixedName(), 129, SomeNumber())
    ensures ReadName(Record(r, MixedName(), 129, SomeNumber()), alphaBuf) != MixedName()
  {
    hide ReadName, Record, MixedName, SomeNumber, Fits, HasEnd, Storable, Blank;
    MixedFits();
    NameIff(r, MixedName(), 129, SomeNumber(), alphaBuf);
  }

  /** Fourteen units of 'A'. */
  function FullName(): (alpha: text)
    ensures |alpha| == 56
    ensures forall k :: 0 <= k < 14 ==> IsPair(alpha, 4 * k, ZERO, ZERO) && IsPair(alpha, 4 * k + 2, '4' as int, '1' as int)
  {
    seq(56, i requires 0 <= i < 56 => if i % 4 < 2 then ZERO else if i % 4 == 2 then '4' as int else '1' as int)
  }

  lemma FullNameFits()
    ensures Fits(FullName(), 129, SomeNumber()) && !HasEnd(FullName(), SomeNumber()) && !Blank(FullName())
  {
    hide Trimmed, HighZero, NoTerminator, Pairs, FullName, SomeNumber;
    var alpha := FullName();
    assert IsPair(alpha, 4 * 0, ZERO, ZERO) && IsPair(alpha, 4 * 0 + 2, '4' as int, '1' as int);
    assert !BlankUnit(alpha, 0);
    TrimBack(alpha);
  }

  /** A name that fills its field takes in two characters left by an older one. */
  lemma FullNameGrows(r: seq<byte>, alphaBuf: seq<byte>)
    requires Filled(r) && |alphaBuf| == 128 && Behind(alphaBuf) == Codes("41")
    ensures Fits(FullName(), 129, SomeNumber())
    ensures ReadName(Record(r, FullName(), 129, SomeNumber()), alphaBuf) != FullName()
  {
    hide ReadName, Record, FullName, SomeNumber, Fits, HasEnd, Storable, Blank, Behind;
    FullNameFits();
    NameIff(r, FullName(), 129, SomeNumber(), alphaBuf);
  }

  method EntryOf(alpha: text, number: text) returns (e: Entry)
    ensures fresh(e) && e.alpha == alpha && e.number == number && e.code == 129
  {
    e := new Entry();
    e.alpha, e.code, e.number := alpha, 129, number;
  }

  method EmptyRecord() returns (buffer: array<byte>)
    ensures fresh(buffer) && Filled(buffer[..])
  {
    buffer := new byte[420](i => if 0 <= i < 56 then F else 0);
  }

  /** The digit '1', `n` times. */
  function Ones(n: nat): (t: text)
    ensures |t| == n && forall i :: 0 <= i < n ==> t[i] == '1' as int
  {
    seq(n, i => '1' as int)
  }

  lemma OnesFit(n: nat)
    requires 1 <= n <= 24
    ensures Fits(Codes("0041"), 129, Ones(n)) && HasEnd(Codes("0041"), Ones(n)) && Sendable(Ones(n))
  {
    hide Trimmed;
    var alpha := Codes("0041");
    assert !BlankUnit(alpha, 0);
    TrimBack(alpha);
  }

  /** A ten-digit number loaded after one of twenty-four digits does not come back. */
  method StaleNumberHappens() returns (seen: text, got: text)
    ensures seen == Ones(24) && got != Ones(10)
  {
    hide Fits, HasEnd, Sendable, Filled, Codes;
    OnesFit(24);
    OnesFit(10);
    var book := new PhoneBook();
    var one := EntryOf(Codes("0041"), Ones(24));
    var two := EntryOf(Codes("0041"), Ones(10));
    var back := new Entry();
    var buffer1 := EmptyRecord();
    var buffer2 := EmptyRecord();
    seen := StoreAndLoadTwice(book, one, two, back, buffer1, buffer2);
    got := back.number;
  }
}
