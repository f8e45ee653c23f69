/** Text in the GSM 7-bit alphabet: utf8_to_gsm7 and utf8_from_gsm7 of helper/gsm.c. */
module Gsm7 {
  import opened Bits
  import opened Basics
  import opened Septets
  import opened Utf8

  const ESCAPE := 0x1B

  /** gsm7bits_to_unicode, as it stands in the source. */
  function DefaultChar(n: nat): nat
    requires n < 128
  {
    match n
    case 0x00 => 0x40 case 0x01 => 0xA3 case 0x02 => 0x24 case 0x03 => 0xA5
    case 0x04 => 0xE8 case 0x05 => 0xE9 case 0x06 => 0xF9 case 0x07 => 0xEC
    case 0x08 => 0xF2 case 0x09 => 0xC7 case 0x0B => 0xD8 case 0x0C => 0xF8
    case 0x0E => 0xC5 case 0x0F => 0xE5
    case 0x10 => 0x394 case 0x11 => 0x5F case 0x12 => 0x3A6 case 0x13 => 0x393
    case 0x14 => 0x39B case 0x15 => 0x3A9 case 0x16 => 0x3A0 case 0x17 => 0x3A8
    case 0x18 => 0x3A3 case 0x19 => 0x398 case 0x1A => 0x39E case 0x1B => 0
    case 0x1C => 0xC6 case 0x1D => 0xE6 case 0x1E => 0xDF case 0x1F => 0xC9
    case 0x24 => 0xA4 case 0x40 => 0xA1
    case 0x5B => 0xC4 case 0x5C => 0xD6 case 0x5D => 0x147 case 0x5E => 0xDC case 0x5F => 0xA7
    case 0x60 => 0xBF
    case 0x7B => 0xE4 case 0x7C => 0xF6 case 0x7D => 0xF1 case 0x7E => 0xFC case 0x7F => 0xE0
    case _ => n
  }

  /** gsm7bits_extend_to_unicode. */
  function ExtendChar(n: nat): nat
    requires n < 128
  {
    match n
    case 0x0A => 0x0C case 0x14 => 0x5E case 0x28 => 0x7B case 0x29 => 0x7D case 0x2F => 0x5C
    case 0x3C => 0x5B case 0x3D => 0x7E case 0x3E => 0x5D case 0x40 => 0x7C case 0x65 => 0x20AC
    case _ => 0
  }

  function DefaultTable(): seq<nat> {
    seq(128, n requires 0 <= n < 128 => DefaultChar(n))
  }

  function ExtendTable(): seq<nat> {
    seq(128, n requires 0 <= n < 128 => ExtendChar(n))
  }

  /** Text whose bytes are its characters. */
  predicate Ascii(text: seq<byte>) {
    forall i :: 0 <= i < |text| ==> text[i] < 128
  }

  /** One septet in the default alphabet. */
  predicate Single(c: byte) {
    FirstIndex(DefaultTable(), c) >= 0
  }

  /** An escape and a septet of the extension table. */
  predicate Extended(c: byte) {
    !Single(c) && FirstIndex(ExtendTable(), c) >= 0
  }

  function CharSeptets(c: byte): (ss: seq<nat>)
    ensures AllSeptets(ss) && 1 <= |ss| <= 2
    ensures |ss| == if Extended(c) then 2 else 1
  {
    var n, e := FirstIndex(DefaultTable(), c), FirstIndex(ExtendTable(), c);
    if n >= 0 then [n]
    else if e >= 0 then [ESCAPE, e]
    else [0x20]
  }

  /** What utf8_to_gsm7 packs. */
  function TextSeptets(text: seq<byte>): (ss: seq<nat>)
    ensures AllSeptets(ss)
  {
    if text == [] then [] else TextSeptets(text[..|text| - 1]) + CharSeptets(text[|text| - 1])
  }

  // ----- encoding

  /** unichar_to_gsm7_count, with the replacement of utf8_to_gsm7_count. */
  method CharCount(c: byte) returns (len: nat)
    ensures len == |CharSeptets(c)|
  {
    len := 1;
    var nn := Scan(DefaultTable(), c);
    if nn < 0 {
      nn := Scan(ExtendTable(), c);
      if nn >= 0 {
        len := 2;
      }
    }
  }

  method CountSeptets(utf8: seq<byte>) returns (result: nat)
    requires Ascii(utf8)
    ensures result == |TextSeptets(utf8)|
  {
    hide CharSeptets;
    result := 0;
    var i := 0;
    while i < |utf8|
      invariant i <= |utf8| && result == |TextSeptets(utf8[..i])|
    {
      assert utf8[..i + 1][..i] == utf8[..i];
      var len := CharCount(utf8[i]);
      result := result + len;
      i := i + 1;
    }
    assert utf8[..i] == utf8;
  }

  /** utf8_check_gsm7. */
  method CheckGsm7(utf8: seq<byte>) returns (ok: bool)
    requires Ascii(utf8)
    ensures ok == forall i :: 0 <= i < |utf8| ==> Single(utf8[i]) || Extended(utf8[i])
  {
    var i := 0;
    while i < |utf8|
      invariant i <= |utf8|
      invariant forall k :: 0 <= k < i ==> Single(utf8[k]) || Extended(utf8[k])
    {
      var nn := Scan(DefaultTable(), utf8[i]);
      if nn < 0 {
        nn := Scan(ExtendTable(), utf8[i]);
        if nn < 0 {
          assert !Single(utf8[i]) && !Extended(utf8[i]);
          return false;
        }
      }
      i := i + 1;
    }
    return true;
  }

  lemma SeptetBitsSnoc(ss: seq<nat>, c: nat)
    ensures SeptetBits(ss + [c]) == SeptetBits(ss) + ToBits(c, 7)
  {
    hide ToBits;
    assert (ss + [c])[..|ss|] == ss;
  }

  lemma {:induction false} TextSeptetsPrefix(text: seq<byte>, i: nat)
    requires i <= |text|
    ensures |TextSeptets(text[..i])| <= |TextSeptets(text)|
    decreases |text|
  {
    if i < |text| {
      TextSeptetsPrefix(text[..|text| - 1], i);
      assert text[..|text| - 1][..i] == text[..i];
    } else {
      assert text[..i] == text;
    }
  }

  /** Packs the septets of `utf8` at bit `offset`; the bits before it and the
      bytes after the last one written are kept. */
  method ToGsm7(utf8: seq<byte>, dst: array<byte>, offset: nat) returns (end: nat)
    requires Ascii(utf8) && offset + 7 * |TextSeptets(utf8)| <= 8 * dst.Length
    modifies dst
    ensures end == offset + 7 * |TextSeptets(utf8)|
    ensures ByteBits(dst[..(end + 7) / 8])
         == ByteBits(old(dst[..]))[..offset] + SeptetBits(TextSeptets(utf8)) + Zeros(8 * ((end + 7) / 8) - end)
    ensures forall k :: (end + 7) / 8 <= k < dst.Length ==> dst[k] == old(dst[k])
  {
    hide ByteBits;
    hide SeptetBits;
    hide ToBits;
    hide CharSeptets;
    hide TextSeptets;
    ghost var before := ByteBits(dst[..])[..offset];
    var writer := new BWriter(dst, offset);
    TextSeptetsEmpty();
    assert utf8[..0] == [];
    Septets.Reassociate(before, [], []);
    var i := 0;
    while i < |utf8|
      invariant i <= |utf8|
      invariant fresh(writer) && writer.Valid() && writer.buf == dst
      invariant writer.offset == offset + 7 * |TextSeptets(utf8[..i])|
      invariant writer.Content() == before + SeptetBits(TextSeptets(utf8[..i]))
      invariant forall k :: writer.dst <= k < dst.Length ==> dst[k] == old(dst[k])
    {
      TextSeptetsStep(utf8, i);
      TextSeptetsPrefix(utf8, i + 1);
      AddChar(writer, utf8[i], before, TextSeptets(utf8[..i]));
      i := i + 1;
    }
    assert utf8[..i] == utf8;
    end := writer.Done();
  }

  lemma TextSeptetsEmpty()
    ensures TextSeptets([]) == [] && SeptetBits([]) == []
  {
  }

  lemma TextSeptetsStep(utf8: seq<byte>, i: nat)
    requires i < |utf8|
    ensures TextSeptets(utf8[..i + 1]) == TextSeptets(utf8[..i]) + CharSeptets(utf8[i])
  {
    hide CharSeptets;
    assert utf8[..i + 1][..i] == utf8[..i];
  }

  /** The loop body of utf8_to_gsm7. */
  method AddChar(writer: BWriter, c: byte, ghost before: seq<bool>, ghost ss: seq<nat>)
    requires writer.Valid() && writer.offset + 7 * |CharSeptets(c)| <= 8 * writer.buf.Length
    requires writer.Content() == before + SeptetBits(ss)
    modifies writer, writer.buf
    ensures writer.Valid() && writer.buf == old(writer.buf)
    ensures writer.offset == old(writer.offset) + 7 * |CharSeptets(c)|
    ensures writer.Content() == before + SeptetBits(ss + CharSeptets(c))
    ensures forall k :: writer.dst <= k < writer.buf.Length ==> writer.buf[k] == old(writer.buf[k])
  {
    hide ByteBits;
    hide SeptetBits;
    hide ToBits;
    var nn := Scan(DefaultTable(), c);
    if nn >= 0 {
      AddSeptet(writer, nn, before, ss);
      return;
    }
    nn := Scan(ExtendTable(), c);
    if nn >= 0 {
      AddSeptet(writer, ESCAPE, before, ss);
      AddSeptet(writer, nn, before, ss + [ESCAPE]);
      assert ss + [ESCAPE] + [nn] == ss + CharSeptets(c);
      return;
    }
    AddSeptet(writer, 0x20, before, ss);
  }

  method AddSeptet(writer: BWriter, c: nat, ghost before: seq<bool>, ghost ss: seq<nat>)
    requires writer.Valid() && c < 128 && writer.offset + 7 <= 8 * writer.buf.Length
    requires writer.Content() == before + SeptetBits(ss)
    modifies writer, writer.buf
    ensures writer.Valid() && writer.buf == old(writer.buf)
    ensures writer.offset == old(writer.offset) + 7
    ensures writer.Content() == before + SeptetBits(ss + [c])
    ensures forall k :: writer.dst <= k < writer.buf.Length ==> writer.buf[k] == old(writer.buf[k])
  {
    hide ByteBits;
    hide SeptetBits;
    hide ToBits;
    writer.Add7(c);
    SeptetBitsSnoc(ss, c);
    Septets.Reassociate(before, SeptetBits(ss), ToBits(c, 7));
  }

  // ----- decoding

  /** utf8_from_gsm7's interpretation: once set, `escaped` is never cleared. */
  function Decode(ss: seq<nat>, escaped: bool): seq<byte>
    requires AllSeptets(ss)
  {
    if ss == [] then []
    else if escaped then Encode(ExtendChar(ss[0])) + Decode(ss[1..], true)
    else if ss[0] == ESCAPE then Decode(ss[1..], true)
    else Encode(DefaultChar(ss[0])) + Decode(ss[1..], false)
  }

  method FromGsm7(src: seq<byte>, septetOffset: nat, septetCount: nat, utf8: array?<byte>, at: nat)
    returns (result: nat)
    requires septetOffset + 7 * septetCount <= 8 * |src|
    requires utf8 != null ==> at + |Decode(SeptetsAt(src, septetOffset, septetCount), false)| <= utf8.Length
    modifies utf8
    ensures result == |Decode(SeptetsAt(src, septetOffset, septetCount), false)|
    ensures utf8 != null ==>
      utf8[..] == Splice(old(utf8[..]), at, Decode(SeptetsAt(src, septetOffset, septetCount), false))
  {
    hide SeptetAt;
    hide Encode;
    hide Splice;
    hide DefaultChar;
    hide ExtendChar;
    ghost var ss := SeptetsAt(src, septetOffset, septetCount);
    ghost var all := Decode(ss, false);
    ghost var out: seq<byte> := [];
    if utf8 != null { SpliceNothing(utf8[..], at); }
    var shift := septetOffset % 8;
    var escaped := false;
    result := 0;
    var i := septetOffset / 8;
    var n := septetCount;
    assert ss[0..] == ss;
    assert [] + all == all;
    while n > 0
      invariant 0 <= n <= septetCount && 0 <= shift < 8 && 0 <= i
      invariant 8 * i + shift == septetOffset + 7 * (septetCount - n)
      invariant out + Decode(ss[septetCount - n..], escaped) == all && result == |out|
      invariant utf8 != null ==> utf8[..] == Splice(old(utf8[..]), at, out)
      decreases n
    {
      ghost var rest := ss[septetCount - n..];
      assert rest[0] == SeptetAt(src, 8 * i + shift) && rest[1..] == ss[septetCount - n + 1..];
      DecodeStep(rest, escaped);
      var c := ReadSeptet(src, i, shift);
      if !escaped && c == ESCAPE {
        escaped := true;
      } else {
        var v := if escaped then ExtendChar(c) else DefaultChar(c);
        ghost var after := Decode(rest[1..], escaped);
        assert out + (Encode(v) + after) == out + Encode(v) + after;
        if utf8 != null {
          SpliceSplice(old(utf8[..]), at, out, Encode(v));
        }
        var k := Write(utf8, at + result, v);
        out := out + Encode(v);
        result := result + k;
      }
      shift := shift + 7;
      if shift >= 8 {
        shift := shift - 8;
        i := i + 1;
      }
      n := n - 1;
    }
    assert out + [] == out;
  }

  lemma DecodeStep(ss: seq<nat>, escaped: bool)
    requires AllSeptets(ss) && ss != []
    ensures Decode(ss, escaped) ==
      if escaped then Encode(ExtendChar(ss[0])) + Decode(ss[1..], true)
      else if ss[0] == ESCAPE then Decode(ss[1..], true)
      else Encode(DefaultChar(ss[0])) + Decode(ss[1..], false)
  {
  }

  /** Every decoded text passes utf8_check. */
  lemma {:induction false} DecodeWellFormed(ss: seq<nat>, escaped: bool)
    requires AllSeptets(ss)
    ensures WellFormed(Decode(ss, escaped))
  {
    hide Encode;
    hide DefaultChar;
    hide ExtendChar;
    hide WellFormed;
    if ss == [] {
      EncodeAllWellFormed([]);
    } else {
      DecodeWellFormed(ss[1..], escaped || ss[0] == ESCAPE);
      if escaped || ss[0] != ESCAPE {
        var v := if escaped then ExtendChar(ss[0]) else DefaultChar(ss[0]);
        EncodeWellFormed(v);
        WellFormedAppend(Encode(v), Decode(ss[1..], escaped));
      }
    }
  }

  // ----- round trip

  lemma {:induction false} DecodeAppend(a: seq<nat>, b: seq<nat>)
    requires AllSeptets(a) && AllSeptets(b) && ESCAPE !in a
    ensures Decode(a + b, false) == Decode(a, false) + Decode(b, false)
    decreases |a|
  {
    hide Encode;
    hide DefaultChar;
    hide ExtendChar;
    if a == [] {
      assert a + b == b;
    } else {
      assert (a + b)[1..] == a[1..] + b && a[0] in a;
      DecodeAppend(a[1..], b);
      DecodeStep(a + b, false);
    }
  }

  /** A default-alphabet character other than NUL is one septet that means it. */
  lemma SingleMeans(c: byte)
    requires Single(c) && 0 < c < 128
    ensures ESCAPE !in CharSeptets(c) && Decode(CharSeptets(c), false) == [c]
  {
    var n := FirstIndex(DefaultTable(), c);
    assert DefaultChar(n) == c && DefaultChar(ESCAPE) == 0;
    assert CharSeptets(c)[1..] == [];
  }

  lemma ExtendedMeans(c: byte)
    requires Extended(c) && c < 128
    ensures Decode(CharSeptets(c), false) == [c]
  {
    var e := FirstIndex(ExtendTable(), c);
    assert ExtendChar(e) == c;
    assert CharSeptets(c)[1..] == [e];
    DecodeStep(CharSeptets(c), false);
    DecodeStep([e], true);
    assert [e][1..] == [] && Encode(c) + [] == [c];
  }

  lemma {:induction false} PlainText(text: seq<byte>)
    requires forall i :: 0 <= i < |text| ==> Single(text[i]) && 0 < text[i] < 128
    ensures ESCAPE !in TextSeptets(text) && |TextSeptets(text)| == |text|
    ensures Decode(TextSeptets(text), false) == text
  {
    hide Single;
    hide CharSeptets;
    hide Decode;
    if text == [] {
      DecodeNothing();
    } else {
      var n := |text| - 1;
      PlainText(text[..n]);
      SingleIsOne(text[n]);
      SingleMeans(text[n]);
      DecodeAppend(TextSeptets(text[..n]), CharSeptets(text[n]));
      assert text == text[..n] + [text[n]];
    }
  }

  lemma SingleIsOne(c: byte)
    ensures Single(c) ==> |CharSeptets(c)| == 1
  {
  }

  lemma DecodeNothing()
    ensures Decode([], false) == []
  {
  }

  /** Default alphabet throughout, with an extension character allowed last. */
  predicate Transparent(text: seq<byte>) {
    forall i :: 0 <= i < |text| ==> Single(text[i]) || (i == |text| - 1 && Extended(text[i]))
  }

  lemma {:induction false} TextSeptetsAppend(a: seq<byte>, b: seq<byte>)
    ensures TextSeptets(a + b) == TextSeptets(a) + TextSeptets(b)
    decreases |b|
  {
    hide CharSeptets;
    hide TextSeptets;
    if b == [] {
      TextSeptetsEmpty();
      assert a + b == a;
    } else {
      var n := |b| - 1;
      TextSeptetsAppend(a, b[..n]);
      assert (a + b)[..|a + b| - 1] == a + b[..n];
      TextSeptetsLast(a + b);
      TextSeptetsLast(b);
    }
  }

  lemma TextSeptetsLast(text: seq<byte>)
    requires text != []
    ensures TextSeptets(text) == TextSeptets(text[..|text| - 1]) + CharSeptets(text[|text| - 1])
  {
    hide CharSeptets;
  }

  lemma TextSeptetsCons(c: byte, b: seq<byte>)
    ensures TextSeptets([c] + b) == CharSeptets(c) + TextSeptets(b)
  {
    hide CharSeptets;
    hide TextSeptets;
    TextSeptetsAppend([c], b);
    TextSeptetsEmpty();
    TextSeptetsLast([c]);
    assert [c][..0] == [];
  }

  /** After an escape no character is read back as itself. */
  lemma EscapedDiffers(d: byte, rest: seq<nat>)
    requires 0 < d < 128 && AllSeptets(rest)
    ensures Decode(CharSeptets(d) + rest, true) != [] && Decode(CharSeptets(d) + rest, true)[0] != d
  {
    hide DefaultChar;
    hide ExtendChar;
    hide Encode;
    hide CharSeptets;
    var ss := CharSeptets(d) + rest;
    assert ss[0] == CharSeptets(d)[0];
    FirstSeptet(d);
    EncodeFirst(ExtendChar(ss[0]));
    DecodeStep(ss, true);
  }

  lemma FirstSeptet(d: byte)
    requires 0 < d < 128
    ensures ExtendChar(CharSeptets(d)[0]) != d
  {
    var x := CharSeptets(d)[0];
    if Single(d) {
      assert x == FirstIndex(DefaultTable(), d);
      assert DefaultChar(x) == d by { hide DefaultChar; }
      TablesDiffer(x);
    } else {
      assert x == ESCAPE || x == 0x20;
    }
  }

  lemma TablesDiffer(x: nat)
    requires x < 128
    ensures ExtendChar(x) == DefaultChar(x) ==> DefaultChar(x) == 0
  {
  }

  lemma EncodeFirst(v: nat)
    ensures if v < 128 then Encode(v)[0] == v else Encode(v)[0] >= 128
  {
  }

  /** The text before the first character that is not transparent survives; from
      there on it is damaged. */
  lemma BadCharacter(text: seq<byte>, i: nat)
    requires forall k :: 0 <= k < |text| ==> 0 < text[k] < 128
    requires i < |text| && forall k :: 0 <= k < i ==> Single(text[k])
    requires !Single(text[i]) && !(i == |text| - 1 && Extended(text[i]))
    ensures Decode(TextSeptets(text), false) != text
  {
    hide *;
    var t, c, rest := text[..i], text[i], text[i + 1..];
    var ss := CharSeptets(c) + TextSeptets(rest);
    assert text == t + ([c] + rest);
    PlainText(t);
    TextSeptetsAppend(t, [c] + rest);
    TextSeptetsCons(c, rest);
    DecodeAppend(TextSeptets(t), ss);
    BadTail(c, rest);
    DifferAfter(t, Decode(ss, false), [c] + rest);
  }

  lemma DifferAfter(t: seq<byte>, a: seq<byte>, b: seq<byte>)
    requires a != b
    ensures t + a != t + b
  {
    assert (t + a)[|t|..] == a && (t + b)[|t|..] == b;
  }

  lemma BadTail(c: byte, rest: seq<byte>)
    requires 0 < c < 128 && (forall k :: 0 <= k < |rest| ==> 0 < rest[k] < 128)
    requires !Single(c) && !(rest == [] && Extended(c))
    ensures Decode(CharSeptets(c) + TextSeptets(rest), false) != [c] + rest
  {
    hide Single;
    hide Extended;
    hide CharSeptets;
    hide Decode;
    hide TextSeptets;
    if Extended(c) {
      ExtendedTail(c, TextSeptets(rest));
      DamagedRest(rest);
      DifferAfter([c], Decode(TextSeptets(rest), true), rest);
    } else {
      UnknownTail(c, TextSeptets(rest), rest);
    }
  }

  lemma UnknownTail(c: byte, ss: seq<nat>, rest: seq<byte>)
    requires 0 < c < 128 && !Single(c) && !Extended(c) && AllSeptets(ss)
    ensures Decode(CharSeptets(c) + ss, false) != [c] + rest
  {
    hide DefaultChar;
    hide ExtendChar;
    hide Encode;
    hide Decode;
    var all := CharSeptets(c) + ss;
    var tail := Decode(all[1..], false);
    assert all[0] == 0x20 != ESCAPE;
    DecodeStep(all, false);
    SpaceIsSingle();
    AsciiOne(0x20);
    assert Decode(all, false) == [0x20] + tail;
    assert ([0x20] + tail)[0] == 0x20 && ([c] + rest)[0] == c;
  }

  lemma DamagedRest(rest: seq<byte>)
    requires rest != [] && forall k :: 0 <= k < |rest| ==> 0 < rest[k] < 128
    ensures Decode(TextSeptets(rest), true) != rest
  {
    hide CharSeptets;
    hide Decode;
    hide TextSeptets;
    var d, r := rest[0], rest[1..];
    assert rest == [d] + r;
    TextSeptetsCons(d, r);
    EscapedDiffers(d, TextSeptets(r));
  }

  lemma ExtendedTail(c: byte, rest: seq<nat>)
    requires Extended(c) && c < 128 && AllSeptets(rest)
    ensures Decode(CharSeptets(c) + rest, false) == [c] + Decode(rest, true)
  {
    hide DefaultChar;
    var e, ss := FirstIndex(ExtendTable(), c), CharSeptets(c) + rest;
    assert ExtendChar(e) == c by { hide ExtendChar; }
    hide Encode;
    assert ss[1..] == [e] + rest && ss[1..][1..] == rest;
    DecodeStep(ss, false);
    DecodeStep(ss[1..], true);
    AsciiOne(c);
  }

  lemma AsciiOne(c: byte)
    requires c < 128
    ensures Encode(c) == [c]
  {
  }

  lemma SpaceIsSingle()
    ensures DefaultChar(0x20) == 0x20 && Single(0x20)
  {
    assert DefaultTable()[0x20] == 0x20;
  }

  /** utf8_from_gsm7 undoes utf8_to_gsm7 exactly on transparent text. */
  lemma GsmRoundTripIff(text: seq<byte>)
    requires forall k :: 0 <= k < |text| ==> 0 < text[k] < 128
    ensures Decode(TextSeptets(text), false) == text <==> Transparent(text)
  {
    hide Single;
    hide Extended;
    hide CharSeptets;
    hide Decode;
    hide TextSeptets;
    var n := |text| - 1;
    if !Transparent(text) {
      var i := FirstBad(text);
      BadCharacter(text, i);
    } else if text == [] {
      TextSeptetsEmpty();
      DecodeNothing();
    } else if Single(text[n]) {
      PlainText(text);
    } else {
      PlainText(text[..n]);
      ExtendedMeans(text[n]);
      DecodeAppend(TextSeptets(text[..n]), CharSeptets(text[n]));
      TextSeptetsLast(text);
      assert text == text[..n] + [text[n]];
    }
  }

  lemma FirstBad(text: seq<byte>) returns (i: nat)
    requires !Transparent(text)
    ensures i < |text| && (forall k :: 0 <= k < i ==> Single(text[k]))
    ensures !Single(text[i]) && !(i == |text| - 1 && Extended(text[i]))
  {
    hide Single;
    hide Extended;
    i := 0;
    while i < |text| && Single(text[i])
      invariant i <= |text|
      invariant forall k :: 0 <= k < i ==> Single(text[k])
    {
      i := i + 1;
    }
  }

  // ----- text that does not come back

  lemma Brace()
    ensures !Single('{' as int) && Extended('{' as int) && Single('a' as int)
  {
    assert ExtendTable()[0x28] == DefaultTable()[0x61] + 26;
    assert forall n :: 0 <= n < 128 ==> DefaultTable()[n] == DefaultChar(n) != '{' as int;
  }

  /** A brace followed by a letter: the letter is read in the extension table too. */
  lemma BraceDamagesRest()
    ensures var text: seq<byte> := ['{' as int, 'a' as int]; Decode(TextSeptets(text), false) != text
  {
    hide Decode, TextSeptets, Single, Extended;
    Brace();
    var text: seq<byte> := ['{' as int, 'a' as int];
    GsmRoundTripIff(text);
    assert !Single(text[0]);
  }

  // ----- the tables against the standard

  /** The default alphabet of section 6.2.1 of 3GPP TS 23.038, sixteen characters a row. */
  function StandardRow(k: nat): (row: string)
    requires k < 8
    ensures |row| == 16
  {
    match k
    case 0 => "@\U{A3}$\U{A5}\U{E8}\U{E9}\U{F9}\U{EC}\U{F2}\U{C7}\n\U{D8}\U{F8}\r\U{C5}\U{E5}"
    case 1 => "\U{394}_\U{3A6}\U{393}\U{39B}\U{3A9}\U{3A0}\U{3A8}\U{3A3}\U{398}\U{39E}\U{1B}\U{C6}\U{E6}\U{DF}\U{C9}"
    case 2 => " !\"#\U{A4}%&\'()*+,-./"
    case 3 => "0123456789:;<=>?"
    case 4 => "\U{A1}ABCDEFGHIJKLMNO"
    case 5 => "PQRSTUVWXYZ\U{C4}\U{D6}\U{D1}\U{DC}\U{A7}"
    case 6 => "\U{BF}abcdefghijklmno"
    case _ => "pqrstuvwxyz\U{E4}\U{F6}\U{F1}\U{FC}\U{E0}"
  }

  /** The table of the source is the standard's, but for the escape, which stands for NUL,
      and for code 0x5D, where the standard has U+00D1. */
  lemma TableIsStandard(k: nat, i: nat)
    requires k < 8 && i < 16
    ensures var n := 16 * k + i;
            DefaultChar(n) == if n == 0x1B then 0 else if n == 0x5D then 0x147 else StandardRow(k)[i] as int
  {
    match k
    case 0 => Row0(i);
    case 1 => Row1(i);
    case 2 => Row2(i);
    case 3 => Row3(i);
    case 4 => Row4(i);
    case 5 => Row5(i);
    case 6 => Row6(i);
    case 7 => Row7(i);
  }

  lemma Row0(i: nat)
    requires i < 16
    ensures var n := 0 + i; DefaultChar(n) == StandardRow(0)[i] as int
  {
  }

  lemma Row1(i: nat)
    requires i < 16
    ensures var n := 16 + i; DefaultChar(n) == if n == 0x1B then 0 else StandardRow(1)[i] as int
  {
  }

  lemma Row2(i: nat)
    requires i < 16
    ensures var n := 32 + i; DefaultChar(n) == StandardRow(2)[i] as int
  {
  }

  lemma Row3(i: nat)
    requires i < 16
    ensures var n := 48 + i; DefaultChar(n) == StandardRow(3)[i] as int
  {
  }

  lemma Row4(i: nat)
    requires i < 16
    ensures var n := 64 + i; DefaultChar(n) == StandardRow(4)[i] as int
  {
  }

  lemma Row5(i: nat)
    requires i < 16
    ensures var n := 80 + i; DefaultChar(n) == if n == 0x5D then 0x147 else StandardRow(5)[i] as int
  {
  }

  lemma Row6(i: nat)
    requires i < 16
    ensures var n := 96 + i; DefaultChar(n) == StandardRow(6)[i] as int
  {
  }

  lemma Row7(i: nat)
    requires i < 16
    ensures var n := 112 + i; DefaultChar(n) == StandardRow(7)[i] as int
  {
  }

  /** The extension table of section 6.2.1.1. */
  lemma ExtensionIsStandard()
    ensures forall n: nat :: n < 128 ==>
      (ExtendChar(n) != 0 <==> n in {0x0A, 0x14, 0x28, 0x29, 0x2F, 0x3C, 0x3D, 0x3E, 0x40, 0x65})
    ensures ExtendChar(0x14) == '^' as int && ExtendChar(0x28) == '{' as int && ExtendChar(0x29) == '}' as int
    ensures ExtendChar(0x2F) == '\\' as int && ExtendChar(0x3C) == '[' as int && ExtendChar(0x3D) == '~' as int
    ensures ExtendChar(0x3E) == ']' as int && ExtendChar(0x40) == '|' as int && ExtendChar(0x65) == 0x20AC
    ensures ExtendChar(0x0A) == 0x0C
  {
  }

  /** Letters, digits and the space are their own septets. */
  lemma OwnSeptet(c: byte)
    requires '0' as int <= c <= '9' as int || 'A' as int <= c <= 'Z' as int || 'a' as int <= c <= 'z' as int || c == ' ' as int
    ensures CharSeptets(c) == [c as nat]
  {
    assert DefaultTable()[c] == DefaultChar(c) == c;
    assert forall n :: 0 <= n < c ==> DefaultTable()[n] == DefaultChar(n) != c;
  }

  /** Characters that have no septet are sent as a space. */
  lemma UnknownIsSpace()
    ensures CharSeptets('`' as int) == [0x20]
  {
    assert forall n :: 0 <= n < 128 ==> DefaultTable()[n] == DefaultChar(n) != '`' as int;
    assert forall n :: 0 <= n < 128 ==> ExtendTable()[n] == ExtendChar(n) != '`' as int;
  }
}
