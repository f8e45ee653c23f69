/** The decoder half of helper/sms.c and the round trip through both halves. */
module CdmaDecode {
  import opened Bits
  import opened HexFields
  import opened Basics
  import opened CdmaSms

  /** One type-length-value record; the body is its hex digits. */
  datatype Tlv = Tlv(code: nat, body: string)

  function ByteAt(s: string, i: nat): (v: nat)
    requires AllHex(s) && i + 2 <= |s|
    ensures v < 256
  {
    HexVal(s[i]) * 16 + HexVal(s[i + 1])
  }

  /** The records a digit string consists of, when it consists of whole records. */
  function Tlvs(s: string): Option<seq<Tlv>>
    requires AllHex(s)
  {
    if s == [] then Some([])
    else if |s| < 4 || |s| < 4 + 2 * ByteAt(s, 2) then None
    else
      var n := 4 + 2 * ByteAt(s, 2);
      match Tlvs(s[n..])
      case None => None
      case Some(ts) => Some([Tlv(ByteAt(s, 0), s[4..n])] + ts)
  }

  // ----- what the fields of a record mean

  function Nibble(s: string, start: nat): (v: nat)
    requires AllHex(s) && start + 4 <= 4 * |s|
    ensures v < 16 && v == Field(s, start, 4)
  {
    MsbBound(HexBits(s)[start..start + 4]);
    assert Pow2(4) == 16;
    Field(s, start, 4)
  }

  predicate NumberFits(s: string) {
    AllHex(s) && 10 <= 4 * |s| && 10 + 4 * Field(s, 2, 8) <= 4 * |s|
  }

  function NumberOf(s: string): string
    requires NumberFits(s)
  {
    seq(Field(s, 2, 8), j requires 0 <= j < Field(s, 2, 8) => DECODE_TABLE[Nibble(s, 10 + j * 4)])
  }

  function CharWidth(encoding: nat): nat {
    if encoding == 2 || encoding == 3 then 7
    else if encoding == 8 || encoding == 0 then 8
    else 0
  }

  predicate UserFits(s: string) {
    && AllHex(s) && 13 <= 4 * |s|
    && 13 + CharWidth(Field(s, 0, 5)) * Field(s, 5, 8) <= 4 * |s|
  }

  function CharAt(s: string, start: nat, width: nat): (c: char)
    requires AllHex(s) && start + width <= 4 * |s| && width <= 8
    ensures c as nat == Field(s, start, width)
  {
    MsbBound(HexBits(s)[start..start + width]);
    PowMono(width, 8);
    assert Pow2(8) == 256;
    Field(s, start, width) as char
  }

  const BAD_ENCODING := "bad SMS encoding"

  function Chars(s: string, width: nat, n: nat): (t: string)
    requires AllHex(s) && width <= 8 && 13 + width * n <= 4 * |s|
    ensures |t| == n
  {
    if n == 0 then []
    else
      assert width * n == width * (n - 1) + width;
      Chars(s, width, n - 1) + [CharAt(s, 13 + width * (n - 1), width)]
  }

  function UserText(s: string): string
    requires UserFits(s)
  {
    var width := CharWidth(Field(s, 0, 5));
    if width == 0 then BAD_ENCODING else Chars(s, width, Field(s, 5, 8))
  }

  // ----- what a parcel means

  /** `seen`: some user data has been stored, so the message was overwritten. */
  datatype Bearer = Bearer(text: string, seen: bool, vm: nat)

  predicate BearerOk(s: string) {
    && AllHex(s) && Tlvs(s).Some?
    && forall t :: t in Tlvs(s).value && t.code == 1 ==> UserFits(t.body)
  }

  function BearerStep(b: Bearer, t: Tlv): Bearer
    requires t.code == 1 ==> UserFits(t.body)
    requires t.code == 11 && |t.body| == 2 ==> AllHex(t.body)
  {
    if t.code == 1 then b.(text := b.text + UserText(t.body), seen := true)
    else if t.code == 11 && |t.body| == 2 then
      b.(vm := if HexVal(t.body[0]) + 16 * HexVal(t.body[1]) != 0 then 0x11 else 0x01)
    else b
  }

  ghost predicate BearerTlvs(ts: seq<Tlv>) {
    forall t :: t in ts ==> AllHex(t.body) && (t.code == 1 ==> UserFits(t.body))
  }

  function BearerFold(b: Bearer, ts: seq<Tlv>): Bearer
    requires BearerTlvs(ts)
    decreases |ts|
  {
    if ts == [] then b else BearerFold(BearerStep(b, ts[0]), ts[1..])
  }

  datatype Decoded = Decoded(from: string, message: string, vm: nat)

  const FAILED := Decoded("000000", "UNKNOWN", 0)

  function SmsStep(d: Decoded, t: Tlv): Decoded
    requires t.code == 2 ==> NumberFits(t.body)
    requires t.code == 8 ==> BearerOk(t.body)
  {
    if t.code == 2 then d.(from := NumberOf(t.body))
    else if t.code == 8 then
      BodiesHex(t.body);
      var b := BearerFold(Bearer("", false, d.vm), Tlvs(t.body).value);
      Decoded(d.from, if b.seen then b.text else d.message, b.vm)
    else d
  }

  ghost predicate SmsTlvs(ts: seq<Tlv>) {
    forall t :: t in ts ==>
      && AllHex(t.body)
      && (t.code == 2 ==> NumberFits(t.body))
      && (t.code == 8 ==> BearerOk(t.body))
  }

  function SmsFold(d: Decoded, ts: seq<Tlv>): Decoded
    requires SmsTlvs(ts)
    decreases |ts|
  {
    if ts == [] then d else SmsFold(SmsStep(d, ts[0]), ts[1..])
  }

  /** The decoder checks no length, so a parcel must consist of whole records
      whose fields lie inside them. */
  ghost predicate WellFormed(pdu: string) {
    && AllHex(pdu) && 2 <= |pdu|
    && Tlvs(pdu[2..]).Some? && SmsTlvs(Tlvs(pdu[2..]).value)
  }

  ghost function Decode(pdu: string): Decoded
    requires WellFormed(pdu)
  {
    SmsFold(FAILED, Tlvs(pdu[2..]).value)
  }

  lemma {:induction false} BodiesHex(s: string)
    requires AllHex(s) && Tlvs(s).Some?
    ensures forall t :: t in Tlvs(s).value ==> AllHex(t.body)
    decreases |s|
  {
    if s != [] {
      BodiesHex(s[4 + 2 * ByteAt(s, 2)..]);
    }
  }

  // ----- the decoder

  /** A field may be read through a pointer into the rest of the parcel. */
  lemma FieldOfPrefix(s: string, k: nat, start: nat, nbits: nat)
    requires AllHex(s) && k <= |s| && start + nbits <= 4 * k
    ensures Field(s[..k], start, nbits) == Field(s, start, nbits)
  {
    hide MsbVal;
    hide DigitBits;
    assert HexBits(s[..k])[start..start + nbits] == HexBits(s)[start..start + nbits];
  }

  method DecodeNumber(msg: string, length: nat) returns (no: string)
    requires AllHex(msg) && 2 * length <= |msg| && NumberFits(msg[..2 * length])
    ensures no == NumberOf(msg[..2 * length])
  {
    hide Field;
    ghost var body := msg[..2 * length];
    FieldOfPrefix(msg, 2 * length, 2, 8);
    var ndigits := GetBits(msg, 2, 8);
    no := [];
    var j := 0;
    while j < ndigits
      invariant j <= ndigits && |no| == j
      invariant forall k :: 0 <= k < j ==> no[k] == NumberOf(body)[k]
    {
      FieldOfPrefix(msg, 2 * length, 10 + j * 4, 4);
      var v := GetBits(msg, 10 + j * 4, 4);
      assert v == Nibble(body, 10 + j * 4);
      no := no + [DECODE_TABLE[v]];
      j := j + 1;
    }
  }

  /** The character loops of decode_bearer_data: `n` characters of `width` bits. */
  method ReadChars(msg: string, length: nat, width: nat, n: nat) returns (text: string)
    requires AllHex(msg) && 2 * length <= |msg| && width <= 8 && 13 + width * n <= 8 * length
    ensures text == Chars(msg[..2 * length], width, n)
  {
    hide Field;
    text := [];
    var j := 0;
    while j < n
      invariant j <= n && 13 + width * j <= 8 * length
      invariant text == Chars(msg[..2 * length], width, j)
    {
      StepFits(width, j, n);
      FieldOfPrefix(msg, 2 * length, 13 + width * j, width);
      var c := GetBits(msg, 13 + width * j, width);
      assert c == CharAt(msg[..2 * length], 13 + width * j, width) as nat;
      text := text + [c as char];
      j := j + 1;
    }
  }

  method DecodeUserText(msg: string, length: nat) returns (text: string)
    requires AllHex(msg) && 2 * length <= |msg| && UserFits(msg[..2 * length])
    ensures text == UserText(msg[..2 * length])
  {
    hide Field;
    FieldOfPrefix(msg, 2 * length, 0, 5);
    FieldOfPrefix(msg, 2 * length, 5, 8);
    var encoding := GetBits(msg, 0, 5);
    var nchars := GetBits(msg, 5, 8);
    if encoding == 2 || encoding == 3 {
      text := ReadChars(msg, length, 7, nchars);
    } else if encoding == 8 || encoding == 0 {
      text := ReadChars(msg, length, 8, nchars);
    } else {
      text := BAD_ENCODING;
    }
  }

  lemma StepFits(width: nat, j: nat, n: nat)
    requires j < n
    ensures width * j + width == width * (j + 1) <= width * n
  {
    if j + 1 < n { MulGap(j + 1, n, width); }
  }

  lemma TlvsHead(s: string)
    requires AllHex(s) && s != [] && Tlvs(s).Some?
    ensures 4 + 2 * ByteAt(s, 2) <= |s|
    ensures var n := 4 + 2 * ByteAt(s, 2);
            AllHex(s[n..]) && Tlvs(s[n..]).Some? &&
            Tlvs(s).value == [Tlv(ByteAt(s, 0), s[4..n])] + Tlvs(s[n..]).value
  {
  }

  lemma SliceSlice(msg: string, k: nat, at: nat, l: nat)
    requires at + 4 + l <= k <= |msg|
    ensures msg[..k][at..][4..4 + l] == msg[at + 4..][..l]
    ensures msg[..k][at..][4 + l..] == msg[..k][at + 4 + l..]
  {
    var s := msg[..k][at..];
    var x, y := s[4..4 + l], msg[at + 4..][..l];
    forall i | 0 <= i < l ensures x[i] == y[i] {
      assert s[4 + i] == msg[at + 4 + i];
    }
  }

  /** The record that starts at digit `at` of the first `k` digits of `msg`. */
  lemma RecordAt(msg: string, k: nat, at: nat)
    requires AllHex(msg) && at < k <= |msg| && Tlvs(msg[..k][at..]).Some?
    ensures at + 4 <= |msg| && at + 4 + 2 * ByteAt(msg, at + 2) <= k
    ensures var l, rest := 2 * ByteAt(msg, at + 2), msg[..k][at + 4 + 2 * ByteAt(msg, at + 2)..];
            AllHex(rest) && Tlvs(rest).Some? &&
            Tlvs(msg[..k][at..]).value == [Tlv(ByteAt(msg, at), msg[at + 4..][..l])] + Tlvs(rest).value
  {
    hide Tlvs;
    hide ByteAt;
    var s := msg[..k][at..];
    TlvsHead(s);
    ByteAtShift(msg, k, at, 0);
    ByteAtShift(msg, k, at, 2);
    SliceSlice(msg, k, at, 2 * ByteAt(s, 2));
  }

  lemma ByteAtShift(msg: string, k: nat, at: nat, i: nat)
    requires AllHex(msg) && at + i + 2 <= k <= |msg|
    ensures ByteAt(msg[..k][at..], i) == ByteAt(msg, at + i)
  {
  }

  method DecodeBearerData(msg: string, length: nat, vm0: nat) returns (b: Bearer)
    requires AllHex(msg) && 2 * length <= |msg| && BearerOk(msg[..2 * length])
    ensures BearerTlvs(Tlvs(msg[..2 * length]).value)
    ensures b == BearerFold(Bearer("", false, vm0), Tlvs(msg[..2 * length]).value)
  {
    hide Field;
    hide Tlvs;
    ghost var s := msg[..2 * length];
    BodiesHex(s);
    b := Bearer("", false, vm0);
    var i := 0;
    while i < length
      invariant i <= length
      invariant AllHex(s[2 * i..]) && Tlvs(s[2 * i..]).Some?
      invariant BearerTlvs(Tlvs(s[2 * i..]).value)
      invariant BearerFold(b, Tlvs(s[2 * i..]).value) == BearerFold(Bearer("", false, vm0), Tlvs(s).value)
      decreases length - i
    {
      ghost var ts := Tlvs(s[2 * i..]).value;
      RecordAt(msg, 2 * length, 2 * i);
      var code := ByteAt(msg, i * 2);
      var sublength := ByteAt(msg, i * 2 + 2);
      var at := msg[i * 2 + 4..];
      ghost var body := at[..2 * sublength];
      assert ts[0] == Tlv(code, body) && ts[0] in ts;
      if code == 1 {
        var text := DecodeUserText(at, sublength);
        b := b.(text := b.text + text, seen := true);
      } else if code == 11 && sublength == 1 {
        assert body[0] == at[0] && body[1] == at[1];
        var msgs := HexVal(at[0]) + 16 * HexVal(at[1]);
        b := b.(vm := if msgs != 0 then 0x11 else 0x01);
      }
      i := i + sublength + 2;
      assert ts[1..] == Tlvs(s[2 * i..]).value;
    }
    assert s[2 * length..] == [];
    TlvsEmpty();
    assert s[0..] == s;
  }

  lemma TlvsEmpty()
    ensures Tlvs([]) == Some([])
  {
  }

  method DecodeCdmaSms(pdu: string) returns (d: Decoded)
    requires WellFormed(pdu)
    ensures d == Decode(pdu)
  {
    hide Field;
    hide Tlvs;
    hide BearerOk;
    hide NumberFits;
    ghost var s := pdu[2..];
    d := FAILED;
    var i := 1;
    while i * 2 < |pdu|
      invariant 2 <= 2 * i <= |pdu|
      invariant AllHex(pdu[2 * i..]) && Tlvs(pdu[2 * i..]).Some?
      invariant SmsTlvs(Tlvs(pdu[2 * i..]).value)
      invariant SmsFold(d, Tlvs(pdu[2 * i..]).value) == SmsFold(FAILED, Tlvs(s).value)
      decreases |pdu| - 2 * i
    {
      ghost var ts := Tlvs(pdu[2 * i..]).value;
      assert pdu[..|pdu|] == pdu;
      RecordAt(pdu, |pdu|, 2 * i);
      var code := ByteAt(pdu, i * 2);
      var length := ByteAt(pdu, i * 2 + 2);
      var at := pdu[i * 2 + 4..];
      ghost var body := at[..2 * length];
      assert ts[0] == Tlv(code, body) && ts[0] in ts;
      ghost var d0 := d;
      if code == 2 {
        var from := DecodeNumber(at, length);
        d := d.(from := from);
      }
      if code == 8 {
        var b := DecodeBearerData(at, length, d.vm);
        d := d.(vm := b.vm);
        if b.seen {
          d := d.(message := b.text);
        }
      }
      assert d == SmsStep(d0, ts[0]);
      i := i + length + 2;
      assert ts[1..] == Tlvs(pdu[2 * i..]).value;
    }
    assert pdu[2 * i..] == [];
    TlvsEmpty();
  }

  // ----- round trip

  lemma MsbValOfByte(v: nat)
    ensures MsbVal(Msb(v, 8)) == v % 256
  {
    MsbRoundTrip(v, 8);
    LowIsMod(v, 8);
    assert Pow2(8) == 256;
  }

  lemma {:induction false} MsbValAppend(p: seq<bool>, q: seq<bool>)
    ensures MsbVal(p + q) == Shl(MsbVal(p), |q|) + MsbVal(q)
  {
    if q == [] {
      assert p + q == p;
    } else {
      var n := |q| - 1;
      MsbValAppend(p, q[..n]);
      assert (p + q)[..|p| + n] == p + q[..n];
    }
  }

  lemma DigitValue(c: char)
    requires IsHexDigit(c)
    ensures MsbVal(DigitBits(c)) == HexVal(c)
  {
    MsbRoundTrip(HexVal(c), 4);
    FromToBits(HexVal(c), 4);
    assert Pow2(4) == 16;
  }

  lemma ByteIsField(s: string, i: nat)
    requires AllHex(s) && i + 2 <= |s|
    ensures ByteAt(s, i) == Field(s, 4 * i, 8)
  {
    hide MsbVal;
    hide DigitBits;
    var p, q := DigitBits(s[i]), DigitBits(s[i + 1]);
    assert HexBits(s)[4 * i..4 * i + 8] == p + q;
    MsbValAppend(p, q);
    ShlIsMul(MsbVal(p), 4);
    assert Pow2(4) == 16;
    DigitValue(s[i]);
    DigitValue(s[i + 1]);
  }

  /** The record of `code` with the given bits, as digits. */
  function TlvHex(code: nat, body: seq<bool>): string {
    HexOf(TlvBits(code, body))
  }

  lemma TlvsCons(s: string, code: nat, body: string, rest: string)
    requires AllHex(s) && AllHex(rest) && Tlvs(rest).Some?
    requires 4 <= |s| && 4 + |body| <= |s| && |body| == 2 * ByteAt(s, 2) && ByteAt(s, 0) == code
    requires s[4..4 + |body|] == body && s[4 + |body|..] == rest
    ensures Tlvs(s) == Some([Tlv(code, body)] + Tlvs(rest).value)
  {
    hide ByteAt;
  }

  lemma Split3(h: string, body: string, rest: string)
    requires |h| == 4
    ensures var s := h + body + rest;
            |s| == 4 + |body| + |rest| && s[4..4 + |body|] == body && s[4 + |body|..] == rest
  {
  }

  lemma TlvHexParts(code: nat, body: seq<bool>, n: nat)
    requires |body| == 8 * n
    ensures TlvHex(code, body) == HexOf(Msb(code, 8)) + HexOf(Msb(n, 8)) + HexOf(body)
  {
    hide Msb;
    hide HexOf;
    HexOfAppend(Msb(code, 8) + Msb(n, 8), body, 4);
    HexOfAppend(Msb(code, 8), Msb(n, 8), 2);
  }

  /** Parsing peels off exactly the record that was written. */
  lemma TlvParse(code: nat, body: seq<bool>, n: nat, rest: string)
    requires code < 256 && n < 256 && |body| == 8 * n
    requires AllHex(rest) && Tlvs(rest).Some?
    ensures AllHex(TlvHex(code, body) + rest) && AllHex(HexOf(body))
    ensures Tlvs(TlvHex(code, body) + rest) == Some([Tlv(code, HexOf(body))] + Tlvs(rest).value)
  {
    hide *;
    var c, l, t := HexOf(Msb(code, 8)), HexOf(Msb(n, 8)), HexOf(body);
    TlvHexParts(code, body, n);
    HexOfRoundTrip(body, 2 * n);
    HexOfRoundTrip(Msb(code, 8), 2);
    HexOfRoundTrip(Msb(n, 8), 2);
    Split3(c + l, t, rest);
    HexBitsAppend(t, rest);
    HexBitsAppend(l, t + rest);
    Assoc4(c, l, t, rest);
    AllHexEmpty();
    ByteOfHex(code, l + (t + rest), []);
    ByteOfHex(n, t + rest, c);
    TlvsCons(c + l + t + rest, code, t, rest);
  }

  lemma Assoc4(c: string, l: string, t: string, rest: string)
    ensures c + l + t + rest == c + l + (t + rest) == [] + c + (l + (t + rest))
    ensures [] + l + (t + rest) == l + (t + rest)
  {
  }

  lemma ByteOfHex(v: nat, rest: string, before: string)
    requires v < 256 && AllHex(rest) && AllHex(before)
    ensures AllHex(HexOf(Msb(v, 8))) && |HexOf(Msb(v, 8))| == 2
    ensures AllHex(before + HexOf(Msb(v, 8)) + rest)
    ensures ByteAt(before + HexOf(Msb(v, 8)) + rest, |before|) == v
  {
    hide Msb;
    hide MsbVal;
    hide DigitBits;
    hide HexOf;
    var f := Msb(v, 8);
    HexOfRoundTrip(f, 2);
    var s := before + HexOf(f) + rest;
    ByteIsField(s, |before|);
    assert HexBits(s)[4 * |before|..4 * |before| + 8] == f by {
      HexBitsAppend(before, HexOf(f));
      HexBitsAppend(before + HexOf(f), rest);
    }
    MsbValOfByte(v);
  }

  /** What a digit becomes: characters outside the table are sent as '.'. */
  function Dialled(c: char): char {
    if c in DECODE_TABLE then c else '.'
  }

  lemma DigitsAtSnoc(no: string)
    requires no != []
    ensures DigitsBits(no) == DigitsBits(no[..|no| - 1]) + Msb(DigitCode(no[|no| - 1]), 4)
  {
    hide Msb;
    hide DigitCode;
  }

  lemma {:induction false} DigitsAt(no: string, j: nat)
    requires j < |no|
    ensures DigitsBits(no)[4 * j..4 * j + 4] == Msb(DigitCode(no[j]), 4)
  {
    hide *;
    var t, q := no[..|no| - 1], Msb(DigitCode(no[|no| - 1]), 4);
    DigitsAtSnoc(no);
    if j < |t| {
      DigitsAt(t, j);
      SliceLeft(DigitsBits(t), q, 4 * j, 4 * j + 4);
    } else {
      SliceRight(DigitsBits(t), q);
    }
  }

  lemma DigitRead(c: char)
    ensures MsbVal(Msb(DigitCode(c), 4)) == DigitCode(c) < 16
    ensures DECODE_TABLE[DigitCode(c)] == Dialled(c)
  {
    MsbRoundTrip(DigitCode(c), 4);
    FromToBits(DigitCode(c), 4);
    assert Pow2(4) == 16;
    if c in DECODE_TABLE { assert FirstIndex(DECODE_TABLE, c) >= 0; }
  }

  /** decode_number after encode_number, for every string. */
  lemma NumberRoundTrip(no: string)
    ensures var s := HexOf(NumberBits(no));
            NumberFits(s) && |NumberOf(s)| == |no| % 256 &&
            forall j :: 0 <= j < |no| % 256 ==> NumberOf(s)[j] == Dialled(no[j])
  {
    hide Msb;
    hide MsbVal;
    hide DigitBits;
    hide DigitCode;
    hide HexOf;
    var p, s := NumberBits(no), HexOf(NumberBits(no));
    HexOfRoundTrip(p, 2 * NumberBytes(no));
    assert p[2..2 + 8] == Msb(|no|, 8);
    MsbValOfByte(|no|);
    assert Field(s, 2, 8) == |no| % 256;
    forall j | 0 <= j < |no| % 256 ensures NumberOf(s)[j] == Dialled(no[j]) {
      DigitsAt(no, j);
      assert p[10 + j * 4..10 + j * 4 + 4] == DigitsBits(no)[4 * j..4 * j + 4];
      DigitRead(no[j]);
    }
  }

  /** It is the identity exactly on strings over the table that the 8-bit count can express. */
  lemma NumberRoundTripIff(no: string)
    ensures NumberFits(HexOf(NumberBits(no)))
    ensures NumberOf(HexOf(NumberBits(no))) == no <==>
            |no| < 256 && forall j :: 0 <= j < |no| ==> no[j] in DECODE_TABLE
  {
    hide NumberBits;
    hide NumberOf;
    hide NumberFits;
    NumberRoundTrip(no);
    var t := NumberOf(HexOf(NumberBits(no)));
    if |no| < 256 && forall j :: 0 <= j < |no| ==> no[j] in DECODE_TABLE {
      assert forall j :: 0 <= j < |no| ==> t[j] == Dialled(no[j]);
    } else if |no| < 256 {
      var j :| 0 <= j < |no| && no[j] !in DECODE_TABLE;
      assert t[j] == '.';
      assert DECODE_TABLE[0] == '.';
    }
  }

  lemma SeptetAtSnoc(text: string)
    requires text != []
    ensures SeptetsMsb(text) == SeptetsMsb(text[..|text| - 1]) + Msb(text[|text| - 1] as nat, 7)
  {
    hide Msb;
    hide DigitCode;
  }

  lemma {:induction false} SeptetAt(text: string, j: nat)
    requires j < |text|
    ensures SeptetsMsb(text)[7 * j..7 * j + 7] == Msb(text[j] as nat, 7)
  {
    hide *;
    var t, q := text[..|text| - 1], Msb(text[|text| - 1] as nat, 7);
    SeptetAtSnoc(text);
    if j < |t| {
      SeptetAt(t, j);
      SliceLeft(SeptetsMsb(t), q, 7 * j, 7 * j + 7);
    } else {
      SliceRight(SeptetsMsb(t), q);
    }
  }

  /** The seven bits that are sent of a character. */
  function SevenBits(c: char): char {
    (c as nat % 128) as char
  }

  /** `t` is what arrives of `text`: a count modulo 256, seven bits a character. */
  ghost predicate Carried(t: string, text: string) {
    && |t| == |text| % 256
    && forall j :: 0 <= j < |t| ==> t[j] == SevenBits(text[j])
  }

  /** The user data carries the count modulo 256 and seven bits of each character. */
  lemma UserRoundTrip(text: string)
    ensures UserFits(HexOf(UserBits(text))) && Carried(UserText(HexOf(UserBits(text))), text)
  {
    hide Msb;
    hide HexOf;
    hide Chars;
    hide SevenBits;
    var s := HexOf(UserBits(text));
    UserHeader(text);
    forall j | 0 <= j < |text| % 256 ensures UserText(s)[j] == SevenBits(text[j]) {
      CharsAt(s, 7, |text| % 256, j);
      UserSeptet(text, j);
    }
  }

  lemma UserHeader(text: string)
    ensures var s := HexOf(UserBits(text));
            AllHex(s) && |s| == 2 * UserBytes(text) &&
            Field(s, 0, 5) == 2 && Field(s, 5, 8) == |text| % 256
  {
    hide Msb;
    hide MsbVal;
    hide HexOf;
    hide HexBits;
    var p := UserBits(text);
    HexOfRoundTrip(p, 2 * UserBytes(text));
    assert p[0..0 + 5] == Msb(2, 5);
    assert p[5..5 + 8] == Msb(|text|, 8);
    MsbValOfByte(|text|);
    assert Pow2(5) == 32;
    MsbSmall(2, 5);
  }

  lemma UserSeptet(text: string, j: nat)
    requires j < |text| && AllHex(HexOf(UserBits(text))) && 20 + 7 * j <= 4 * |HexOf(UserBits(text))|
    ensures CharAt(HexOf(UserBits(text)), 13 + 7 * j, 7) == SevenBits(text[j])
  {
    hide Msb;
    hide MsbVal;
    hide HexOf;
    hide HexBits;
    var p := UserBits(text);
    HexOfRoundTrip(p, 2 * UserBytes(text));
    SeptetAt(text, j);
    assert p[13 + 7 * j..13 + 7 * j + 7] == SeptetsMsb(text)[7 * j..7 * j + 7];
    MsbRoundTrip(text[j] as nat, 7);
    LowIsMod(text[j] as nat, 7);
    assert Pow2(7) == 128;
  }

  lemma MsbSmall(v: nat, n: nat)
    requires v < Pow2(n)
    ensures MsbVal(Msb(v, n)) == v
  {
    MsbRoundTrip(v, n);
    FromToBits(v, n);
  }

  lemma {:induction false} CharsAt(s: string, width: nat, n: nat, j: nat)
    requires AllHex(s) && width <= 8 && 13 + width * n <= 4 * |s| && j < n
    ensures 13 + width * j + width <= 4 * |s|
    ensures Chars(s, width, n)[j] == CharAt(s, 13 + width * j, width)
  {
    hide CharAt;
    assert width * n == width * (n - 1) + width;
    if j < n - 1 { CharsAt(s, width, n - 1, j); }
  }

  /** The bearer data consists of records 0, 1, 8 and 13, with the text in record 1. */
  lemma BearerTlvsOf(text: string)
    requires UserBytes(text) < 256
    ensures var s := HexOf(BearerBits(text));
            AllHex(s) && Tlvs(s) == Some([
              Tlv(0, HexOf(IdBits(text))), Tlv(1, HexOf(UserBits(text))),
              Tlv(8, HexOf(Zeros(8))), Tlv(13, HexOf(Zeros(8)))])
  {
    hide *;
    var z, i, u := Zeros(8), IdBits(text), UserBits(text);
    TlvsEmpty();
    AllHexEmpty();
    TlvParse(13, z, 1, []);
    TlvParse(8, z, 1, TlvHex(13, z) + []);
    TlvParse(1, u, UserBytes(text), TlvHex(8, z) + (TlvHex(13, z) + []));
    TlvParse(0, i, 3, TlvHex(1, u) + (TlvHex(8, z) + (TlvHex(13, z) + [])));
    BearerParts(text);
    ListOf4(Tlv(0, HexOf(i)), Tlv(1, HexOf(u)), Tlv(8, HexOf(z)), Tlv(13, HexOf(z)));
  }

  lemma ListOf4<T>(a: T, b: T, c: T, d: T)
    ensures [a] + ([b] + ([c] + ([d] + []))) == [a, b, c, d]
  {
  }

  lemma AllHexEmpty()
    ensures AllHex([])
  {
  }

  lemma BearerParts(text: string)
    ensures var z := Zeros(8);
            HexOf(BearerBits(text)) ==
            TlvHex(0, IdBits(text)) + (TlvHex(1, UserBits(text)) + (TlvHex(8, z) + (TlvHex(13, z) + [])))
  {
    hide HexOf;
    hide TlvBits;
    hide Zeros;
    hide IdBits;
    hide UserBits;
    var a, b, c, d := TlvBits(0, IdBits(text)), TlvBits(1, UserBits(text)), TlvBits(8, Zeros(8)), TlvBits(13, Zeros(8));
    var n := 14 + 2 * UserBytes(text);
    HexOfAppend(a + b + c, d, n + 6);
    HexOfAppend(a + b, c, n);
    HexOfAppend(a, b, 10);
  }

  /** The parcel after its first byte consists of records 0, 4, 6 and 8. */
  lemma OuterTlvsOf(to: string, text: string)
    requires Fits(to, text)
    ensures var s := CdmaPdu(to, text);
            AllHex(s) && 2 <= |s| && Tlvs(s[2..]) == Some([
              Tlv(0, HexOf(Msb(0x1002, 16))), Tlv(4, HexOf(NumberBits(to))),
              Tlv(6, HexOf(Zeros(8))), Tlv(8, HexOf(BearerBits(text)))])
  {
    hide *;
    var h, z, n, b := Msb(0x1002, 16), Zeros(8), NumberBits(to), BearerBits(text);
    FitsBytes(to, text);
    TlvsEmpty();
    AllHexEmpty();
    TlvParse(8, b, 13 + UserBytes(text), []);
    TlvParse(6, z, 1, TlvHex(8, b) + []);
    TlvParse(4, n, NumberBytes(to), TlvHex(6, z) + (TlvHex(8, b) + []));
    TlvParse(0, h, 2, TlvHex(4, n) + (TlvHex(6, z) + (TlvHex(8, b) + [])));
    PduParts(to, text);
    ListOf4(Tlv(0, HexOf(h)), Tlv(4, HexOf(n)), Tlv(6, HexOf(z)), Tlv(8, HexOf(b)));
  }

  lemma FitsBytes(to: string, text: string)
    requires Fits(to, text)
    ensures NumberBytes(to) < 256 && 13 + UserBytes(text) < 256
  {
  }

  lemma PduParts(to: string, text: string)
    requires AllHex(TlvHex(0, Msb(0x1002, 16)) +
               (TlvHex(4, NumberBits(to)) + (TlvHex(6, Zeros(8)) + (TlvHex(8, BearerBits(text)) + []))))
    ensures var s, z := CdmaPdu(to, text), Zeros(8);
            AllHex(s) && 2 <= |s| && s[2..] ==
            TlvHex(0, Msb(0x1002, 16)) +
              (TlvHex(4, NumberBits(to)) + (TlvHex(6, z) + (TlvHex(8, BearerBits(text)) + [])))
  {
    hide HexOf;
    hide TlvBits;
    hide Msb;
    hide Zeros;
    hide NumberBits;
    hide BearerBits;
    var y, h := Msb(0, 8), TlvBits(0, Msb(0x1002, 16));
    var a, b, c := TlvBits(4, NumberBits(to)), TlvBits(6, Zeros(8)), TlvBits(8, BearerBits(text));
    var n := 14 + 2 * NumberBytes(to);
    HexOfAppend(y + h + a + b, c, n + 6);
    HexOfAppend(y + h + a, b, n);
    HexOfAppend(y + h, a, 10);
    HexOfAppend(y, h, 2);
    HexOfRoundTrip(y, 2);
    assert CdmaPdu(to, text) == HexOf(y) + (HexOf(h) + (HexOf(a) + (HexOf(b) + (HexOf(c) + []))));
  }

  /** decode_cdma_sms after encode_cdma_sms: the text, seven bits a character and
      counted modulo 256, no sender and no voice-mail flag. */
  lemma CdmaRoundTrip(to: string, text: string)
    requires Fits(to, text)
    ensures WellFormed(CdmaPdu(to, text))
    ensures Decode(CdmaPdu(to, text)).from == "000000" && Decode(CdmaPdu(to, text)).vm == 0
    ensures Carried(Decode(CdmaPdu(to, text)).message, text)
  {
    hide *;
    OuterTlvsOf(to, text);
    FitsBytes(to, text);
    BearerTlvsOf(text);
    UserRoundTrip(text);
    DecodeRecords(CdmaPdu(to, text), HexOf(Msb(0x1002, 16)), HexOf(NumberBits(to)), HexOf(Zeros(8)),
                  HexOf(BearerBits(text)), HexOf(IdBits(text)), HexOf(UserBits(text)));
  }

  lemma DecodeRecords(pdu: string, h: string, n: string, z: string, b: string, i: string, u: string)
    requires AllHex(pdu) && 2 <= |pdu| && AllHex(b) && UserFits(u)
    requires Tlvs(pdu[2..]) == Some([Tlv(0, h), Tlv(4, n), Tlv(6, z), Tlv(8, b)])
    requires Tlvs(b) == Some([Tlv(0, i), Tlv(1, u), Tlv(8, z), Tlv(13, z)])
    ensures WellFormed(pdu)
    ensures Decode(pdu) == Decoded("000000", UserText(u), 0)
  {
    hide Tlvs;
    hide UserText;
    hide UserFits;
    hide NumberFits;
    BodiesHex(pdu[2..]);
    BodiesHex(b);
    BearerFold4(Tlvs(b).value, u);
    SmsFold4(Tlvs(pdu[2..]).value, b, UserText(u));
  }

  lemma BearerFold4(ts: seq<Tlv>, u: string)
    requires BearerTlvs(ts) && UserFits(u) && |ts| == 4
    requires ts[0].code == 0 && ts[1] == Tlv(1, u) && ts[2].code == 8 && ts[3].code == 13
    ensures BearerFold(Bearer("", false, 0), ts) == Bearer(UserText(u), true, 0)
  {
    hide UserText;
    hide UserFits;
    var b0 := Bearer("", false, 0);
    var b1 := Bearer("" + UserText(u), true, 0);
    assert "" + UserText(u) == UserText(u);
    FoldStep(b0, ts);
    FoldStep(b0, ts[1..]);
    assert ts[1..][1..] == ts[2..];
    FoldStep(b1, ts[2..]);
    assert ts[2..][1..] == ts[3..];
    FoldStep(b1, ts[3..]);
    assert ts[3..][1..] == [];
  }

  lemma FoldStep(b: Bearer, ts: seq<Tlv>)
    requires BearerTlvs(ts) && ts != []
    ensures BearerTlvs(ts[1..]) && BearerFold(b, ts) == BearerFold(BearerStep(b, ts[0]), ts[1..])
  {
  }

  lemma SmsFold4(ts: seq<Tlv>, b: string, text: string)
    requires SmsTlvs(ts) && |ts| == 4 && BearerOk(b)
    requires ts[0].code == 0 && ts[1].code == 4 && ts[2].code == 6 && ts[3] == Tlv(8, b)
    requires BearerTlvs(Tlvs(b).value)
    requires BearerFold(Bearer("", false, 0), Tlvs(b).value) == Bearer(text, true, 0)
    ensures SmsFold(FAILED, ts) == Decoded("000000", text, 0)
  {
    hide Tlvs;
    hide BearerFold;
    SmsFoldStep(FAILED, ts);
    SmsFoldStep(FAILED, ts[1..]);
    assert ts[1..][1..] == ts[2..];
    SmsFoldStep(FAILED, ts[2..]);
    assert ts[2..][1..] == ts[3..];
    SmsFoldStep(FAILED, ts[3..]);
    assert ts[3..][1..] == [];
  }

  lemma SmsFoldStep(d: Decoded, ts: seq<Tlv>)
    requires SmsTlvs(ts) && ts != []
    ensures SmsTlvs(ts[1..]) && SmsFold(d, ts) == SmsFold(SmsStep(d, ts[0]), ts[1..])
  {
  }

  predicate SevenBitText(text: string) {
    |text| < 256 && forall j :: 0 <= j < |text| ==> text[j] as nat < 128
  }

  lemma CarriedIff(t: string, text: string)
    requires Carried(t, text)
    ensures t == text <==> SevenBitText(text)
  {
    if |text| < 256 {
      if j :| 0 <= j < |text| && text[j] as nat >= 128 {
        assert t[j] == SevenBits(text[j]);
      }
    }
  }

  /** The text survives exactly when it has at most 255 characters, all 7-bit. */
  lemma CdmaRoundTripIff(to: string, text: string)
    requires Fits(to, text)
    ensures WellFormed(CdmaPdu(to, text))
    ensures Decode(CdmaPdu(to, text)).message == text <==> SevenBitText(text)
  {
    hide *;
    CdmaRoundTrip(to, text);
    CarriedIff(Decode(CdmaPdu(to, text)).message, text);
  }

  /** An accented letter loses its eighth bit, and a letter is not dialled. */
  lemma NotCarried()
    ensures var to, text := "1", "\U{E9}";
            CdmaSms.Fits(to, text) && WellFormed(CdmaPdu(to, text)) && Decode(CdmaPdu(to, text)).message != text
    ensures NumberFits(HexOf(NumberBits("a"))) && NumberOf(HexOf(NumberBits("a"))) != "a"
  {
    hide CdmaPdu, WellFormed, Decode, NumberOf, NumberFits, NumberBits, HexOf;
    FitsShort("1", "\U{E9}");
    CdmaRoundTripIff("1", "\U{E9}");
    NumberRoundTripIff("a");
    assert "\U{E9}"[0] as int >= 128;
    assert "a"[0] !in DECODE_TABLE;
  }

  lemma FitsShort(to: string, text: string)
    requires |to| <= 34 && |text| <= 160
    ensures Fits(to, text)
  {
  }
}
