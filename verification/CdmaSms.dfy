/** The CDMA SMS codec of helper/sms.c: nested type-length-value records spelled
    in hex digits (sections 3.4.3.3 and 4.5.2 of 3GPP2 C.S0015-B). */
module CdmaSms {
  import opened Bits
  import opened HexFields
  import opened Basics

  const DECODE_TABLE := ".1234567890*#..."

  // ----- layout

  /** `p` filled with zero bits to a whole number of bytes. */
  function Padded(p: seq<bool>): (q: seq<bool>)
    ensures |q| == 8 * ((|p| + 7) / 8)
  {
    p + Zeros(8 * ((|p| + 7) / 8) - |p|)
  }

  function DigitCode(c: char): nat {
    var n := FirstIndex(DECODE_TABLE, c);
    if n < 0 then 0 else n
  }

  function DigitsBits(no: string): (p: seq<bool>)
    ensures |p| == 4 * |no|
  {
    if no == [] then [] else DigitsBits(no[..|no| - 1]) + Msb(DigitCode(no[|no| - 1]), 4)
  }

  function NumberBytes(no: string): nat {
    (10 + 4 * |no| + 7) / 8
  }

  function UserBytes(text: string): nat {
    (13 + 7 * |text| + 7) / 8
  }

  /** Address parameter: digit mode, number mode, digit count, 4-bit digits. */
  function NumberBits(no: string): (p: seq<bool>)
    ensures |p| == 8 * NumberBytes(no)
  {
    Padded(Zeros(2) + Msb(|no|, 8) + DigitsBits(no))
  }

  function TlvBits(code: nat, body: seq<bool>): (p: seq<bool>)
    ensures |p| == 16 + |body|
  {
    Msb(code, 8) + Msb(|body| / 8, 8) + body
  }

  function CharSum(text: string): nat {
    if text == [] then 0 else CharSum(text[..|text| - 1]) + text[|text| - 1] as nat
  }

  function SeptetsMsb(text: string): (p: seq<bool>)
    ensures |p| == 7 * |text|
  {
    if text == [] then [] else SeptetsMsb(text[..|text| - 1]) + Msb(text[|text| - 1] as nat, 7)
  }

  /** Message identifier: type 2 (submit) and a 16-bit identifier. */
  function IdBits(text: string): (p: seq<bool>)
    ensures |p| == 24
  {
    Msb(2, 4) + Msb(CharSum(text), 16) + Zeros(4)
  }

  /** User data: encoding 2 (7-bit ASCII), character count, septets. */
  function UserBits(text: string): (p: seq<bool>)
    ensures |p| == 8 * UserBytes(text)
  {
    Padded(Msb(2, 5) + Msb(|text|, 8) + SeptetsMsb(text))
  }

  function BearerBits(text: string): (p: seq<bool>)
    ensures |p| == 8 * (13 + UserBytes(text))
  {
    hide *;
    TlvBits(0, IdBits(text)) + TlvBits(1, UserBits(text)) + TlvBits(8, Zeros(8)) + TlvBits(13, Zeros(8))
  }

  /** Message type 0 and the teleservice record. */
  function Header(): (p: seq<bool>)
    ensures |p| == 40
  {
    hide *;
    Msb(0, 8) + TlvBits(0, Msb(0x1002, 16))
  }

  function CdmaBits(to: string, text: string): (p: seq<bool>)
    ensures |p| == 8 * (25 + NumberBytes(to) + UserBytes(text))
  {
    hide *;
    Header() + TlvBits(4, NumberBits(to)) + TlvBits(6, Zeros(8))
    + TlvBits(8, BearerBits(text))
  }

  /** The parcel the encoder must produce. */
  function CdmaPdu(to: string, text: string): string {
    hide *;
    HexOf(CdmaBits(to, text))
  }

  /** The digits fit the 512-character buffer together with the final NUL. */
  predicate Fits(to: string, text: string) {
    2 * (25 + NumberBytes(to) + UserBytes(text)) < 512
  }

  // ----- encoder

  lemma AppendField(p: seq<bool>, x: seq<bool>, f: seq<bool>)
    requires |x| + |f| <= |p| && p == x + Zeros(|p| - |x|)
    ensures OrField(p, |x|, f) == x + f + Zeros(|p| - |x| - |f|)
  {
    assert p == x + Zeros(|f|) + Zeros(|p| - |x| - |f|);
    OrFieldOverZeros(x, f, Zeros(|p| - |x| - |f|));
  }

  /** The buffer holds the bits `x` and, after them, only zeros. */
  ghost predicate Holds(s: seq<char>, x: seq<bool>) {
    AllHex(s) && |x| <= 4 * |s| && HexBits(s) == x + Zeros(4 * |s| - |x|)
  }

  lemma Nest(x: seq<bool>, y: seq<bool>, f: seq<bool>)
    ensures x + y + f == x + (y + f)
    ensures x + [] == x && [] + x == x
  {
  }

  /** setbits on the first free bits: the field is appended to what was written. */
  method PutBits(pdu: array<char>, at: nat, nbits: nat, val: nat, ghost x: seq<bool>, ghost y: seq<bool>)
    requires Holds(pdu[..], x + y) && at == |x| + |y| && at + nbits <= 4 * pdu.Length
    modifies pdu
    ensures Holds(pdu[..], x + (y + Msb(val, nbits)))
  {
    hide Msb;
    hide HexBits;
    hide OrField;
    AppendField(HexBits(pdu[..]), x + y, Msb(val, nbits));
    SetBits(pdu, at, nbits, val);
    Nest(x, y, Msb(val, nbits));
  }

  /** setbits of a length byte that was skipped when its record was written. */
  method PatchByte(pdu: array<char>, at: nat, val: nat, ghost x: seq<bool>, ghost y: seq<bool>)
    requires Holds(pdu[..], x + Zeros(8) + y) && at == |x|
    modifies pdu
    ensures Holds(pdu[..], x + Msb(val, 8) + y)
  {
    hide Msb;
    hide HexBits;
    hide OrField;
    ghost var z := Zeros(4 * pdu.Length - |x| - 8 - |y|);
    assert x + Zeros(8) + y + z == x + Zeros(8) + (y + z);
    OrFieldOverZeros(x, Msb(val, 8), y + z);
    SetBits(pdu, at, 8, val);
    assert x + Msb(val, 8) + (y + z) == x + Msb(val, 8) + y + z;
  }

  /** Zero bits that are already in place may be counted as written. */
  lemma TakeZeros(s: seq<char>, x: seq<bool>, y: seq<bool>, n: nat)
    requires Holds(s, x + y) && |x| + |y| + n <= 4 * |s|
    ensures Holds(s, x + (y + Zeros(n)))
  {
    hide HexBits;
    assert x + y + Zeros(4 * |s| - |x| - |y|) == x + (y + Zeros(n)) + Zeros(4 * |s| - |x| - |y| - n);
  }

  method EncodeDigit(d: char) returns (i: nat)
    ensures i == DigitCode(d)
  {
    var n := Scan(DECODE_TABLE, d);
    i := if n < 0 then 0 else n;
  }

  /** Writes the address parameter at digit `base`; returns its length in bytes. */
  method EncodeNumber(pdu: array<char>, base: nat, no: string, ghost x: seq<bool>) returns (length: nat)
    requires Holds(pdu[..], x) && |x| == 4 * base
    requires |x| + |NumberBits(no)| <= 4 * pdu.Length
    modifies pdu
    ensures Holds(pdu[..], x + NumberBits(no))
    ensures length == NumberBytes(no)
  {
    hide Msb;
    hide Holds;
    hide DigitCode;
    MsbZero(2);
    assert x + [] == x;
    PutBits(pdu, 4 * base, 2, 0, x, []);
    assert [] + Msb(0, 2) == Zeros(2);
    PutBits(pdu, 4 * base + 2, 8, |no|, x, Zeros(2));
    ghost var y := Zeros(2) + Msb(|no|, 8);
    assert y + DigitsBits(no[..0]) == y;
    var i := 0;
    while i < |no|
      invariant i <= |no|
      invariant Holds(pdu[..], x + (y + DigitsBits(no[..i])))
    {
      var d := EncodeDigit(no[i]);
      PutBits(pdu, 4 * base + 10 + i * 4, 4, d, x, y + DigitsBits(no[..i]));
      assert no[..i + 1][..i] == no[..i];
      assert y + DigitsBits(no[..i]) + Msb(d, 4) == y + DigitsBits(no[..i + 1]);
      i := i + 1;
    }
    assert no[..i] == no;
    length := (10 + i * 4 + 7) / 8;
    TakeZeros(pdu[..], x, y + DigitsBits(no), length * 8 - 10 - 4 * |no|);
  }

  lemma {:induction false} MsbZero(n: nat)
    ensures Msb(0, n) == Zeros(n)
  {
    if n > 0 { MsbZero(n - 1); }
  }

  lemma {:induction false} MsbAppend(a: nat, b: nat, m: nat, n: nat)
    requires b < Pow2(n)
    ensures Msb(Shl(a, n) + b, m + n) == Msb(a, m) + Msb(b, n)
  {
    if n > 0 {
      MsbAppend(a, b / 2, m, n - 1);
      var v := Shl(a, n) + b;
      assert v / 2 == Shl(a, n - 1) + b / 2 && v % 2 == b % 2;
      assert Msb(v, m + n) == Msb(v / 2, m + (n - 1)) + [v % 2 == 1];
    }
  }

  lemma OneByteRecord(code: nat)
    ensures Msb(code, 8) + (Msb(1, 8) + Zeros(8)) == TlvBits(code, Zeros(8))
  {
    hide Msb;
    hide Zeros;
  }

  /** A one-byte record with a zero value, as one 24-bit constant. */
  lemma MsbRecord(code: nat)
    ensures Msb(code * 0x10000 + 0x100, 24) == TlvBits(code, Zeros(8))
  {
    hide *;
    BytePowers();
    ShlIsMul(code, 16);
    ShlIsMul(1, 8);
    MsbAppend(code, 0x100, 8, 16);
    MsbAppend(1, 0, 8, 8);
    MsbZero(8);
    OneByteRecord(code);
  }

  /** The message identifier: the sum of the characters. */
  method PutId(pdu: array<char>, at: nat, data: string, ghost x: seq<bool>)
    requires Holds(pdu[..], x) && |x| == at && at + 40 <= 4 * pdu.Length
    modifies pdu
    ensures Holds(pdu[..], x + TlvBits(0, IdBits(data)))
  {
    hide Msb, Holds;
    var msgid := 0;
    var i := 0;
    while i < |data|
      invariant i <= |data| && msgid == CharSum(data[..i])
    {
      assert data[..i + 1][..i] == data[..i];
      msgid := msgid + data[i] as nat;
      i := i + 1;
    }
    assert data[..i] == data;

    assert x + [] == x;
    PutBits(pdu, at, 8, 0, x, []);
    assert [] + Msb(0, 8) == Msb(0, 8);
    PutBits(pdu, at + 8, 8, 3, x, Msb(0, 8));
    PutBits(pdu, at + 16, 4, 2, x, Msb(0, 8) + Msb(3, 8));
    PutBits(pdu, at + 20, 16, msgid, x, Msb(0, 8) + Msb(3, 8) + Msb(2, 4));
    ghost var y := Msb(0, 8) + Msb(3, 8) + Msb(2, 4) + Msb(msgid, 16);
    TakeZeros(pdu[..], x, y, 4);
    assert y + Zeros(4) == TlvBits(0, IdBits(data));
  }

  /** Writes the bearer data at digit `base`; returns its length in bytes. */
  method EncodeBearerData(pdu: array<char>, base: nat, data: string, ghost x: seq<bool>) returns (length: nat)
    requires Holds(pdu[..], x) && |x| == 4 * base
    requires |x| + |BearerBits(data)| <= 4 * pdu.Length
    modifies pdu
    ensures Holds(pdu[..], x + BearerBits(data))
    ensures length == 13 + UserBytes(data)
  {
    hide Msb, Holds, UserBits, IdBits;
    var at := 4 * base;
    PutId(pdu, at, data, x);
    ghost var y := TlvBits(0, IdBits(data));
    var b := EncodeUserData(pdu, at + 40, data, x + y);
    ghost var u := TlvBits(1, UserBits(data));
    assert x + y + u == x + (y + u);
    at := at + 40 + 8 * ((b + 7) / 8);

    MsbRecord(8);
    PutBits(pdu, at, 24, 0x80100, x, y + u);
    MsbRecord(13);
    PutBits(pdu, at + 24, 24, 0x0D0100, x, y + u + TlvBits(8, Zeros(8)));
    length := (at + 48 - 4 * base) / 8;
  }

  /** The septets of the text, on the first free bits. */
  method PutSeptets(pdu: array<char>, at: nat, data: string, ghost x: seq<bool>)
    requires Holds(pdu[..], x) && |x| == at && at + 7 * |data| <= 4 * pdu.Length
    modifies pdu
    ensures Holds(pdu[..], x + SeptetsMsb(data))
  {
    hide Msb;
    hide Holds;
    var b := at;
    var i := 0;
    Nest(x, [], []);
    while i < |data|
      invariant i <= |data| && b == at + 7 * i
      invariant Holds(pdu[..], x + SeptetsMsb(data[..i]))
    {
      PutBits(pdu, b, 7, data[i] as nat, x, SeptetsMsb(data[..i]));
      assert data[..i + 1][..i] == data[..i];
      b := b + 7;
      i := i + 1;
    }
    assert data[..i] == data;
  }

  lemma UserBitsParts(text: string)
    ensures var pad := |UserBits(text)| - 13 - 7 * |text|;
            0 <= pad && UserBits(text) == Msb(2, 5) + Msb(|text|, 8) + SeptetsMsb(text) + Zeros(pad)
    ensures |UserBits(text)| == 8 * ((29 + 7 * |text| + 7) / 8 - 2)
  {
    hide Msb;
    hide SeptetsMsb;
  }

  lemma CdmaBitsParts(to: string, text: string)
    ensures CdmaPdu(to, text) == HexOf(CdmaBits(to, text))
    ensures CdmaBits(to, text)
         == Header() + TlvBits(4, NumberBits(to)) + TlvBits(6, Zeros(8)) + TlvBits(8, BearerBits(text))
    ensures Fits(to, text) ==> 2 * (25 + NumberBytes(to) + UserBytes(text)) < 512
  {
    hide Header;
    hide TlvBits;
    hide NumberBits;
    hide BearerBits;
  }

  /** The user-data record; returns its length in bits, without padding. */
  method EncodeUserData(pdu: array<char>, at: nat, data: string, ghost x: seq<bool>) returns (b: nat)
    requires Holds(pdu[..], x) && |x| == at
    requires |x| + 16 + |UserBits(data)| <= 4 * pdu.Length
    modifies pdu
    ensures Holds(pdu[..], x + TlvBits(1, UserBits(data)))
    ensures b == 29 + 7 * |data|
  {
    hide *;
    ghost var c, u, e, n, t := Msb(1, 8), UserBits(data), Msb(2, 5), Msb(|data|, 8), SeptetsMsb(data);
    UserBitsParts(data);
    Nest(x, c, Zeros(8));
    Nest(c, [], []);
    PutBits(pdu, at, 8, 1, x, []);
    TakeZeros(pdu[..], x, c, 8);
    ghost var h := x + c + Zeros(8);
    Nest(h, e + n, t);
    Nest(e, [], []);
    PutBits(pdu, at + 16, 5, 2, h, []);
    PutBits(pdu, at + 21, 8, |data|, h, e);
    PutSeptets(pdu, at + 29, data, h + (e + n));
    b := 29 + 7 * |data|;
    TakeZeros(pdu[..], h, e + n + t, |u| - 13 - 7 * |data|);
    PatchByte(pdu, at + 8, (b + 7) / 8 - 2, x + c, u);
    RecordBits(x, [], 1, u);
  }

  /** A record whose length byte is filled in after its body. */
  lemma RecordBits(x: seq<bool>, y: seq<bool>, code: nat, body: seq<bool>)
    ensures x + (y + Msb(code, 8)) + Msb(|body| / 8, 8) + body == x + (y + TlvBits(code, body))
    ensures y == [] ==> y + Msb(code, 8) == Msb(code, 8) && y + TlvBits(code, body) == TlvBits(code, body)
  {
    hide Msb;
  }

  /** The first bytes of the parcel, over a buffer of '0' digits. */
  method PutHeader(pdu: array<char>)
    requires pdu.Length == 512
    modifies pdu
    ensures Holds(pdu[..], Header())
  {
    hide *;
    var i := 0;
    while i < 512
      invariant i <= 512
      invariant forall k :: 0 <= k < i ==> pdu[k] == '0'
    {
      pdu[i] := '0';
      i := i + 1;
    }
    AllZeroDigits(pdu[..]);
    HeaderConstants();
    Nest([], [], []);
    PutBits(pdu, 0, 16, 0, [], []);
    Nest(Msb(0, 16), [], []);
    PutBits(pdu, 16, 24, 0x021002, [], Msb(0, 16));
    Nest(Header(), [], []);
  }

  /** The destination record: encode_number between its code and its length. */
  method PutDestination(pdu: array<char>, base: nat, to: string, ghost x: seq<bool>) returns (length: nat)
    requires Holds(pdu[..], x) && |x| == 4 * base
    requires |x| + 16 + |NumberBits(to)| <= 4 * pdu.Length
    modifies pdu
    ensures Holds(pdu[..], x + TlvBits(4, NumberBits(to)))
    ensures length == NumberBytes(to)
  {
    hide *;
    Nest(x, Msb(4, 8), Zeros(8));
    PutBits(pdu, 4 * base, 8, 4, x, []);
    RecordBits(x, [], 4, NumberBits(to));
    TakeZeros(pdu[..], x, Msb(4, 8), 8);
    length := EncodeNumber(pdu, base + 4, to, x + Msb(4, 8) + Zeros(8));
    PatchByte(pdu, 4 * base + 8, length, x + Msb(4, 8), NumberBits(to));
  }

  /** The bearer-data record, in the same way. */
  method PutBearer(pdu: array<char>, base: nat, message: string, ghost x: seq<bool>) returns (length: nat)
    requires Holds(pdu[..], x) && |x| == 4 * base
    requires |x| + 16 + |BearerBits(message)| <= 4 * pdu.Length
    modifies pdu
    ensures Holds(pdu[..], x + TlvBits(8, BearerBits(message)))
    ensures length == 13 + UserBytes(message)
  {
    hide *;
    Nest(x, Msb(8, 8), Zeros(8));
    PutBits(pdu, 4 * base, 8, 8, x, []);
    RecordBits(x, [], 8, BearerBits(message));
    TakeZeros(pdu[..], x, Msb(8, 8), 8);
    length := EncodeBearerData(pdu, base + 4, message, x + Msb(8, 8) + Zeros(8));
    PatchByte(pdu, 4 * base + 8, length, x + Msb(8, 8), BearerBits(message));
  }

  /** Builds the parcel in a 512-character buffer; `n` is where the final NUL goes. */
  method EncodeCdmaSms(pdu: array<char>, to: string, message: string) returns (n: nat)
    requires pdu.Length == 512 && Fits(to, message)
    modifies pdu
    ensures n < 512 && pdu[n] == '\0'
    ensures pdu[..n] == CdmaPdu(to, message)
  {
    hide *;
    ghost var x, all := Header(), CdmaBits(to, message);
    CdmaBitsParts(to, message);
    PutHeader(pdu);
    var base := 10;
    var length := PutDestination(pdu, base, to, x);
    x := x + TlvBits(4, NumberBits(to));
    base := base + length * 2 + 4;
    MsbRecord(6);
    Nest(x, [], []);
    PutBits(pdu, 4 * base, 24, 0x060100, x, []);
    Nest(TlvBits(6, Zeros(8)), [], []);
    x := x + TlvBits(6, Zeros(8));
    base := base + 6;
    length := PutBearer(pdu, base, message, x);
    n := base + length * 2 + 4;
    HeldDigits(pdu[..], all, n);
    assert pdu[..][..n] == pdu[..n];
    pdu[n] := '\0';
  }

  lemma BytePowers()
    ensures Pow2(8) == 0x100 && Pow2(16) == 0x10000
  {
  }

  lemma HeaderConstants()
    ensures Msb(0, 16) + Msb(0x021002, 24) == Header()
  {
    hide *;
    BytePowers();
    ShlIsMul(0, 8);
    ShlIsMul(2, 16);
    MsbAppend(0, 0, 8, 8);
    MsbAppend(2, 0x1002, 8, 16);
    ghost var z, c, d := Msb(0, 8), Msb(2, 8), Msb(0x1002, 16);
    HeaderParts();
    Nest(z + z, c, d);
    Nest(z, z, c);
    Nest(z, z + c, d);
  }

  lemma HeaderParts()
    ensures Header() == Msb(0, 8) + (Msb(0, 8) + Msb(2, 8) + Msb(0x1002, 16))
  {
    hide Msb;
  }

  lemma AllZeroDigits(s: seq<char>)
    requires forall k :: 0 <= k < |s| ==> s[k] == '0'
    ensures Holds(s, [])
  {
    MsbZero(4);
    assert HexBits(s) == [] + Zeros(4 * |s|);
  }

  lemma HeldDigits(s: seq<char>, x: seq<bool>, m: nat)
    requires Holds(s, x) && |x| == 4 * m
    ensures m <= |s| && s[..m] == HexOf(x)
  {
    hide DigitBits;
    var t := s[..m];
    assert HexBits(t) == x by { HexBitsSlice(s, 0, m); assert s[0..m] == t; }
    HexBitsRoundTrip(t);
  }
}
