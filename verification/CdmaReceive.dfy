/** Parcels that a CDMA network delivers, laid out by hand: the sender's number, user data
    in every encoding the decoder knows, and the voice-mail count. */
module CdmaReceive {
  import opened Bits
  import opened HexFields
  import opened Basics
  import opened CdmaSms
  import opened CdmaDecode

  // ----- user data in any encoding

  predicate SevenBit(encoding: nat) {
    encoding == 2 || encoding == 3
  }

  predicate EightBit(encoding: nat) {
    encoding == 0 || encoding == 8
  }

  function Octets(text: string): (p: seq<bool>)
    ensures |p| == 8 * |text|
  {
    if text == [] then [] else Octets(text[..|text| - 1]) + Msb(text[|text| - 1] as nat, 8)
  }

  function Payload(encoding: nat, text: string): seq<bool> {
    if SevenBit(encoding) then SeptetsMsb(text) else Octets(text)
  }

  /** Bytes of user data. */
  function UserSize(encoding: nat, text: string): nat {
    (13 + (if SevenBit(encoding) then 7 else 8) * |text| + 7) / 8
  }

  function UserField(encoding: nat, text: string): (p: seq<bool>)
    ensures |p| == 8 * UserSize(encoding, text)
  {
    hide Msb, SeptetsMsb, Octets;
    Padded(Msb(encoding, 5) + Msb(|text|, 8) + Payload(encoding, text))
  }

  /** A text that the encoding can carry, in a record that a bearer-data record can hold. */
  predicate Carries(encoding: nat, text: string) {
    && encoding < 32 && |text| < 256 && UserSize(encoding, text) <= 250
    && forall j :: 0 <= j < |text| ==> text[j] as nat < if SevenBit(encoding) then 128 else 256
  }

  lemma FieldHeader(encoding: nat, text: string)
    requires Carries(encoding, text)
    ensures var s := HexOf(UserField(encoding, text));
            AllHex(s) && HexBits(s) == UserField(encoding, text) &&
            Field(s, 0, 5) == encoding && Field(s, 5, 8) == |text|
  {
    hide Msb, MsbVal, HexOf, HexBits;
    var p := UserField(encoding, text);
    HexOfRoundTrip(p, 2 * UserSize(encoding, text));
    assert p[0..0 + 5] == Msb(encoding, 5);
    assert p[5..5 + 8] == Msb(|text|, 8);
    MsbValOfByte(|text|);
    assert Pow2(5) == 32;
    MsbSmall(encoding, 5);
  }

  lemma OctetsLast(text: string)
    requires text != []
    ensures Octets(text) == Octets(text[..|text| - 1]) + Msb(text[|text| - 1] as nat, 8)
  {
    hide Msb;
  }

  lemma {:induction false} OctetAt(text: string, j: nat)
    requires j < |text|
    ensures Octets(text)[8 * j..8 * j + 8] == Msb(text[j] as nat, 8)
  {
    hide *;
    var t, q := text[..|text| - 1], Msb(text[|text| - 1] as nat, 8);
    OctetsLast(text);
    if j < |t| {
      OctetAt(t, j);
      SliceLeft(Octets(t), q, 8 * j, 8 * j + 8);
    } else {
      SliceRight(Octets(t), q);
    }
  }

  lemma CharOfOctet(encoding: nat, text: string, j: nat)
    requires Carries(encoding, text) && !SevenBit(encoding) && j < |text|
    ensures var s := HexOf(UserField(encoding, text));
            AllHex(s) && 21 + 8 * j <= 4 * |s| && CharAt(s, 13 + 8 * j, 8) == text[j]
  {
    hide Msb, MsbVal, HexOf, HexBits, Octets;
    var p := UserField(encoding, text);
    FieldHeader(encoding, text);
    OctetAt(text, j);
    assert p[13 + 8 * j..13 + 8 * j + 8] == Octets(text)[8 * j..8 * j + 8];
    MsbValOfByte(text[j] as nat);
  }

  lemma CharOfSeptet(encoding: nat, text: string, j: nat)
    requires Carries(encoding, text) && SevenBit(encoding) && j < |text|
    ensures var s := HexOf(UserField(encoding, text));
            AllHex(s) && 20 + 7 * j <= 4 * |s| && CharAt(s, 13 + 7 * j, 7) == text[j]
  {
    hide Msb, MsbVal, HexOf, HexBits, SeptetsMsb;
    var p := UserField(encoding, text);
    FieldHeader(encoding, text);
    SeptetAt(text, j);
    assert p[13 + 7 * j..13 + 7 * j + 7] == SeptetsMsb(text)[7 * j..7 * j + 7];
    assert Pow2(7) == 128;
    MsbSmall(text[j] as nat, 7);
  }

  /** What is read of user data: the text in the 7-bit encodings 2 and 3 and in the 8-bit
      encodings 0 and 8, and a complaint in any other. */
  lemma UserFieldReads(encoding: nat, text: string)
    requires Carries(encoding, text)
    ensures var s := HexOf(UserField(encoding, text));
            UserFits(s) &&
            UserText(s) == if SevenBit(encoding) || EightBit(encoding) then text else "bad SMS encoding"
  {
    hide Msb, MsbVal, HexOf, HexBits, Chars;
    var s := HexOf(UserField(encoding, text));
    FieldHeader(encoding, text);
    if SevenBit(encoding) {
      forall j | 0 <= j < |text| ensures Chars(s, 7, |text|)[j] == text[j] {
        CharOfSeptet(encoding, text, j);
        CharsAt(s, 7, |text|, j);
      }
    } else if EightBit(encoding) {
      forall j | 0 <= j < |text| ensures Chars(s, 8, |text|)[j] == text[j] {
        CharOfOctet(encoding, text, j);
        CharsAt(s, 8, |text|, j);
      }
    }
  }

  // ----- a whole parcel

  /** The voice-mail record: a count in two decimal digits, the low one first. */
  function MailField(count: nat): (p: seq<bool>)
    ensures |p| == 8
  {
    Msb(count % 10 * 16 + count / 10 % 10, 8)
  }

  /** Bearer data with user data and, if given, a voice-mail count. */
  function BearerField(encoding: nat, text: string, mails: Option<nat>): (p: seq<bool>)
    ensures |p| == 8 * BearerSize(encoding, text, mails)
  {
    hide UserField, UserSize, TlvBits, MailField;
    TlvBits(1, UserField(encoding, text)) + if mails.Some? then TlvBits(11, MailField(mails.value)) else []
  }

  function BearerSize(encoding: nat, text: string, mails: Option<nat>): nat {
    2 + UserSize(encoding, text) + if mails.Some? then 3 else 0
  }

  /** What the flag says of a voice-mail count: 0 without one, bit 4 when mail waits. */
  function Flag(mails: Option<nat>): nat {
    if mails == None then 0 else if mails.value % 100 == 0 then 0x01 else 0x11
  }

  /** A parcel from `no`: message type, originating address, bearer data. */
  function Parcel(no: string, encoding: nat, text: string, mails: Option<nat>): string {
    HexOf(Msb(0, 8)) + (TlvHex(2, NumberBits(no)) + TlvHex(8, BearerField(encoding, text, mails)))
  }

  lemma SizesFit(encoding: nat, text: string, mails: Option<nat>)
    requires Carries(encoding, text)
    ensures UserSize(encoding, text) <= 250 && BearerSize(encoding, text, mails) < 256
  {
  }

  lemma BearerIs(encoding: nat, text: string, mails: Option<nat>)
    requires Carries(encoding, text)
    ensures HexOf(BearerField(encoding, text, mails)) ==
            TlvHex(1, UserField(encoding, text)) + if mails.Some? then TlvHex(11, MailField(mails.value)) + [] else []
  {
    hide UserField, UserSize, HexOf, TlvBits, MailField;
    var u := TlvBits(1, UserField(encoding, text));
    if mails.Some? {
      HexOfAppend(u, TlvBits(11, MailField(mails.value)), 4 + 2 * UserSize(encoding, text));
      assert TlvHex(11, MailField(mails.value)) + [] == TlvHex(11, MailField(mails.value));
    } else {
      assert u + [] == u && HexOf(u) + [] == HexOf(u);
    }
  }

  /** The bearer data consists of the user data and the count. */
  lemma BearerReads(encoding: nat, text: string, mails: Option<nat>)
    requires Carries(encoding, text)
    ensures var s := HexOf(BearerField(encoding, text, mails));
            && AllHex(s)
            && Tlvs(s) == Some([Tlv(1, HexOf(UserField(encoding, text)))] +
                               if mails.Some? then [Tlv(11, HexOf(MailField(mails.value)))] else [])
  {
    hide *;
    TlvsEmpty();
    AllHexEmpty();
    SizesFit(encoding, text, mails);
    BearerIs(encoding, text, mails);
    var p := UserField(encoding, text);
    var n := UserSize(encoding, text);
    if mails.Some? {
      TlvParse(11, MailField(mails.value), 1, []);
      TlvParse(1, p, n, TlvHex(11, MailField(mails.value)) + []);
      One(Tlv(11, HexOf(MailField(mails.value))));
    } else {
      TlvParse(1, p, n, []);
    }
  }

  lemma One<T>(a: T)
    ensures [a] + [] == [a]
  {
  }

  lemma MailDigits(count: nat)
    ensures var s := HexOf(MailField(count));
            && AllHex(s) && |s| == 2
            && (HexVal(s[0]) + 16 * HexVal(s[1]) != 0 <==> count % 100 != 0)
  {
    hide Msb, MsbVal, HexOf;
    var v := count % 10 * 16 + count / 10 % 10;
    HexOfRoundTrip(Msb(v, 8), 2);
    ByteOfHex(v, [], []);
    AllHexEmpty();
    var s := HexOf(MailField(count));
    assert [] + s + [] == s;
    assert HexVal(s[0]) * 16 + HexVal(s[1]) == v;
    assert count % 100 == 0 <==> count % 10 == 0 && count / 10 % 10 == 0;
  }

  /** The fold over the bearer data. */
  lemma BearerSays(encoding: nat, text: string, mails: Option<nat>)
    requires Carries(encoding, text)
    ensures var s := HexOf(BearerField(encoding, text, mails));
            && AllHex(s) && BearerOk(s) && BearerTlvs(Tlvs(s).value)
            && BearerFold(Bearer("", false, 0), Tlvs(s).value)
               == Bearer(if SevenBit(encoding) || EightBit(encoding) then text else "bad SMS encoding", true, Flag(mails))
  {
    hide UserField, HexOf, UserText, UserFits, Tlvs, MailField;
    BearerReads(encoding, text, mails);
    UserFieldReads(encoding, text);
    var s := HexOf(BearerField(encoding, text, mails));
    BodiesHex(s);
    var ts := Tlvs(s).value;
    FoldStep(Bearer("", false, 0), ts);
    assert "" + UserText(ts[0].body) == UserText(ts[0].body);
    if mails.Some? {
      MailDigits(mails.value);
      assert ts[1..] == [ts[1]];
      FoldStep(BearerStep(Bearer("", false, 0), ts[0]), ts[1..]);
      assert ts[1..][1..] == [];
    } else {
      assert ts[1..] == [];
    }
  }

  lemma ParcelReads(no: string, encoding: nat, text: string, mails: Option<nat>)
    requires Carries(encoding, text) && NumberBytes(no) < 256
    ensures var s := Parcel(no, encoding, text, mails);
            && AllHex(s) && 2 <= |s|
            && Tlvs(s[2..]) == Some([Tlv(2, HexOf(NumberBits(no))), Tlv(8, HexOf(BearerField(encoding, text, mails)))])
  {
    hide *;
    TlvsEmpty();
    AllHexEmpty();
    SizesFit(encoding, text, mails);
    var n, b := NumberBits(no), BearerField(encoding, text, mails);
    TlvParse(8, b, BearerSize(encoding, text, mails), []);
    TlvParse(2, n, NumberBytes(no), TlvHex(8, b) + []);
    ParcelIs(no, encoding, text, mails);
    Two(Tlv(2, HexOf(n)), Tlv(8, HexOf(b)));
  }

  lemma Two<T>(a: T, b: T)
    ensures [a] + ([b] + []) == [a, b]
  {
  }

  lemma ParcelIs(no: string, encoding: nat, text: string, mails: Option<nat>)
    requires AllHex(TlvHex(2, NumberBits(no)) + (TlvHex(8, BearerField(encoding, text, mails)) + []))
    ensures var s := Parcel(no, encoding, text, mails);
            && AllHex(s) && 2 <= |s|
            && s[2..] == TlvHex(2, NumberBits(no)) + (TlvHex(8, BearerField(encoding, text, mails)) + [])
  {
    hide HexOf, TlvBits, Msb, NumberBits, BearerField;
    HexOfRoundTrip(Msb(0, 8), 2);
    var b := TlvHex(8, BearerField(encoding, text, mails));
    assert b + [] == b;
  }

  /** A delivered parcel tells the sender's number, the text in every encoding that is
      known, and whether voice mail waits. */
  lemma Received(no: string, encoding: nat, text: string, mails: Option<nat>)
    requires Carries(encoding, text)
    requires |no| < 256 && forall j :: 0 <= j < |no| ==> no[j] in ".1234567890*#"
    ensures var pdu := Parcel(no, encoding, text, mails);
            && WellFormed(pdu)
            && Decode(pdu) ==
               Decoded(no, if SevenBit(encoding) || EightBit(encoding) then text else "bad SMS encoding", Flag(mails))
  {
    hide NumberBits, HexOf, NumberOf, NumberFits, BearerField, Parcel, BearerFold, BearerOk, BearerTlvs, Tlvs;
    NumberSize(no);
    ParcelReads(no, encoding, text, mails);
    BearerSays(encoding, text, mails);
    TableHas(no);
    NumberRoundTripIff(no);
    var pdu := Parcel(no, encoding, text, mails);
    BodiesHex(pdu[2..]);
    var ts := Tlvs(pdu[2..]).value;
    SmsFoldStep(FAILED, ts);
    assert ts[1..] == [ts[1]];
    SmsFoldStep(SmsStep(FAILED, ts[0]), ts[1..]);
    assert ts[1..][1..] == [];
  }

  lemma NumberSize(no: string)
    requires |no| < 256
    ensures NumberBytes(no) < 256
  {
  }

  lemma TableHas(no: string)
    requires forall j :: 0 <= j < |no| ==> no[j] in ".1234567890*#"
    ensures forall j :: 0 <= j < |no| ==> no[j] in DECODE_TABLE
  {
    assert DECODE_TABLE == ".1234567890*#" + "...";
  }

  /** Without records a parcel says this. */
  lemma NothingReceived(pdu: string)
    requires |pdu| == 2 && AllHex(pdu)
    ensures WellFormed(pdu) && Decode(pdu) == Decoded("000000", "UNKNOWN", 0)
  {
    assert pdu[2..] == [];
  }
}
