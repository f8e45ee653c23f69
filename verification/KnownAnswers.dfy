/** Concrete inputs with the outputs that the source and the standards give for them, byte
    by byte: they fix tables, orders and constants that the laws leave open. */
module KnownAnswers {
  import opened Bits
  import opened Basics
  import opened HexFields
  import CdmaSms
  import CdmaDecode
  import opened Septets
  import opened Gsm7
  import Utf8
  import SmsAddress
  import SmsDeliver
  import Transcode
  import AtReader
  import AtTok
  import PhoneBook
  import SmsSegments
  import Registry

  // ----- CDMA parcels

  /** `m` hexadecimal digits of `v`. */
  function Hexadecimal(v: nat, m: nat): string {
    if m == 0 then [] else Hexadecimal(v / 16, m - 1) + [HEX_TABLE[v % 16]]
  }

  lemma {:induction false} Glue(a: nat, m: nat, b: nat, n: nat, v: nat)
    requires b < Pow2(n) && v == a * Pow2(n) + b
    ensures Msb(a, m) + Msb(b, n) == Msb(v, m + n)
  {
    ShlIsMul(a, n);
    CdmaSms.MsbAppend(a, b, m, n);
  }

  lemma {:induction false} HexOfNumber(v: nat, m: nat)
    ensures HexOf(Msb(v, 4 * m)) == Hexadecimal(v, m)
  {
    hide Msb, HexOf, HEX_TABLE;
    if m == 0 {
      NoDigits(v);
    } else {
      HexOfNumber(v / 16, m - 1);
      PowerFour();
      Glue(v / 16, 4 * (m - 1), v % 16, 4, v);
      HexOfAppend(Msb(v / 16, 4 * (m - 1)), Msb(v % 16, 4), m - 1);
      OneDigit(v % 16);
    }
  }

  lemma NoDigits(v: nat)
    ensures HexOf(Msb(v, 4 * 0)) == []
  {
  }

  lemma PowerFour()
    ensures Pow2(4) == 16 && Pow2(6) == 64 && Pow2(7) == 128 && Pow2(8) == 256 && Pow2(5) == 32 && Pow2(16) == 0x1_0000
  {
    assert Pow2(8) == 256;
  }

  lemma OneDigit(v: nat)
    requires v < 16
    ensures HexOf(Msb(v, 4)) == [HEX_TABLE[v]]
  {
    MsbRoundTrip(v, 4);
    FromToBits(v, 4);
    assert Pow2(4) == 16;
    var p := Msb(v, 4);
    assert p[..4] == p && p[4..] == [];
  }

  lemma ZerosAre(n: nat)
    ensures Zeros(n) == Msb(0, n)
  {
    CdmaSms.MsbZero(n);
  }

  lemma Codes()
    ensures CdmaSms.DigitsBits("12") == Msb(1, 4) + Msb(2, 4)
  {
    hide Msb, CdmaSms.DigitCode;
    assert "12"[..1] == "1" && "1"[..0] == "";
    DigitCodes();
    assert [] + Msb(1, 4) == Msb(1, 4);
  }

  lemma NumberLayout()
    ensures CdmaSms.NumberBits("12") == Zeros(2) + Msb(2, 8) + CdmaSms.DigitsBits("12") + Zeros(6)
  {
    hide Msb, Zeros, CdmaSms.DigitsBits;
  }

  lemma Nested(a: seq<bool>, b: seq<bool>, c: seq<bool>)
    ensures a + (b + c) == a + b + c
  {
  }

  /** One digit of a literal. */
  lemma HexStep(v: nat, m: nat, u: nat, d: nat, s: string)
    requires m > 0 && v == 16 * u + d && d < 16 && Hexadecimal(u, m - 1) == s
    ensures Hexadecimal(v, m) == s + [HEX_TABLE[d]]
  {
  }

  /** The number 12: digit count 2, then the codes 1 and 2. */
  lemma NumberAnswer()
    ensures HexOf(CdmaSms.NumberBits("12")) == "008480"
  {
    hide *;
    NumberIs();
    HexOfNumber(0x8480, 6);
    Hex8480();
  }

  lemma Hex8480()
    ensures Hexadecimal(0x8480, 6) == "008480"
  {
    HexStep(0, 1, 0, 0, "");
    HexStep(0, 2, 0, 0, "0");
    HexStep(8, 3, 0, 8, "00");
    HexStep(0x84, 4, 8, 4, "008");
    HexStep(0x848, 5, 0x84, 8, "0084");
    HexStep(0x8480, 6, 0x848, 0, "00848");
  }

  lemma NumberIs()
    ensures CdmaSms.NumberBits("12") == Msb(0x8480, 24)
  {
    hide *;
    PowerFour();
    ZerosAre(2);
    ZerosAre(6);
    NumberLayout();
    Codes();
    Glue(0, 2, 2, 8, 2);
    Glue(2, 10, 1, 4, 33);
    Glue(33, 14, 2, 4, 530);
    Glue(530, 18, 0, 6, 0x8480);
    Nested(Msb(2, 10), Msb(1, 4), Msb(2, 4));
  }

  lemma HexOfByte(v: nat)
    requires v < 256
    ensures HexOf(Msb(v, 8)) == [HEX_TABLE[v / 16], HEX_TABLE[v % 16]]
  {
    hide Msb, HexOf, Hexadecimal, HEX_TABLE;
    TableDigits();
    HexOfNumber(v, 2);
    NoneHexadecimal(v / 16 / 16);
    HexStep(v / 16, 1, 0, v / 16, "");
    HexStep(v, 2, v / 16, v % 16, [] + [HEX_TABLE[v / 16]]);
  }

  lemma NoneHexadecimal(v: nat)
    ensures Hexadecimal(v, 0) == ""
    ensures Hexadecimal(0, 0) == ""
  {
  }

  /** A record in digits. */
  lemma RecordText(code: nat, body: seq<bool>, n: nat, s: string)
    requires code < 256 && n < 256 && |body| == 8 * n && HexOf(body) == s
    ensures CdmaDecode.TlvHex(code, body) ==
            [HEX_TABLE[code / 16], HEX_TABLE[code % 16], HEX_TABLE[n / 16], HEX_TABLE[n % 16]] + s
  {
    hide Msb, HexOf, HEX_TABLE, CdmaSms.TlvBits, CdmaDecode.TlvHex;
    CdmaDecode.TlvHexParts(code, body, n);
    HexOfByte(code);
    HexOfByte(n);
  }

  lemma Hex200410()
    ensures Hexadecimal(0x200410, 6) == "200410"
  {
    HexStep(0x2, 1, 0x0, 0x2, "");
    HexStep(0x20, 2, 0x2, 0x0, "2");
    HexStep(0x200, 3, 0x20, 0x0, "20");
    HexStep(0x2004, 4, 0x200, 0x4, "200");
    HexStep(0x20041, 5, 0x2004, 0x1, "2004");
    HexStep(0x200410, 6, 0x20041, 0x0, "20041");
  }

  lemma Hex100C10()
    ensures Hexadecimal(0x100C10, 6) == "100C10"
  {
    HexStep(0x1, 1, 0x0, 0x1, "");
    HexStep(0x10, 2, 0x1, 0x0, "1");
    HexStep(0x100, 3, 0x10, 0x0, "10");
    HexStep(0x100C, 4, 0x100, 0xC, "100");
    HexStep(0x100C1, 5, 0x100C, 0x1, "100C");
    HexStep(0x100C10, 6, 0x100C1, 0x0, "100C1");
  }

  lemma Hex1002()
    ensures Hexadecimal(0x1002, 4) == "1002"
  {
    HexStep(0x1, 1, 0x0, 0x1, "");
    HexStep(0x10, 2, 0x1, 0x0, "1");
    HexStep(0x100, 3, 0x10, 0x0, "10");
    HexStep(0x1002, 4, 0x100, 0x2, "100");
  }

  lemma IdIs()
    ensures HexOf(CdmaSms.IdBits("A")) == "200410"
  {
    hide *;
    PowerFour();
    ZerosAre(4);
    IdLayout();
    Glue(2, 4, 65, 16, 0x20041);
    Glue(0x20041, 20, 0, 4, 0x200410);
    HexOfNumber(0x200410, 6);
    Hex200410();
  }

  lemma TableDigits()
    ensures |HEX_TABLE| == 16 && HEX_TABLE[0] == '0' && HEX_TABLE[1] == '1' && HEX_TABLE[2] == '2' && HEX_TABLE[3] == '3'
    ensures HEX_TABLE[4] == '4' && HEX_TABLE[5] == '5' && HEX_TABLE[6] == '6' && HEX_TABLE[8] == '8'
    ensures HEX_TABLE[12] == 'C' && HEX_TABLE[13] == 'D'
  {
  }

  lemma IdLayout()
    ensures CdmaSms.IdBits("A") == Msb(2, 4) + Msb(65, 16) + Zeros(4)
  {
    hide Msb, Zeros;
    assert CdmaSms.CharSum("A") == 65;
  }

  lemma UserIs()
    ensures HexOf(CdmaSms.UserBits("A")) == "100C10"
  {
    hide *;
    PowerFour();
    ZerosAre(4);
    UserLayout();
    Glue(2, 5, 1, 8, 513);
    Glue(513, 13, 65, 7, 65729);
    Glue(65729, 20, 0, 4, 0x100C10);
    HexOfNumber(0x100C10, 6);
    Hex100C10();
  }

  lemma UserLayout()
    ensures CdmaSms.UserBits("A") == Msb(2, 5) + Msb(1, 8) + Msb(65, 7) + Zeros(4)
  {
    hide Msb, Zeros;
    assert CdmaSms.SeptetsMsb("A") == [] + Msb(65, 7) == Msb(65, 7);
  }

  lemma ZeroByte()
    ensures HexOf(Zeros(8)) == "00"
  {
    hide *;
    ZerosAre(8);
    HexOfByte(0);
    TableDigits();
  }

  lemma TeleserviceIs()
    ensures HexOf(Msb(0x1002, 16)) == "1002"
  {
    hide *;
    HexOfNumber(0x1002, 4);
    Hex1002();
  }

  lemma BearerIs()
    ensures HexOf(CdmaSms.BearerBits("A")) == "00032004100103100C100801000D0100"
  {
    hide *;
    CdmaDecode.BearerParts("A");
    IdIs();
    UserIs();
    ZeroByte();
    TableDigits();
    UserBytesOfOne();
    RecordText(0, CdmaSms.IdBits("A"), 3, "200410");
    RecordText(1, CdmaSms.UserBits("A"), 3, "100C10");
    RecordText(8, Zeros(8), 1, "00");
    RecordText(13, Zeros(8), 1, "00");
    BearerText();
  }

  lemma UserBytesOfOne()
    ensures CdmaSms.UserBytes("A") == 3 && CdmaSms.NumberBytes("12") == 3
  {
  }

  lemma BearerText()
    ensures "0003" + "200410" + ("0103" + "100C10" + ("0801" + "00" + ("0D01" + "00" + [])))
         == "00032004100103100C100801000D0100"
  {
  }

  /** The parcel that carries "A" to 12. */
  lemma ParcelAnswer()
    ensures CdmaSms.CdmaPdu("12", "A")
         == "00" + "00021002" + "0403008480" + "060100" + "0810" + "0003200410" + "0103100C10" + "080100" + "0D0100"
  {
    hide *;
    NumberAnswer();
    ZeroByte();
    TeleserviceIs();
    BearerIs();
    TableDigits();
    UserBytesOfOne();
    RecordText(0, Msb(0x1002, 16), 2, "1002");
    RecordText(4, CdmaSms.NumberBits("12"), 3, "008480");
    RecordText(6, Zeros(8), 1, "00");
    RecordText(8, CdmaSms.BearerBits("A"), 16, "00032004100103100C100801000D0100");
    CdmaDecode.FitsShort("12", "A");
    CdmaDecode.OuterTlvsOf("12", "A");
    HexOfByte(0);
    PduIs();
    ParcelText();
  }

  lemma PduIs()
    ensures CdmaSms.CdmaPdu("12", "A") ==
            HexOf(Msb(0, 8)) +
              (CdmaDecode.TlvHex(0, Msb(0x1002, 16)) + (CdmaDecode.TlvHex(4, CdmaSms.NumberBits("12")) +
                (CdmaDecode.TlvHex(6, Zeros(8)) + CdmaDecode.TlvHex(8, CdmaSms.BearerBits("A")))))
  {
    hide HexOf, CdmaSms.TlvBits, Msb, Zeros, CdmaSms.NumberBits, CdmaSms.BearerBits;
    var y, h := Msb(0, 8), CdmaSms.TlvBits(0, Msb(0x1002, 16));
    var a, b := CdmaSms.TlvBits(4, CdmaSms.NumberBits("12")), CdmaSms.TlvBits(6, Zeros(8));
    var c := CdmaSms.TlvBits(8, CdmaSms.BearerBits("A"));
    HexOfAppend(y + h + a + b, c, 26);
    HexOfAppend(y + h + a, b, 20);
    HexOfAppend(y + h, a, 10);
    HexOfAppend(y, h, 2);
  }

  lemma ParcelText()
    ensures "00" + ("0002" + "1002" + ("0403" + "008480" + ("0601" + "00" + ("0810" + "00032004100103100C100801000D0100"))))
         == "00" + "00021002" + "0403008480" + "060100" + "0810" + "0003200410" + "0103100C10" + "080100" + "0D0100"
  {
  }

  /** A parcel that holds nothing but the sender 12. */
  lemma SenderAnswer()
    ensures CdmaDecode.WellFormed("000203008480")
    ensures CdmaDecode.Decode("000203008480") == CdmaDecode.Decoded("12", "UNKNOWN", 0)
  {
    hide *;
    NumberAnswer();
    TableDigits();
    UserBytesOfOne();
    RecordText(2, CdmaSms.NumberBits("12"), 3, "008480");
    CdmaDecode.TlvsEmpty();
    CdmaDecode.AllHexEmpty();
    CdmaDecode.TlvParse(2, CdmaSms.NumberBits("12"), 3, []);
    SenderText();
    SenderSays();
  }

  lemma SenderText()
    ensures "0203" + "008480" + [] == "0203008480" == "000203008480"[2..]
  {
  }

  lemma SenderSays()
    requires AllHex("0203008480") && CdmaDecode.Tlvs("0203008480") == Some([CdmaDecode.Tlv(2, "008480")] + [])
    requires HexOf(CdmaSms.NumberBits("12")) == "008480"
    ensures CdmaDecode.WellFormed("000203008480")
    ensures CdmaDecode.Decode("000203008480") == CdmaDecode.Decoded("12", "UNKNOWN", 0)
  {
    hide CdmaDecode.Tlvs, CdmaSms.NumberBits, HexOf, CdmaDecode.NumberOf, CdmaDecode.NumberFits;
    CdmaDecode.NumberRoundTripIff("12");
    var s := "000203008480";
    assert s[2..] == "0203008480" && AllHex(s);
    var ts := CdmaDecode.Tlvs(s[2..]).value;
    assert ts == [CdmaDecode.Tlv(2, "008480")];
    CdmaDecode.SmsFoldStep(CdmaDecode.FAILED, ts);
    assert ts[1..] == [];
  }

  /** The codes of the dialled characters. */
  lemma DigitCodes()
    ensures CdmaSms.DigitCode('1') == 1 && CdmaSms.DigitCode('2') == 2 && CdmaSms.DigitCode('3') == 3
    ensures CdmaSms.DigitCode('4') == 4 && CdmaSms.DigitCode('5') == 5 && CdmaSms.DigitCode('6') == 6
    ensures CdmaSms.DigitCode('7') == 7 && CdmaSms.DigitCode('8') == 8 && CdmaSms.DigitCode('9') == 9
    ensures CdmaSms.DigitCode('0') == 10 && CdmaSms.DigitCode('*') == 11 && CdmaSms.DigitCode('#') == 12
  {
    hide CdmaSms.DigitCode;
    CodeIs('1', 1);
    CodeIs('2', 2);
    CodeIs('3', 3);
    CodeIs('4', 4);
    CodeIs('5', 5);
    CodeIs('6', 6);
    CodeIs('7', 7);
    CodeIs('8', 8);
    CodeIs('9', 9);
    CodeIs('0', 10);
    CodeIs('*', 11);
    CodeIs('#', 12);
  }

  lemma CodeIs(c: char, k: nat)
    requires k < 16 && CdmaSms.DECODE_TABLE[k] == c && forall j :: 0 <= j < k ==> CdmaSms.DECODE_TABLE[j] != c
    ensures CdmaSms.DigitCode(c) == k
  {
    hide IndexFrom;
  }

  // ----- GSM PDUs

  lemma GlueLow(a: nat, m: nat, b: nat, n: nat, v: nat)
    requires a < Pow2(m) && b < Pow2(n) && v == a + b * Pow2(m)
    ensures ToBits(a, m) + ToBits(b, n) == ToBits(v, m + n)
  {
    hide ToBits, FromBits, Low, Shl;
    var p, q := ToBits(a, m), ToBits(b, n);
    FromToBits(a, m);
    FromToBits(b, n);
    FromBitsAppend(p, q);
    ShlIsMul(b, m);
    ToFromBits(p + q);
  }

  lemma LowPowers()
    ensures Pow2(2) == 4 && Pow2(7) == 128 && Pow2(8) == 256 && Pow2(14) == 16384
  {
    assert Pow2(7) == 128;
    assert Pow2(10) == 8 * Pow2(7);
    assert Pow2(14) == 16 * Pow2(10);
  }

  lemma TwoBytes(a: byte, b: byte)
    ensures ByteBits([a, b]) == ToBits(a, 8) + ToBits(b, 8)
  {
    hide ToBits, ByteBits;
    assert [a, b] == [a] + [b];
    ByteBitsAppend([a], [b]);
    ByteBitsOne(a);
    ByteBitsOne(b);
  }

  lemma TwoSeptets(a: nat, b: nat)
    ensures SeptetBits([a, b]) == ToBits(a, 7) + ToBits(b, 7)
  {
    hide ToBits;
    assert [a, b][..1] == [a] && [a][..0] == [];
    assert [] + ToBits(a, 7) == ToBits(a, 7);
  }

  /** The septets of "hi", packed from the lowest bit up. */
  lemma HiPacked()
    ensures SmsDeliver.Packed(0, [0x68, 0x69]) == [0xE8, 0x34]
  {
    hide ToBits, ByteBits, SeptetBits, BytesOf, Pow2;
    LowPowers();
    SmsDeliver.PackedDef(0, [0x68, 0x69]);
    TwoSeptets(0x68, 0x69);
    TwoBytes(0xE8, 0x34);
    GlueLow(0x68, 7, 0x69, 7, 13544);
    ZeroBits(2);
    GlueLow(13544, 14, 0, 2, 13544);
    GlueLow(0xE8, 8, 0x34, 8, 13544);
    BytesOfRoundTrip([0xE8, 0x34]);
    assert Zeros(0) + ToBits(13544, 14) == ToBits(13544, 14);
  }

  function Hi(): seq<byte> {
    [0x68, 0x69]
  }

  lemma HiSeptets()
    ensures TextSeptets(Hi()) == [0x68, 0x69]
  {
    hide CharSeptets, TextSeptets;
    var h, i: seq<byte> := [0x68], [0x69];
    OwnSeptet(0x68);
    OwnSeptet(0x69);
    TextSeptetsCons(0x68, i);
    TextSeptetsCons(0x69, []);
    TextSeptetsEmpty();
    assert h + i == Hi() && i + [] == i;
  }

  /** Address fields: a national number of odd length, an international one, and one
      without fill. */
  lemma AddressAnswers()
    ensures SmsAddress.Toa("123") == 0x81 && SmsAddress.Toa("+123") == 0x91
    ensures SmsAddress.DigitsOf("123") == "123" && SmsAddress.DigitsOf("+123") == "123"
    ensures SmsAddress.Digits("123") && SmsAddress.Digits("12")
    ensures SmsAddress.SemiOctets("123") == [0x21, 0xF3] && SmsAddress.SemiOctets("12") == [0x21]
    ensures SmsAddress.AddressBytes(3, 0x91, [0x21, 0xF3]) == [3, 0x91, 0x21, 0xF3]
  {
    hide SmsAddress.Octet;
    OctetAnswers();
  }

  lemma OctetAnswers()
    ensures SmsAddress.Digits("123") && SmsAddress.Digits("12")
    ensures SmsAddress.Octet("123", 0) == 0x21 && SmsAddress.Octet("123", 1) == 0xF3 && SmsAddress.Octet("12", 0) == 0x21
  {
  }

  /** The sizes that limits are made of: parts of 154 septets or 134 characters, 32 digits
      an address, 256 requests, and lines of a buffer of 8192 characters. */
  lemma Sizes()
    ensures SmsSegments.Parts(154, SmsSegments.GSM7_BLOCK) == 1 && SmsSegments.Parts(155, SmsSegments.GSM7_BLOCK) == 2
    ensures SmsSegments.Parts(134, SmsSegments.UCS2_BLOCK) == 1 && SmsSegments.Parts(135, SmsSegments.UCS2_BLOCK) == 2
    ensures 2 * SmsAddress.MAX_SIZE == 32 && Registry.CAPACITY == 256 && AtReader.MAX == 8192
  {
  }

  /** "hi" to 123 as an SMS-SUBMIT. */
  lemma SubmitAnswer()
    ensures SmsAddress.DialString("123") && |TextSeptets(Hi())| < 256
    ensures Transcode.SubmitPdu([], 0x01, 0, "123", 0, Hi())
         == [0x00, 0x01, 0x00, 0x03, 0x81, 0x21, 0xF3, 0x00, 0x00, 0x02, 0xE8, 0x34]
  {
    hide TextSeptets, SmsDeliver.Packed, SmsAddress.SemiOctets;
    HiSeptets();
    HiPacked();
    AddressAnswers();
    SmsAddress.OrHigh(0xF3);
  }

  /** The same in digits, and the parcel it becomes. */
  lemma TranscodeAnswer()
    ensures Transcode.Convertible("000100038121F3000002E834")
    ensures Transcode.Transcoded("000100038121F3000002E834") == CdmaSms.CdmaPdu("123", "hi")
  {
    hide Transcode.SubmitPdu, Transcode.HexToBytes, Transcode.ParseSubmit, TextSeptets, Decode, CdmaSms.CdmaPdu, CString, Transcode.BytesToHex;
    SubmitAnswer();
    var p := Transcode.SubmitPdu([], 0x01, 0, "123", 0, Hi());
    SubmitHex();
    Transcode.HexBytesRoundTrip(p);
    Transcode.SubmitParses([], 0x01, 0, "123", 0, Hi());
    HiDecodes();
    Transcode.WholeString(Hi());
    Transcode.FitsSubmit("123", "hi");
    assert Transcode.Chars(Hi()) == "hi";
  }

  lemma HiDecodes()
    ensures Decode(TextSeptets(Hi()), false) == Hi() && 0 !in Hi()
  {
    hide TextSeptets, Decode;
    HiSingle();
    PlainText(Hi());
  }

  lemma HiSingle()
    ensures Single(0x68) && Single(0x69)
  {
    assert DefaultTable()[0x68] == 0x68 && DefaultTable()[0x69] == 0x69;
  }

  lemma SubmitHex()
    ensures Transcode.BytesToHex([0x00, 0x01, 0x00, 0x03, 0x81, 0x21, 0xF3, 0x00, 0x00, 0x02, 0xE8, 0x34])
         == "000100038121F3000002E834"
  {
  }

  /** "hi" from +123 as an SMS-DELIVER: alone, as the second of three parts, and in UCS2. */
  lemma DeliverAnswers(stamp: seq<byte>)
    requires |stamp| == 7
    ensures SmsDeliver.DeliverPdu(Hi(), true, [3, 0x91, 0x21, 0xF3], stamp, 7, 1, 0)
         == [0x00, 0x20, 0x03, 0x91, 0x21, 0xF3, 0x00, 0x00] + stamp + [0x02, 0xE8, 0x34]
    ensures |SmsDeliver.DeliverPdu(Hi(), true, [3, 0x91, 0x21, 0xF3], stamp, 7, 3, 1)| >= 22
    ensures SmsDeliver.DeliverPdu(Hi(), true, [3, 0x91, 0x21, 0xF3], stamp, 7, 3, 1)[..22]
         == [0x00, 0x60, 0x03, 0x91, 0x21, 0xF3, 0x00, 0x00] + stamp + [0x09, 0x05, 0x00, 0x03, 0x07, 0x03, 0x02]
    ensures SmsDeliver.DeliverPdu(Hi(), false, [3, 0x91, 0x21, 0xF3], stamp, 7, 1, 0)
         == [0x00, 0x20, 0x03, 0x91, 0x21, 0xF3, 0x00, 0x09] + stamp + [0x04, 0x04, 0x00, 0x68, 0x00, 0x69]
  {
    hide TextSeptets, SmsDeliver.Packed;
    HiSeptets();
    HiPacked();
    assert Hi()[..1] == [0x68] && [0x68][..0] == [];
  }

  // ----- UTF-8

  /** A letter, an accented one, the euro sign and a character beyond 16 bits. */
  lemma Utf8Answers()
    ensures Utf8.Encode(0x41) == [0x41] && Utf8.Encode(0xE9) == [0xC3, 0xA9]
    ensures Utf8.Encode(0x20AC) == [0xE2, 0x82, 0xAC] && Utf8.Encode(0x1F600) == [0xF0, 0x9F, 0x98, 0x80]
  {
    assert Utf8.Encode(0x20AC)[1] == 0x82;
    assert Utf8.Encode(0x1F600)[1] == 0x9F && Utf8.Encode(0x1F600)[2] == 0x98;
  }

  // ----- AT lines and tokens

  lemma FirstLine()
    ensures AtReader.NextLine("\r\nOK\r\n\r\nRI") == Some(("OK", "\n\r\nRI"))
  {
    hide AtReader.NextLine;
    var s := "\r\nOK\r\n\r\nRI";
    AtReader.NextLineIs(s, 2, 2);
    assert s[2..4] == "OK" && s[5..] == "\n\r\nRI";
  }

  /** Empty lines between newlines are no lines; text after the last newline is none yet. */
  lemma LinesAnswer()
    ensures AtReader.Lines("\r\nOK\r\n\r\nRI") == ["OK"]
  {
    hide AtReader.NextLine, AtReader.Lines;
    FirstLine();
    AtReader.NoLine("\n\r\nRI", 3);
    AtReader.LinesStep("\r\nOK\r\n\r\nRI");
    AtReader.LinesStep("\n\r\nRI");
  }

  /** Tokens end at commas, but not at those in quotes. */
  lemma TokenAnswers()
    ensures AtTok.Next("1,2") == ("1", Some("2"))
    ensures AtTok.Next(" \"a,b\",c") == ("a,b", Some("c"))
    ensures AtTok.Next("x") == ("x", None)
  {
    hide AtTok.Next;
    var one := AtTok.Field("", AtTok.Bare("1"));
    AtTok.NextField(one, ",2");
    assert AtTok.FieldText(one) + ",2" == "1,2" && ",2"[1..] == "2";
    var quoted := AtTok.Field(" ", AtTok.Quoted("a,b"));
    AtTok.NextField(quoted, ",c");
    assert AtTok.FieldText(quoted) + ",c" == " \"a,b\",c" && ",c"[1..] == "c";
    var last := AtTok.Field("", AtTok.Bare("x"));
    AtTok.NextField(last, "");
    assert AtTok.FieldText(last) + "" == "x";
  }

  lemma {:induction false} DigitsEnd(d: string, rest: string, base: nat)
    requires AtTok.AllDigits(d, base) && (rest == "" || !AtTok.IsDigit(rest[0], base))
    ensures AtTok.Digits(d + rest, base) == d
  {
    if d == "" {
      assert d + rest == rest;
    } else {
      assert AtTok.IsDigit(d[0], base);
      DigitsEnd(d[1..], rest, base);
      assert (d + rest)[1..] == d[1..] + rest;
    }
  }

  /** A token read as sign, digits and rest. */
  lemma SignedNumber(token: string, base: nat, uns: bool, u: string, d: string, rest: string)
    requires u == (if token != [] && (token[0] == '-' || token[0] == '+') then token[1..] else token)
    requires token == [] || !AtTok.IsSpace(token[0])
    requires u == d + rest && d != [] && AtTok.AllDigits(d, base) && (rest == "" || !AtTok.IsDigit(rest[0], base))
    requires base == 10 && 0 <= AtTok.Val(d, base) <= AtTok.MAX32
    ensures AtTok.Number(token, base, false) == Some(if token != [] && token[0] == '-' then -AtTok.Val(d, base) else AtTok.Val(d, base))
  {
    hide AtTok.Digits, AtTok.Val, AtTok.IsDigit, AtTok.IsSpace, AtTok.AllDigits;
    DigitsEnd(d, rest, base);
  }

  /** Numbers as strtol reads them. */
  lemma NumberAnswers()
    ensures AtTok.Number("7z", 10, false) == Some(7) && AtTok.Number("+5", 10, false) == Some(5)
    ensures AtTok.Number("-8", 10, false) == Some(-8)
  {
    hide AtTok.Number, AtTok.Digits, AtTok.Val;
    OneDigits();
    assert "7z" == "7" + "z" && "5" == "5" + "" && "8" == "8" + "";
    assert "+5"[1..] == "5" && "-8"[1..] == "8";
    SignedNumber("7z", 10, false, "7z", "7", "z");
    SignedNumber("+5", 10, false, "5", "5", "");
    SignedNumber("-8", 10, false, "8", "8", "");
  }

  /** An upper-case hexadecimal number behind its prefix. */
  lemma HexAnswer()
    ensures AtTok.Number("0x1F", 16, true) == Some(31)
  {
    hide AtTok.Digits, AtTok.Val;
    OneDigits();
    assert "0x1F"[2..] == "1F" && "1F" == "1F" + "";
    DigitsEnd("1F", "", 16);
  }

  lemma OneDigits()
    ensures AtTok.Val("7", 10) == 7 && AtTok.Val("5", 10) == 5 && AtTok.Val("8", 10) == 8 && AtTok.Val("1", 16) == 1
    ensures AtTok.Val("1F", 16) == 31
  {
    assert "1F"[..1] == "1" && "1"[..0] == "" && "7"[..0] == "" && "5"[..0] == "" && "8"[..0] == "";
    assert AtTok.Val("", 10) == 0 && AtTok.Val("", 16) == 0;
  }

  /** White space is the space and the five control characters from tab to return. */
  lemma Spaces(c: char)
    ensures AtTok.IsSpace(c) <==> c in " \t\n\U{0B}\U{0C}\r"
  {
  }

  // ----- a phone-book record

  /** The entry 'A', type 129, number 123. */
  lemma RecordAnswer(r: seq<byte>)
    requires PhoneBook.Filled(r)
    ensures PhoneBook.Writable(PhoneBook.Codes("0041"), 129, PhoneBook.Codes("123"))
    ensures var q := PhoneBook.Record(r, PhoneBook.Codes("0041"), 129, PhoneBook.Codes("123"));
            && |q| >= 56
            && q[..28] == PhoneBook.Codes("41") + PhoneBook.Fill(26)
            && q[28..30] == PhoneBook.Codes("03") && q[30..32] == PhoneBook.Codes("81")
            && q[32..56] == PhoneBook.Codes("21F3") + PhoneBook.Fill(20)
  {
    hide PhoneBook.Record, PhoneBook.Fill, PhoneBook.AlphaText, PhoneBook.Swapped, PhoneBook.Hex2;
    NameText();
    NumberText();
    FieldTexts();
    PhoneBook.RecordFields(r, PhoneBook.Codes("0041"), 129, PhoneBook.Codes("123"));
  }

  lemma NameText()
    ensures var a := PhoneBook.Codes("0041");
            !PhoneBook.Blank(a) && PhoneBook.AlphaText(a, false) == PhoneBook.Codes("41")
  {
    hide PhoneBook.Trimmed;
    var a := PhoneBook.Codes("0041");
    assert !PhoneBook.BlankUnit(a, 0);
    PhoneBook.TrimmedStep(a);
    PhoneBook.TrimBack(a[4..]);
    assert a[4..] == [];
    PhoneBook.TrimNothing();
    assert a[2..4] + [] == PhoneBook.Codes("41");
  }

  lemma NumberText()
    ensures PhoneBook.Swapped(PhoneBook.Codes("123"), 0, 0) == PhoneBook.Codes("21F3")
    ensures PhoneBook.LengthField(PhoneBook.Codes("123")) == 3
  {
  }

  lemma FieldTexts()
    ensures PhoneBook.Hex2(3) == PhoneBook.Codes("03") && PhoneBook.Hex2(129) == PhoneBook.Codes("81")
  {
  }
}
