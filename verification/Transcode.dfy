/** gsm_to_cdmapdu of helper/sms.c: an SMS-SUBMIT in hex digits (section 9.2.2.2
    of 3GPP TS 23.040) becomes a CDMA parcel. */
module Transcode {
  import opened Bits
  import opened Basics
  import opened Septets
  import opened Gsm7
  import opened Rope
  import opened SmsAddress
  import SmsDeliver
  import SmsSegments
  import SmsReadBack
  import Utf8
  import HexFields
  import CdmaSms
  import CdmaDecode

  // ----- hex digits to bytes

  /** gsm_hexchar_to_int0: either case, and 0 for anything else. */
  function HexChar(c: char): (v: nat)
    ensures v < 16
  {
    if '0' <= c <= '9' then c as nat - '0' as nat
    else if 'a' <= c <= 'f' then 10 + (c as nat - 'a' as nat)
    else if 'A' <= c <= 'F' then 10 + (c as nat - 'A' as nat)
    else 0
  }

  /** gsm_hex_to_bytes: a last odd digit fills a high nibble. */
  function HexToBytes(hex: string): (bs: seq<byte>)
    ensures |bs| == (|hex| + 1) / 2
  {
    seq((|hex| + 1) / 2, i requires 0 <= i < (|hex| + 1) / 2 =>
      if 2 * i + 1 < |hex| then 16 * HexChar(hex[2 * i]) + HexChar(hex[2 * i + 1])
      else 16 * HexChar(hex[2 * i]))
  }

  method ToBytes(hex: string) returns (dst: array<byte>)
    ensures fresh(dst) && dst[..] == HexToBytes(hex)
  {
    dst := new byte[(|hex| + 1) / 2];
    var nn := 0;
    while nn < |hex| / 2
      invariant 0 <= nn <= |hex| / 2
      invariant forall k :: 0 <= k < nn ==> dst[k] == HexToBytes(hex)[k]
    {
      dst[nn] := 16 * HexChar(hex[2 * nn]) + HexChar(hex[2 * nn + 1]);
      nn := nn + 1;
    }
    if |hex| % 2 == 1 {
      dst[nn] := 16 * HexChar(hex[2 * nn]);
    }
  }

  /** gsm_hex_from_bytes. */
  function BytesToHex(bs: seq<byte>): string {
    seq(2 * |bs|, i requires 0 <= i < 2 * |bs| =>
      if i % 2 == 0 then HexFields.HEX_TABLE[bs[i / 2] / 16] else HexFields.HEX_TABLE[bs[i / 2] % 16])
  }

  lemma HexCharOfTable(v: nat)
    requires v < 16
    ensures HexChar(HexFields.HEX_TABLE[v]) == v
  {
  }

  lemma HexBytesRoundTrip(bs: seq<byte>)
    ensures HexToBytes(BytesToHex(bs)) == bs
  {
    hide HexChar, BytesToHex;
    HexLength(bs);
    var hex := BytesToHex(bs);
    forall i | 0 <= i < |bs| ensures HexToBytes(hex)[i] == bs[i] {
      HexPair(bs, i);
    }
  }

  lemma HexLength(bs: seq<byte>)
    ensures |BytesToHex(bs)| == 2 * |bs|
  {
  }

  lemma HexPair(bs: seq<byte>, i: nat)
    requires i < |bs|
    ensures |BytesToHex(bs)| == 2 * |bs|
    ensures 16 * HexChar(BytesToHex(bs)[2 * i]) + HexChar(BytesToHex(bs)[2 * i + 1]) == bs[i]
  {
    hide HexChar;
    var v: nat := bs[i];
    HexCharOfTable(v / 16);
    HexCharOfTable(v % 16);
    assert BytesToHex(bs)[2 * i] == HexFields.HEX_TABLE[v / 16];
    assert BytesToHex(bs)[2 * i + 1] == HexFields.HEX_TABLE[v % 16];
  }

  // ----- what an SMS-SUBMIT says

  datatype Coding = Unknown | Gsm7Bit | Ucs2

  /** sms_get_coding_scheme. */
  function CodingScheme(dcs: byte): Coding {
    var high := dcs / 16;
    if high == 0 || high == 2 || high == 3 then Gsm7Bit
    else if high == 1 then
      if dcs == 0x10 then Gsm7Bit else if dcs == 0x11 then Ucs2 else Unknown
    else if 4 <= high <= 7 then
      if dcs / 0x20 % 2 == 1 then Unknown
      else if dcs / 4 % 4 == 0 then Gsm7Bit
      else if dcs / 4 % 4 == 2 then Ucs2
      else Unknown
    else if high == 0xF && dcs / 4 % 2 == 0 then Gsm7Bit
    else Unknown
  }

  datatype Submit = Submit(to: string, text: seq<byte>)

  /** Where the TPDU starts: after the service centre field. */
  function TpduStart(p: seq<byte>): Option<nat> {
    if p == [] || 1 + p[0] as nat > |p| then None else Some(1 + p[0] as nat)
  }

  /** The user data at `ud`, without a header; it must lie inside the PDU. */
  function UserText(p: seq<byte>, ud: nat, coding: Coding): Option<seq<byte>> {
    if ud >= |p| then None
    else
      var len: nat := p[ud];
      match coding
      case Unknown => None
      case Gsm7Bit =>
        if 8 * (ud + 1) + 7 * len > 8 * |p| then None
        else Some(Decode(SeptetsAt(p, 8 * (ud + 1), len), false))
      case Ucs2 =>
        if ud + 1 + len > |p| then None
        else Some(Utf8.EncodeAll(Utf8.Units(p[ud + 1..], len / 2)))
  }

  /** Destination and text of a SUBMIT without user data header; the source
      skips no validity period. */
  function ParseSubmit(p: seq<byte>): Option<Submit> {
    match TpduStart(p)
    case None => None
    case Some(at) =>
      if at >= |p| || p[at] % 4 != 1 || p[at] / 0x40 % 2 == 1 then None
      else
        match Parse(p, at + 2)
        case None => None
        case Some(a) =>
          if a.next + 1 >= |p| then None
          else
            match UserText(p, a.next + 2, CodingScheme(p[a.next + 1]))
            case None => None
            case Some(t) => Some(Submit(AddressString(a.len, a.toa, a.used), t))
  }

  /** International numbers are dialled with 00. */
  function Dialled(to: string): string {
    if to != [] && to[0] == '+' then "00" + to[1..] else to
  }

  function Chars(bs: seq<byte>): (s: string)
    ensures |s| == |bs|
  {
    seq(|bs|, i requires 0 <= i < |bs| => bs[i] as char)
  }

  /** The caller must pass a SUBMIT that fits the decoder's and encoder's buffers. */
  predicate Convertible(msg: string) {
    var r := ParseSubmit(HexToBytes(msg));
    && r.Some? && |r.value.text| < 256
    && CdmaSms.Fits(Dialled(r.value.to), Chars(CString(r.value.text)))
  }

  /** The parcel a convertible SUBMIT becomes: the decoded text is handed on as a C string. */
  function Transcoded(msg: string): string
    requires Convertible(msg)
  {
    var r := ParseSubmit(HexToBytes(msg)).value;
    CdmaSms.CdmaPdu(Dialled(r.to), Chars(CString(r.text)))
  }

  // ----- the transcoder

  /** sms_skip_sc_address. */
  method SkipScAddress(p: seq<byte>) returns (at: int)
    ensures at == if TpduStart(p).Some? then TpduStart(p).value else -1
  {
    if |p| == 0 {
      return -1;
    }
    at := 1 + p[0] as int;
    if at > |p| {
      return -1;
    }
  }

  /** sms_get_text_utf8 for user data without a header, into an empty rope. */
  method GetText(p: seq<byte>, ud: nat, coding: Coding, rope: GsmRope)
    requires UserText(p, ud, coding).Some?
    requires rope.Valid() && rope.data != null && rope.pos == 0 && !rope.error
    modifies rope, rope.data
    ensures rope.Valid() && rope.data != null && !rope.error
    ensures rope.pos <= rope.data.Length && rope.data[..rope.pos] == UserText(p, ud, coding).value
  {
    hide SeptetAt;
    hide Decode;
    hide Utf8.EncodeAll;
    hide Splice;
    var len: nat := p[ud];
    ghost var text := UserText(p, ud, coding).value;
    if coding == Gsm7Bit {
      var count := FromGsm7(p, 8 * (ud + 1), len, null, 0);
      var at := rope.Reserve(count);
      ghost var was := rope.data[..];
      count := FromGsm7(p, 8 * (ud + 1), len, rope.data, at);
      SpliceFirst(was, text, rope.data[..]);
    } else {
      var count := Utf8.FromUcs2(p[ud + 1..], len / 2, null);
      var at := rope.Reserve(count);
      ghost var was := rope.data[..];
      count := Utf8.FromUcs2(p[ud + 1..], len / 2, rope.data);
      SpliceFirst(was, text, rope.data[..]);
    }
  }

  lemma SpliceFirst(was: seq<byte>, text: seq<byte>, now: seq<byte>)
    requires |text| <= |was| && now == Splice(was, 0, text)
    ensures now[..|text|] == text
  {
  }

  method GsmToCdmaPdu(msg: string, hexpdu: array<char>) returns (n: nat)
    requires hexpdu.Length == 512 && Convertible(msg)
    modifies hexpdu
    ensures n < 512 && hexpdu[n] == '\0'
    ensures hexpdu[..n] == Transcoded(msg)
  {
    hide HexToBytes;
    hide UserText;
    hide Parse;
    hide AddressString;
    hide CodingScheme;
    hide CdmaSms.CdmaPdu;
    hide CdmaSms.Fits;
    var base := ToBytes(msg);
    var p := base[..];
    var at := SkipScAddress(p);
    var smsaddr := new Address();
    var result, next := smsaddr.Get(p, at + 2);
    var to := smsaddr.ToStr();
    if |to| > 0 && to[0] == '+' {
      to := "00" + to[1..];
    }
    var coding := CodingScheme(p[next + 1]);
    var rope := new GsmRope();
    rope.InitAlloc(0);
    GetText(p, next + 2, coding, rope);
    var message := Chars(CString(rope.data[..rope.pos]));
    n := CdmaSms.EncodeCdmaSms(hexpdu, to, message);
  }

  // ----- the meaning survives

  /** An SMS-SUBMIT as section 9.2.2.2 lays it out, with no validity period, no
      header and the default alphabet. */
  function SubmitPdu(sca: seq<byte>, first: byte, mr: byte, to: string, pid: byte, text: seq<byte>): seq<byte>
    requires DialString(to) && |sca| < 256 && |TextSeptets(text)| < 256
  {
    hide SemiOctets, TextSeptets, SmsDeliver.Packed;
    DialLength(to);
    var d, ss := DigitsOf(to), TextSeptets(text);
    [|sca|] + sca + [first, mr] + AddressBytes(|d|, Toa(to), SemiOctets(d)) + [pid, 0x00]
    + [|ss|] + SmsDeliver.Packed(0, ss)
  }

  lemma SubmitShape(sca: seq<byte>, first: byte, mr: byte, to: string, pid: byte, text: seq<byte>)
    requires DialString(to) && |sca| < 256 && |TextSeptets(text)| < 256
    ensures var p, d, ss := SubmitPdu(sca, first, mr, to, pid, text), DigitsOf(to), TextSeptets(text);
            var a := AddressBytes(|d|, Toa(to), SemiOctets(d));
            var before := [|sca| as byte] + sca + [first, mr];
            var after := [pid, 0x00] + [|ss| as byte] + SmsDeliver.Packed(0, ss);
            && p == before + a + after
            && p == (before + a + [pid, 0x00] + [|ss| as byte]) + SmsDeliver.Packed(0, ss)
            && p[0] == |sca| && p[1 + |sca|] == first
  {
    hide AddressBytes;
    hide SmsDeliver.Packed;
    hide TextSeptets;
  }

  /** The parser finds the destination and the septets that were put in. */
  lemma SubmitParses(sca: seq<byte>, first: byte, mr: byte, to: string, pid: byte, text: seq<byte>)
    requires DialString(to) && |sca| < 256 && |TextSeptets(text)| < 256
    requires first % 4 == 1 && first / 0x40 % 2 == 0
    ensures ParseSubmit(SubmitPdu(sca, first, mr, to, pid, text))
         == Some(Submit(to, Decode(TextSeptets(text), false)))
  {
    hide AddressBytes;
    hide SmsDeliver.Packed;
    hide TextSeptets;
    hide SubmitPdu;
    hide Parse;
    hide Decode;
    hide SeptetsAt;
    hide SemiOctets;
    hide AddressString;
    hide DialString;
    hide Toa;
    hide DigitsOf;
    SubmitShape(sca, first, mr, to, pid, text);
    var p, d, ss := SubmitPdu(sca, first, mr, to, pid, text), DigitsOf(to), TextSeptets(text);
    DialLength(to);
    var a := AddressBytes(|d|, Toa(to), SemiOctets(d));
    var before := [|sca| as byte] + sca + [first, mr];
    AddressChain(to, before, [pid, 0x00] + [|ss| as byte] + SmsDeliver.Packed(0, ss));
    var h := before + a + [pid, 0x00] + [|ss| as byte];
    SmsSegments.PackedReads(h, 0, ss);
    var next := |before| + |a|;
    assert h[next + 1] == 0 && h[next + 2] == |ss|;
    assert p[next + 1] == 0 && p[next + 2] == |ss|;
  }

  lemma DialLength(to: string)
    requires DialString(to)
    ensures var d := DigitsOf(to); Digits(d) && |d| <= 32 && |SemiOctets(d)| == (|d| + 1) / 2
  {
  }

  lemma DialledDigits(to: string)
    requires DialString(to)
    ensures var t := Dialled(to);
            |t| <= 34 && forall j :: 0 <= j < |t| ==> t[j] in CdmaSms.DECODE_TABLE
  {
    var d, t := DigitsOf(to), Dialled(to);
    assert t == (if to[0] == '+' then "00" else "") + d;
    forall c | '0' <= c <= '9' ensures c in CdmaSms.DECODE_TABLE {
      DigitInTable(c);
    }
  }

  lemma DigitInTable(c: char)
    requires '0' <= c <= '9'
    ensures c in CdmaSms.DECODE_TABLE
  {
    var i := if c == '0' then 10 else c as nat - '0' as nat;
    assert CdmaSms.DECODE_TABLE[i] == c;
  }

  lemma FitsSubmit(to: string, text: string)
    requires |to| <= 34 && |text| <= 160
    ensures CdmaSms.Fits(to, text)
  {
  }

  lemma CharsSeven(text: seq<byte>)
    requires |text| <= 160 && forall i :: 0 <= i < |text| ==> text[i] < 128
    ensures CdmaDecode.SevenBitText(Chars(text))
  {
  }

  /** What a parcel says: its text, and the number in its destination record. */
  ghost predicate Says(parcel: string, to: string, text: string) {
    && CdmaDecode.WellFormed(parcel)
    && CdmaDecode.Decode(parcel).message == text
    && var ts := CdmaDecode.Tlvs(parcel[2..]).value;
       |ts| == 4 && ts[1].code == 4 && CdmaDecode.NumberFits(ts[1].body)
       && CdmaDecode.NumberOf(ts[1].body) == to
  }

  lemma ParcelSays(to: string, text: string)
    requires CdmaSms.Fits(to, text) && CdmaDecode.SevenBitText(text)
    requires |to| < 256 && forall j :: 0 <= j < |to| ==> to[j] in CdmaSms.DECODE_TABLE
    ensures Says(CdmaSms.CdmaPdu(to, text), to, text)
  {
    hide CdmaSms.Fits, CdmaSms.CdmaPdu, CdmaDecode.WellFormed, CdmaDecode.Decode, CdmaDecode.Tlvs;
    hide CdmaDecode.NumberOf, CdmaDecode.NumberFits, CdmaDecode.SevenBitText;
    CdmaDecode.CdmaRoundTripIff(to, text);
    CdmaDecode.OuterTlvsOf(to, text);
    CdmaDecode.NumberRoundTripIff(to);
  }

  /** Every convertible SUBMIT, in either coding: the parcel carries the text before its
      first NUL, seven bits a character; so it carries the text exactly when that is 7-bit
      without NUL, and its destination exactly when that is over the decode table. */
  lemma TranscodedIff(msg: string)
    requires Convertible(msg)
    ensures var r := ParseSubmit(HexToBytes(msg)).value;
            var parcel, to, text := Transcoded(msg), Dialled(r.to), Chars(r.text);
            && CdmaDecode.WellFormed(parcel)
            && CdmaDecode.Carried(CdmaDecode.Decode(parcel).message, Chars(CString(r.text)))
            && (CdmaDecode.Decode(parcel).message == text <==> CdmaDecode.SevenBitText(text) && 0 !in r.text)
            && var ts := CdmaDecode.Tlvs(parcel[2..]).value;
               |ts| == 4 && ts[1].code == 4 && CdmaDecode.NumberFits(ts[1].body)
               && (CdmaDecode.NumberOf(ts[1].body) == to <==> forall j :: 0 <= j < |to| ==> to[j] in CdmaSms.DECODE_TABLE)
  {
    hide CdmaSms.CdmaPdu, CdmaDecode.WellFormed, CdmaDecode.Decode, CdmaDecode.Tlvs, HexToBytes, ParseSubmit, Dialled;
    hide CdmaDecode.NumberOf, CdmaDecode.NumberFits, CdmaDecode.SevenBitText, Chars, CString, CdmaDecode.Carried;
    var r := ParseSubmit(HexToBytes(msg)).value;
    var to, sent := Dialled(r.to), Chars(CString(r.text));
    CdmaDecode.CdmaRoundTrip(to, sent);
    CdmaDecode.CdmaRoundTripIff(to, sent);
    CdmaDecode.OuterTlvsOf(to, sent);
    CdmaDecode.NumberRoundTripIff(to);
    DestinationIsShort(HexToBytes(msg));
    CutAtNul(r.text, CdmaDecode.Decode(Transcoded(msg)).message);
  }

  /** What is carried of a string that was cut is shorter. */
  lemma CutAtNul(t: seq<byte>, m: string)
    requires CdmaDecode.Carried(m, Chars(CString(t)))
    ensures if 0 in t then m != Chars(t) else CString(t) == t
  {
    CStringPrefix(t);
    if 0 !in t { WholeString(t); }
  }

  lemma WholeString(t: seq<byte>)
    requires 0 !in t
    ensures CString(t) == t
  {
    assert t + [] == t;
    CStringAppend(t, []);
  }

  lemma DestinationIsShort(p: seq<byte>)
    requires ParseSubmit(p).Some?
    ensures |Dialled(ParseSubmit(p).value.to)| <= 34
  {
    hide Parse, UserText, CodingScheme;
  }

  lemma DialledIs(to: string)
    requires DialString(to)
    ensures to != [] && Dialled(to) == if to[0] == '+' then "00" + to[1..] else to
  {
  }

  /** Transcoding preserves meaning: the parcel decodes to the text of the SUBMIT
      and its destination record to the number, '+' dialled as 00. */
  lemma TranscodingPreserves(sca: seq<byte>, first: byte, mr: byte, to: string, pid: byte, text: seq<byte>)
    requires DialString(to) && |sca| < 256 && first % 4 == 1 && first / 0x40 % 2 == 0
    requires Transparent(text) && |text| <= 160 && |TextSeptets(text)| < 256
    requires forall i :: 0 <= i < |text| ==> 0 < text[i] < 128
    ensures var msg := BytesToHex(SubmitPdu(sca, first, mr, to, pid, text));
            && Convertible(msg)
            && Says(Transcoded(msg), Dialled(to), Chars(text))
            && Dialled(to) == (if to[0] == '+' then "00" + to[1..] else to)
  {
    hide SubmitPdu;
    hide HexToBytes;
    hide BytesToHex;
    hide ParseSubmit;
    hide TextSeptets;
    hide Transparent;
    hide Decode;
    hide Dialled;
    hide Chars;
    hide CdmaSms.Fits;
    hide CdmaSms.CdmaPdu;
    hide Says;
    hide CdmaDecode.SevenBitText;
    var p := SubmitPdu(sca, first, mr, to, pid, text);
    HexBytesRoundTrip(p);
    SubmitParses(sca, first, mr, to, pid, text);
    GsmRoundTripIff(text);
    WholeString(text);
    DialledDigits(to);
    DialledIs(to);
    FitsSubmit(Dialled(to), Chars(text));
    CharsSeven(text);
    ParcelSays(Dialled(to), Chars(text));
  }

  // ----- and back

  /** The bytes of a C string, with its terminator. */
  function CBytes(s: string): (bs: seq<byte>)
    requires forall i :: 0 <= i < |s| ==> s[i] as int < 256
    ensures |bs| == |s| + 1
  {
    seq(|s|, i requires 0 <= i < |s| => s[i] as byte) + [0]
  }

  lemma CharsBack(text: seq<byte>)
    ensures forall i :: 0 <= i < |text| ==> Chars(text)[i] as int < 256
    ensures CBytes(Chars(text)) == text + [0] && (text + [0])[..|text|] == text
  {
  }

  /** The parts that a C string `m` is cut into read back as `text`. */
  ghost predicate DeliveredAs(m: string, sender: seq<byte>, stamp: seq<byte>, ref: nat, text: seq<byte>) {
    && (forall i :: 0 <= i < |m| ==> m[i] as int < 256)
    && ReadsAs(CBytes(m), |m|, sender, stamp, ref, text)
  }

  ghost predicate ReadsAs(s: seq<byte>, len: nat, sender: seq<byte>, stamp: seq<byte>, ref: nat, text: seq<byte>)
    requires len < |s|
  {
    var n := SmsSegments.Parts(SmsSegments.Units(s[..len]), SmsSegments.Block(s[..len]));
    SmsSegments.JoinedTexts(SmsSegments.PartPdus(s, len, sender, stamp, ref, n)) == Some(text)
  }

  /** Extension characters stand at the ends of full parts only. */
  predicate AtPartEnds(text: seq<byte>) {
    forall i :: 0 <= i < |text| && Extended(text[i]) ==> i % SmsSegments.GSM7_BLOCK == SmsSegments.GSM7_BLOCK - 1
  }

  lemma ReadsAsIff(text: seq<byte>, sender: seq<byte>, stamp: seq<byte>, ref: nat)
    requires SmsReadBack.Clean(text) && SmsSegments.Representable(text)
    requires SmsSegments.AddressField(sender) && |stamp| == 7
    ensures ReadsAs(text + [0], |text|, sender, stamp, ref, text) <==> AtPartEnds(text)
  {
    hide Extended, SmsSegments.JoinedTexts, SmsSegments.PartPdus, SmsSegments.Parts, SmsSegments.Units, SmsSegments.Block;
    hide SmsReadBack.Clean, SmsSegments.Representable, SmsSegments.AddressField;
    var s := text + [0];
    assert s[..|text|] == text;
    CleanIsAscii(text);
    SmsReadBack.ReadBackIff(s, |text|, sender, stamp, ref);
    assert forall i :: 0 <= i < |text| ==> s[i] == text[i];
  }

  lemma CleanIsAscii(text: seq<byte>)
    requires SmsReadBack.Clean(text)
    ensures Ascii(text + [0]) && forall i :: 0 <= i < |text| ==> 0 < text[i] < 128
  {
  }

  /** A C string of characters of the 7-bit tables is delivered as it is exactly when its
      extension characters stand at the ends of full parts. */
  lemma DeliversIff(text: seq<byte>, sender: seq<byte>, stamp: seq<byte>, ref: nat)
    requires SmsReadBack.Clean(text) && SmsSegments.Representable(text)
    requires SmsSegments.AddressField(sender) && |stamp| == 7
    ensures DeliveredAs(Chars(text), sender, stamp, ref, text) <==> AtPartEnds(text)
  {
    hide ReadsAs, AtPartEnds, Chars, CBytes;
    ReadsAsIff(text, sender, stamp, ref);
    CharsBack(text);
    assert |Chars(text)| == |text|;
  }

  lemma TransparentFits(text: seq<byte>)
    requires Transparent(text)
    ensures SmsSegments.Representable(text)
  {
    hide Single, Extended;
  }

  /** There and back: the text of a SUBMIT is put into a CDMA parcel, read from it and cut
      into DELIVER PDUs. The parcel says the text and the number; the PDUs, read one after
      the other, give the text exactly when an extension character stands at the end of a
      full part, if there is one. */
  lemma ThereAndBack(sca: seq<byte>, first: byte, mr: byte, to: string, pid: byte, text: seq<byte>,
                     sender: seq<byte>, stamp: seq<byte>, ref: nat)
    requires DialString(to) && |sca| < 256 && first % 4 == 1 && first / 0x40 % 2 == 0
    requires Transparent(text) && |text| <= 160 && |TextSeptets(text)| < 256 && SmsReadBack.Clean(text)
    requires SmsSegments.AddressField(sender) && |stamp| == 7
    ensures var msg := BytesToHex(SubmitPdu(sca, first, mr, to, pid, text));
            && Convertible(msg)
            && Says(Transcoded(msg), Dialled(to), Chars(text))
            && (DeliveredAs(CdmaDecode.Decode(Transcoded(msg)).message, sender, stamp, ref, text) <==> AtPartEnds(text))
  {
    hide *;
    TransparentFits(text);
    CleanIsAscii(text);
    TranscodingPreserves(sca, first, mr, to, pid, text);
    DeliversIff(text, sender, stamp, ref);
    MessageOf(Transcoded(BytesToHex(SubmitPdu(sca, first, mr, to, pid, text))), Dialled(to), Chars(text));
  }

  lemma MessageOf(parcel: string, to: string, text: string)
    requires Says(parcel, to, text)
    ensures CdmaDecode.WellFormed(parcel) && CdmaDecode.Decode(parcel).message == text
  {
  }

  // ----- a text that is cut

  lemma BraceThenLetter()
    ensures var text: seq<byte> := ['{' as int, 'a' as int];
            |TextSeptets(text)| == 3 && Decode(TextSeptets(text), false) == ['{' as int, 0]
  {
    hide Decode, TextSeptets, Single, Extended, CharSeptets;
    var text: seq<byte> := ['{' as int, 'a' as int];
    Brace();
    TextSeptetsCons('{' as int, ['a' as int]);
    TextSeptetsCons('a' as int, []);
    TextSeptetsEmpty();
    assert text == ['{' as int] + ['a' as int] && ['a' as int] == ['a' as int] + [];
    ExtendedTail('{' as int, TextSeptets(['a' as int]));
    LetterSeptet();
    EscapedLetter();
  }

  lemma LetterSeptet()
    ensures CharSeptets('a' as int) == ['a' as int] && |CharSeptets('{' as int)| == 2
  {
    Brace();
    hide Single;
    LetterIndex();
  }

  lemma LetterIndex()
    ensures FirstIndex(DefaultTable(), 'a' as int) == 'a' as int
  {
    assert DefaultTable()[0x61] == 0x61;
    assert forall n :: 0 <= n < 0x61 ==> DefaultTable()[n] == DefaultChar(n) != 0x61;
  }

  lemma EscapedLetter()
    ensures Decode(['a' as int], true) == [0]
  {
    DecodeStep(['a' as int], true);
    assert ['a' as int][1..] == [];
    DecodeNothingEscaped();
  }

  lemma DecodeNothingEscaped()
    ensures Decode([], true) == []
  {
  }

  /** The SUBMIT of "{a" to 123. */
  function BracePdu(): seq<byte> {
    hide TextSeptets, Decode, SubmitPdu;
    BraceThenLetter();
    SubmitPdu([], 0x01, 0, "123", 0, ['{' as int, 'a' as int])
  }

  lemma BracePduIs()
    ensures |TextSeptets(['{' as int, 'a' as int])| < 256
    ensures BracePdu() == SubmitPdu([], 0x01, 0, "123", 0, ['{' as int, 'a' as int])
  {
    BraceThenLetter();
  }

  /** "{a" to "123": the letter is decoded as NUL, and the parcel is that of "{". */
  lemma BraceCutsText()
    ensures var msg := BytesToHex(BracePdu());
            && Convertible(msg)
            && ParseSubmit(HexToBytes(msg)) == Some(Submit("123", ['{' as int, 0]))
            && Transcoded(msg) == CdmaSms.CdmaPdu("123", "{")
            && CdmaDecode.WellFormed(Transcoded(msg))
            && CdmaDecode.Decode(Transcoded(msg)).message == "{"
  {
    hide BracePdu, SubmitPdu, HexToBytes, BytesToHex, ParseSubmit, TextSeptets, Decode, CdmaSms.CdmaPdu, CdmaDecode.WellFormed, CdmaDecode.Decode;
    var text: seq<byte> := ['{' as int, 'a' as int];
    BraceThenLetter();
    BracePduIs();
    HexBytesRoundTrip(BracePdu());
    SubmitParses([], 0x01, 0, "123", 0, text);
    var t: seq<byte> := ['{' as int, 0];
    assert t[1..] == [0];
    assert CString(t) == ['{' as int] && Chars(['{' as int]) == "{";
    FitsSubmit("123", "{");
    CdmaDecode.CdmaRoundTripIff("123", "{");
  }

  // ----- coding schemes and UCS2

  /** The data coding schemes as section 4 of 3GPP TS 23.038 defines them, with 8-bit data,
      compressed text and reserved codes as unknown. */
  function StandardScheme(dcs: byte): Coding {
    if dcs < 0x80 then
      if dcs / 0x20 % 2 == 1 then Unknown
      else if dcs / 4 % 4 == 0 then Gsm7Bit
      else if dcs / 4 % 4 == 2 then Ucs2
      else Unknown
    else if dcs < 0xC0 then Unknown
    else if dcs < 0xE0 then Gsm7Bit
    else if dcs < 0xF0 then Ucs2
    else if dcs / 4 % 2 == 0 then Gsm7Bit
    else Unknown
  }

  /** The codes that the source reads as the standard does: in the first group the default
      alphabet without and with class 0, and 8-bit data with a class; all of the second
      group; the reserved codes and the last group. It takes 0x08 and 0x09 for 7-bit text. */
  lemma SchemeIsStandardIff(dcs: byte)
    ensures CodingScheme(dcs) == StandardScheme(dcs) <==>
            || dcs <= 0x03 || dcs == 0x10 || 0x14 <= dcs <= 0x17 || 0x1C <= dcs <= 0x1F
            || 0x40 <= dcs <= 0xBF || 0xF0 <= dcs
    ensures CodingScheme(0x00) == Gsm7Bit && CodingScheme(0x08) == Gsm7Bit && CodingScheme(0x09) == Gsm7Bit
    ensures CodingScheme(0x11) == Ucs2 && CodingScheme(0x48) == Ucs2
  {
  }

  /** Big-endian bytes of 16-bit units. */
  function BigEndian(us: seq<nat>): (bs: seq<byte>)
    requires forall i :: 0 <= i < |us| ==> us[i] < 0x1_0000
    ensures |bs| == 2 * |us|
  {
    seq(2 * |us|, i requires 0 <= i < 2 * |us| => if i % 2 == 0 then us[i / 2] / 256 else us[i / 2] % 256)
  }

  /** A UCS2 SMS-SUBMIT of class 0, without validity period and header. */
  function WideSubmit(sca: seq<byte>, first: byte, mr: byte, to: string, pid: byte, us: seq<nat>): seq<byte>
    requires DialString(to) && |sca| < 256 && 2 * |us| < 256
    requires forall i :: 0 <= i < |us| ==> us[i] < 0x1_0000
  {
    DialLength(to);
    var d := DigitsOf(to);
    [|sca|] + sca + [first, mr] + AddressBytes(|d|, Toa(to), SemiOctets(d)) + [pid, 0x11] + [2 * |us|] + BigEndian(us)
  }

  lemma UnitsBack(before: seq<byte>, us: seq<nat>)
    requires forall i :: 0 <= i < |us| ==> us[i] < 0x1_0000
    ensures |(before + BigEndian(us))[|before|..]| == 2 * |us|
    ensures Utf8.Units((before + BigEndian(us))[|before|..], |us|) == us
  {
    var w := (before + BigEndian(us))[|before|..];
    assert w == BigEndian(us);
    forall i | 0 <= i < |us| ensures Utf8.Units(w, |us|)[i] == us[i] {
      assert w[2 * i] == us[i] / 256 && w[2 * i + 1] == us[i] % 256;
    }
  }

  /** The fields of a UCS2 SUBMIT, where the parser looks for them. */
  lemma WideShape(sca: seq<byte>, first: byte, mr: byte, to: string, pid: byte, us: seq<nat>)
    requires DialString(to) && |sca| < 256 && 2 * |us| < 256
    requires forall i :: 0 <= i < |us| ==> us[i] < 0x1_0000
    ensures |DigitsOf(to)| <= 32 && Digits(DigitsOf(to)) && |SemiOctets(DigitsOf(to))| == (|DigitsOf(to)| + 1) / 2
    ensures var d := DigitsOf(to);
            var p := WideSubmit(sca, first, mr, to, pid, us);
            var a := AddressBytes(|d|, Toa(to), SemiOctets(d));
            var before := [|sca| as byte] + sca + [first, mr];
            var n: nat := 2 * |us|;
            && p == before + a + ([pid, 0x11] + [n as byte] + BigEndian(us))
            && p == (before + a + [pid, 0x11] + [n as byte]) + BigEndian(us)
            && |a| == 2 + (|d| + 1) / 2
            && p[0] == |sca| && p[1 + |sca|] == first
            && p[|before| + |a| + 1] == 0x11 && p[|before| + |a| + 2] == n
  {
    hide BigEndian, Digits, DigitsOf, Toa, SemiOctets;
    DialLength(to);
  }

  /** The parser's steps over a PDU whose fields are where they should be. */
  lemma WideSteps(p: seq<byte>, to: string, us: seq<nat>)
    requires TpduStart(p).Some?
    requires var at := TpduStart(p).value;
             && at < |p| && p[at] % 4 == 1 && p[at] / 0x40 % 2 == 0
             && var r := Parse(p, at + 2);
             && r.Some? && AddressString(r.value.len, r.value.toa, r.value.used) == to
             && var ud := r.value.next + 2;
             && ud + 1 + 2 * |us| <= |p| && p[ud - 1] == 0x11 && p[ud] == 2 * |us|
             && Utf8.Units(p[ud + 1..], |us|) == us
    ensures ParseSubmit(p) == Some(Submit(to, Utf8.EncodeAll(us)))
  {
    hide Parse, AddressString, Utf8.Units, Utf8.EncodeAll, TpduStart;
    var n: nat := 2 * |us|;
    assert n / 2 == |us|;
    assert CodingScheme(0x11) == Ucs2;
  }

  /** The parser finds in a UCS2 SUBMIT the destination and the units as UTF-8. */
  lemma WideSubmitParses(sca: seq<byte>, first: byte, mr: byte, to: string, pid: byte, us: seq<nat>)
    requires DialString(to) && |sca| < 256 && 2 * |us| < 256 && first % 4 == 1 && first / 0x40 % 2 == 0
    requires forall i :: 0 <= i < |us| ==> us[i] < 0x1_0000
    ensures ParseSubmit(WideSubmit(sca, first, mr, to, pid, us)) == Some(Submit(to, Utf8.EncodeAll(us)))
  {
    hide AddressBytes, BigEndian, WideSubmit, Parse, ParseSubmit, UserText, CodingScheme, Utf8.EncodeAll, Utf8.Units, SemiOctets, AddressString, DialString, Toa, DigitsOf, Digits;
    WideShape(sca, first, mr, to, pid, us);
    var d := DigitsOf(to);
    var a := AddressBytes(|d|, Toa(to), SemiOctets(d));
    var n: nat := 2 * |us|;
    var before := [|sca| as byte] + sca + [first, mr];
    var h := before + a + [pid, 0x11] + [n as byte];
    AddressChain(to, before, [pid, 0x11] + [n as byte] + BigEndian(us));
    UnitsBack(h, us);
    WideSteps(h + BigEndian(us), to, us);
  }
}
