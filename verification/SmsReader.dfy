/** A reader of SMS-DELIVER PDUs written from sections 9.2.2.1 and 9.2.3.24.1 of 3GPP TS
    23.040 and section 4 of 3GPP TS 23.038, against which the builder is checked field by
    field. Behind the coding UCS2 it expects the length of the text once more, as the
    builder writes it. */
module SmsReader {
  import opened Bits
  import opened Basics
  import opened Septets
  import opened Gsm7
  import Utf8
  import opened SmsAddress
  import opened SmsDeliver
  import opened SmsSegments
  import SmsReadBack

  datatype Place = Place(ref: nat, count: nat, index: nat)

  datatype Delivery = Delivery(sender: string, protocol: byte, alphabet: nat, stamp: seq<byte>, place: Place, text: seq<byte>)

  const WHOLE := Place(0, 1, 1)

  /** Bits 2 and 3 of the data coding scheme: 0 is the default alphabet, 2 is UCS2. */
  function Alphabet(dcs: byte): nat {
    dcs / 4 % 4
  }

  /** The concatenation header behind the user data length at `ud`. */
  function PlaceAt(p: seq<byte>, ud: nat): Option<Place>
    requires ud < |p|
  {
    if |p| < ud + 7 || p[ud + 1] != 5 || p[ud + 2] != 0 || p[ud + 3] != 3 then None
    else Some(Place(p[ud + 4], p[ud + 5], p[ud + 6]))
  }

  /** The text of the user data at `ud`. */
  function TextOf(p: seq<byte>, ud: nat, alphabet: nat, header: bool): Option<seq<byte>>
    requires ud < |p|
  {
    var octets := if header then 6 else 0;
    if alphabet == 0 then
      var skip := if header then 7 else 0;
      var udl: nat := p[ud];
      if udl < skip || 8 * (ud + 1) + 7 * udl > 8 * |p| then None
      else Some(Decode(SeptetsAt(p, 8 * (ud + 1) + 7 * skip, udl - skip), false))
    else if alphabet == 2 then
      if |p| <= ud + 1 + octets || |p| < ud + 2 + octets + p[ud + 1 + octets] as nat then None
      else Some(Utf8.EncodeAll(Utf8.Units(p[ud + 2 + octets..], p[ud + 1 + octets] as nat / 2)))
    else None
  }

  function Read(p: seq<byte>): Option<Delivery> {
    if |p| == 0 || |p| <= 1 + p[0] as nat then None
    else
      var at: nat := 1 + p[0] as nat;
      var first := p[at];
      match Parse(p, at + 1)
      case None => None
      case Some(a) =>
        var ud := a.next + 9;
        if first % 4 != 0 || |p| <= ud then None
        else
          var header := first / 0x40 % 2 == 1;
          var place := if header then PlaceAt(p, ud) else Some(WHOLE);
          var text := TextOf(p, ud, Alphabet(p[a.next + 1]), header);
          if place == None || text == None then None
          else
            Some(Delivery(AddressString(a.len, a.toa, a.used), p[a.next], Alphabet(p[a.next + 1]),
                          p[a.next + 2..ud], place.value, text.value))
  }

  // ----- what the builder's PDUs say

  function AddressOf(to: string): (a: seq<byte>)
    requires DialString(to)
  {
    SmallAddress(to);
    AddressBytes(|DigitsOf(to)|, Toa(to), SemiOctets(DigitsOf(to)))
  }

  lemma SmallAddress(to: string)
    requires DialString(to)
    ensures |DigitsOf(to)| < 256 && |SemiOctets(DigitsOf(to))| == (|DigitsOf(to)| + 1) / 2
  {
  }

  lemma HeadReads(to: string, gsm7: bool, stamp: seq<byte>, count: nat, u: seq<byte>)
    requires DialString(to) && |stamp| == 7
    ensures var a := AddressOf(to);
            var p, n := Head(a, gsm7, stamp, count) + u, 2 + |a|;
            && |p| == n + 9 + |u|
            && p[0] == 0 && p[1] == (if count > 1 then 0x60 else 0x20)
            && p[n] == 0 && p[n + 1] == (if gsm7 then 0x00 else 0x09)
            && p[n + 2..n + 9] == stamp && p[n + 9..] == u && p[..n + 9] == Head(a, gsm7, stamp, count)
            && var r := Parse(p, 2);
               r.Some? && r.value.next == n && AddressString(r.value.len, r.value.toa, r.value.used) == to
  {
    hide AddressBytes, Parse, AddressString, DialString, Toa, SemiOctets, DigitsOf;
    var a := AddressOf(to);
    var first: byte := if count > 1 then 0x60 else 0x20;
    var coding: byte := if gsm7 then 0x00 else 0x09;
    var before, after := [0, first], [0, coding] + stamp + u;
    var h := Head(a, gsm7, stamp, count);
    SmallAddress(to);
    AddressChain(to, before, after);
    assert h == before + a + [0, coding] + stamp;
    assert h + u == before + a + after;
  }

  /** User data of the default alphabet. */
  lemma SeptetsRead(h: seq<byte>, text: seq<byte>, ref: nat, count: nat, index: nat)
    ensures var p, ss := h + UserData(text, true, ref, count, index), TextSeptets(text);
            var q := Announced(|ss|, count);
            && |h| < |p|
            && TextOf(p, |h|, 0, count > 1) == (if q < 0 then None else Some(Decode(ss[..q], false)))
            && (count > 1 ==> PlaceAt(p, |h|) == Some(Place(ref % 256, count % 256, (index + 1) % 256)))
  {
    hide Packed, TextSeptets, Decode, SeptetsAt;
    var ss := TextSeptets(text);
    var p := h + UserData(text, true, ref, count, index);
    var q := Announced(|ss|, count);
    if count > 1 {
      var head := [(|ss| + 7) % 256] + Header(ref, count, index);
      var before := h + head;
      assert p == before + Packed(1, ss);
      PackedReads(before, 1, ss);
      assert p[|h|] == (|ss| + 7) % 256;
      assert p[|h| + 1] == 5 && p[|h| + 2] == 0 && p[|h| + 3] == 3;
      assert p[|h| + 4] == ref % 256 && p[|h| + 5] == count % 256 && p[|h| + 6] == (index + 1) % 256;
      if q >= 0 { SeptetsPrefix(p, 8 * |before| + 1, |ss|, q); }
    } else {
      var before := h + [|ss| % 256];
      assert p == before + Packed(0, ss);
      PackedReads(before, 0, ss);
      SeptetsPrefix(p, 8 * |before|, |ss|, q);
    }
  }

  lemma {:induction false} WideAt(text: seq<byte>, i: nat)
    requires i < |text|
    ensures Wide(text)[2 * i] == 0 && Wide(text)[2 * i + 1] == text[i]
  {
    if i < |text| - 1 { WideAt(text[..|text| - 1], i); }
  }

  lemma {:induction false} EncodesItself(us: seq<nat>, text: seq<byte>)
    requires |us| == |text| && Ascii(text) && forall i :: 0 <= i < |us| ==> us[i] == text[i]
    ensures Utf8.EncodeAll(us) == text
  {
    if us != [] {
      var n := |us| - 1;
      EncodesItself(us[..n], text[..n]);
      assert text == text[..n] + [text[n]];
    }
  }

  /** Units of a length that one byte expresses. */
  function AnnouncedUnits(n: nat): (m: nat)
    ensures m <= n
    ensures n < 128 ==> m == n
  {
    2 * n % 256 / 2
  }

  lemma UnitsRead(before: seq<byte>, text: seq<byte>, m: nat)
    requires Ascii(text) && m <= |text|
    ensures |(before + Wide(text))[|before|..]| >= 2 * m
    ensures Utf8.EncodeAll(Utf8.Units((before + Wide(text))[|before|..], m)) == text[..m]
  {
    hide Wide, Utf8.EncodeAll;
    var w := (before + Wide(text))[|before|..];
    assert w == Wide(text);
    forall i | 0 <= i < m ensures Utf8.Units(w, m)[i] == text[..m][i] { WideAt(text, i); }
    EncodesItself(Utf8.Units(w, m), text[..m]);
  }

  /** User data in UCS2. */
  lemma WideReads(h: seq<byte>, text: seq<byte>, ref: nat, count: nat, index: nat)
    requires Ascii(text)
    ensures var p := h + UserData(text, false, ref, count, index);
            && |h| < |p|
            && TextOf(p, |h|, 2, count > 1) == Some(text[..AnnouncedUnits(|text|)])
            && (count > 1 ==> PlaceAt(p, |h|) == Some(Place(ref % 256, count % 256, (index + 1) % 256)))
  {
    hide Wide, Utf8.EncodeAll, Utf8.Units;
    var p := h + UserData(text, false, ref, count, index);
    var n: nat := 2 * |text| % 256;
    var head := if count > 1 then [(2 * |text| + 6) % 256] + Header(ref, count, index) else [2 * |text| % 256];
    var before := h + head + [2 * |text| % 256];
    assert p == before + Wide(text);
    UnitsRead(before, text, n / 2);
    assert p[|before| - 1] == n;
    if count > 1 {
      assert p[|h| + 1] == 5 && p[|h| + 2] == 0 && p[|h| + 3] == 3;
      assert p[|h| + 4] == ref % 256 && p[|h| + 5] == count % 256 && p[|h| + 6] == (index + 1) % 256;
    }
  }

  /** The text that the length of a PDU announces, in either coding. */
  function Said(text: seq<byte>, gsm7: bool, count: nat): Option<seq<byte>> {
    if gsm7 then
      var ss := TextSeptets(text);
      var q := Announced(|ss|, count);
      if q < 0 then None else Some(Decode(ss[..q], false))
    else Some(text[..AnnouncedUnits(|text|)])
  }

  /** Every PDU that the builder makes tells its sender, protocol 0, the alphabet of its
      coding, its time stamp, its place, and the text that its length announces. */
  lemma DeliverSays(text: seq<byte>, gsm7: bool, to: string, stamp: seq<byte>, ref: nat, count: nat, index: nat)
    requires Ascii(text) && DialString(to) && |stamp| == 7
    ensures var p := DeliverPdu(text, gsm7, AddressOf(to), stamp, ref, count, index);
            var place := if count > 1 then Place(ref % 256, count % 256, (index + 1) % 256) else WHOLE;
            Read(p) ==
            match Said(text, gsm7, count)
            case None => None
            case Some(t) => Some(Delivery(to, 0, if gsm7 then 0 else 2, stamp, place, t))
  {
    hide AddressOf, Head, UserData, Parse, AddressString, TextOf, PlaceAt, Said;
    var h, u := Head(AddressOf(to), gsm7, stamp, count), UserData(text, gsm7, ref, count, index);
    HeadReads(to, gsm7, stamp, count, u);
    SaidIs(text, gsm7, count);
    if gsm7 { SeptetsRead(h, text, ref, count, index); } else { WideReads(h, text, ref, count, index); }
  }

  lemma SaidIs(text: seq<byte>, gsm7: bool, count: nat)
    ensures Said(text, gsm7, count) ==
            if gsm7 then
              var q := Announced(|TextSeptets(text)|, count);
              if q < 0 then None else Some(Decode(TextSeptets(text)[..q], false))
            else Some(text[..AnnouncedUnits(|text|)])
  {
  }

  // ----- all parts of a text

  /** The texts of the parts, one after the other. */
  function ReadAll(pdus: seq<seq<byte>>): Option<seq<byte>> {
    if pdus == [] then Some([])
    else
      match (ReadAll(pdus[..|pdus| - 1]), Read(pdus[|pdus| - 1]))
      case (Some(t), Some(d)) => Some(t + d.text)
      case _ => None
  }

  lemma ReadAllNext(s: seq<byte>, len: nat, a: seq<byte>, stamp: seq<byte>, ref: nat, k: nat)
    requires len < |s|
    ensures ReadAll(PartPdus(s, len, a, stamp, ref, 0)) == Some([])
    ensures ReadAll(PartPdus(s, len, a, stamp, ref, k + 1)) ==
            match (ReadAll(PartPdus(s, len, a, stamp, ref, k)), Read(PartPdu(s, len, a, stamp, ref, k)))
            case (Some(t), Some(d)) => Some(t + d.text)
            case _ => None
  {
    hide PartPdu, Read;
    var pdus := PartPdus(s, len, a, stamp, ref, k + 1);
    assert pdus[..k] == PartPdus(s, len, a, stamp, ref, k);
  }

  lemma FieldOfAddress(to: string)
    requires DialString(to)
    ensures AddressField(AddressOf(to))
  {
  }

  lemma PartIsDeliver(s: seq<byte>, len: nat, a: seq<byte>, stamp: seq<byte>, ref: nat, k: nat)
    requires len < |s| && Ascii(s)
    ensures var text := s[..len];
            var part := Part(s, len, Units(text), Block(text), k);
            && Ascii(part)
            && PartPdu(s, len, a, stamp, ref, k)
               == DeliverPdu(part, Representable(text), a, stamp, ref, Parts(Units(text), Block(text)), k)
  {
    hide DeliverPdu, Representable, Start;
    var text := s[..len];
    PartRange(s, len, Units(text), Block(text), k);
    AsciiPart(s, Start(s, len, Units(text), Block(text), k), Start(s, len, Units(text), Block(text), k + 1));
  }

  lemma AsciiPart(s: seq<byte>, p: nat, q: nat)
    requires Ascii(s) && p <= q <= |s|
    ensures Ascii(s[p..q])
  {
  }

  /** On 7-bit parts this reader and ParseDeliver find the same text. */
  lemma SameText(s: seq<byte>, len: nat, to: string, stamp: seq<byte>, ref: nat, k: nat)
    requires len < |s| && Ascii(s) && Representable(s[..len]) && DialString(to) && |stamp| == 7
    ensures var p := PartPdu(s, len, AddressOf(to), stamp, ref, k);
            && (Read(p) == None <==> ParseDeliver(p) == None)
            && (Read(p).Some? ==> Read(p).value.text == ParseDeliver(p).value.text)
  {
    hide Representable, Units, Block, Part, PartPdu, DeliverPdu, Read, ParseDeliver, AddressOf, Decode, TextSeptets, AddressField, DialString, Ascii;
    FieldOfAddress(to);
    PartIsDeliver(s, len, AddressOf(to), stamp, ref, k);
    var text := s[..len];
    BlockPositive(text);
    var part, n := Part(s, len, Units(text), Block(text), k), Parts(Units(text), Block(text));
    DeliverSays(part, true, to, stamp, ref, n, k);
    ParseOfDeliver(part, AddressOf(to), stamp, ref, n, k);
  }

  lemma {:induction false} SameTexts(s: seq<byte>, len: nat, to: string, stamp: seq<byte>, ref: nat, k: nat)
    requires len < |s| && Ascii(s) && Representable(s[..len]) && DialString(to) && |stamp| == 7
    ensures ReadAll(PartPdus(s, len, AddressOf(to), stamp, ref, k)) == JoinedTexts(PartPdus(s, len, AddressOf(to), stamp, ref, k))
  {
    hide Representable, PartPdu, PartPdus, Read, ParseDeliver, AddressOf, DialString, ReadAll, JoinedTexts, Ascii;
    ReadAllNext(s, len, AddressOf(to), stamp, ref, if k > 0 then k - 1 else 0);
    JoinedNext(s, len, AddressOf(to), stamp, ref, if k > 0 then k - 1 else 0);
    if k > 0 {
      SameTexts(s, len, to, stamp, ref, k - 1);
      SameText(s, len, to, stamp, ref, k - 1);
    }
  }

  lemma JoinedNext(s: seq<byte>, len: nat, a: seq<byte>, stamp: seq<byte>, ref: nat, k: nat)
    requires len < |s|
    ensures JoinedTexts(PartPdus(s, len, a, stamp, ref, 0)) == Some([])
    ensures JoinedTexts(PartPdus(s, len, a, stamp, ref, k + 1)) ==
            match (JoinedTexts(PartPdus(s, len, a, stamp, ref, k)), ParseDeliver(PartPdu(s, len, a, stamp, ref, k)))
            case (Some(t), Some(m)) => Some(t + m.text)
            case _ => None
  {
    hide PartPdu, ParseDeliver;
    var pdus := PartPdus(s, len, a, stamp, ref, k + 1);
    assert pdus[..k] == PartPdus(s, len, a, stamp, ref, k);
  }

  /** A UCS2 part gives back at most its stretch, and 128 characters less when it has as
      many or more. */
  lemma WidePart(s: seq<byte>, len: nat, to: string, stamp: seq<byte>, ref: nat, k: nat)
    requires len < |s| && Ascii(s) && !Representable(s[..len]) && DialString(to) && |stamp| == 7
    requires k < Parts(len, UCS2_BLOCK)
    ensures var d := Read(PartPdu(s, len, AddressOf(to), stamp, ref, k));
            var p, q := Min(k * UCS2_BLOCK, len), Min((k + 1) * UCS2_BLOCK, len);
            && d.Some? && d.value.text == s[p..p + AnnouncedUnits(q - p)] && q - p <= UCS2_BLOCK
  {
    hide Representable, PartPdu, DeliverPdu, Read, AddressOf, DialString, Ascii, Start;
    var a := AddressOf(to);
    PartIsDeliver(s, len, a, stamp, ref, k);
    var text := s[..len];
    StartIs(s, len, len, UCS2_BLOCK, k);
    StartIs(s, len, len, UCS2_BLOCK, k + 1);
    PartRange(s, len, len, UCS2_BLOCK, k);
    LastPart(len, k);
    var part := Part(s, len, len, UCS2_BLOCK, k);
    SaidIs(part, false, Parts(len, UCS2_BLOCK));
    DeliverSays(part, false, to, stamp, ref, Parts(len, UCS2_BLOCK), k);
    var p, q := Min(k * UCS2_BLOCK, len), Min((k + 1) * UCS2_BLOCK, len);
    assert part == s[p..q];
    assert part[..AnnouncedUnits(q - p)] == s[p..p + AnnouncedUnits(q - p)];
  }

  lemma LastPart(len: nat, k: nat)
    requires k < Parts(len, UCS2_BLOCK)
    ensures k * UCS2_BLOCK < len
    ensures k + 1 == Parts(len, UCS2_BLOCK) ==> len <= (k + 1) * UCS2_BLOCK
    ensures k + 1 < Parts(len, UCS2_BLOCK) ==> (k + 1) * UCS2_BLOCK < len
  {
  }

  lemma {:induction false} WideParts(s: seq<byte>, len: nat, to: string, stamp: seq<byte>, ref: nat, k: nat)
    requires len < |s| && Ascii(s) && !Representable(s[..len]) && DialString(to) && |stamp| == 7
    requires k <= Parts(len, UCS2_BLOCK)
    ensures var r := ReadAll(PartPdus(s, len, AddressOf(to), stamp, ref, k));
            && r.Some?
            && (len < 128 ==> r.value == s[..Min(k * UCS2_BLOCK, len)])
            && |r.value| <= Min(k * UCS2_BLOCK, len)
            && (len >= 128 && k > 0 ==> |r.value| < Min(k * UCS2_BLOCK, len))
  {
    hide Representable, PartPdu, PartPdus, Read, AddressOf, DialString, ReadAll, Parts, Ascii;
    ReadAllNext(s, len, AddressOf(to), stamp, ref, if k > 0 then k - 1 else 0);
    if k > 0 {
      WideParts(s, len, to, stamp, ref, k - 1);
      WidePart(s, len, to, stamp, ref, k - 1);
    }
  }

  /** The texts that survive being cut and read back, whatever characters they have: over
      the 7-bit tables those whose extension characters end full parts, and otherwise,
      in UCS2, those of fewer than 128 characters, because longer parts overflow the one
      byte of their length. */
  lemma SurvivesIff(s: seq<byte>, len: nat, to: string, stamp: seq<byte>, ref: nat)
    requires len < |s| && s[len] == 0 && Ascii(s) && SmsReadBack.Clean(s[..len]) && DialString(to) && |stamp| == 7
    ensures var n := Parts(Units(s[..len]), Block(s[..len]));
            ReadAll(PartPdus(s, len, AddressOf(to), stamp, ref, n)) == Some(s[..len])
            <==> if Representable(s[..len]) then
                   forall i :: 0 <= i < len && Extended(s[i]) ==> i % GSM7_BLOCK == GSM7_BLOCK - 1
                 else len < 128
  {
    hide Representable, PartPdus, AddressOf, DialString, ReadAll, JoinedTexts, Ascii, AddressField, Extended, TextSeptets, SmsReadBack.Clean;
    var text := s[..len];
    var n := Parts(Units(text), Block(text));
    FieldOfAddress(to);
    if Representable(text) {
      SameTexts(s, len, to, stamp, ref, n);
      SmsReadBack.ReadBackIff(s, len, AddressOf(to), stamp, ref);
    } else {
      WideParts(s, len, to, stamp, ref, n);
      AllParts(len);
      EmptyIsRepresentable(text);
    }
  }

  lemma AllParts(len: nat)
    ensures Min(Parts(len, UCS2_BLOCK) * UCS2_BLOCK, len) == len
    ensures len > 0 ==> Parts(len, UCS2_BLOCK) > 0
  {
  }

  lemma EmptyIsRepresentable(text: seq<byte>)
    ensures text == [] ==> Representable(text)
  {
  }
}
