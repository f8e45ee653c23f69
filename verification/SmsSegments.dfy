/** Long texts: smspdu_create_deliver_utf8 cuts a text into parts, one PDU each,
    and the parts are read back as section 9.2.3.24 of 3GPP TS 23.040 lays them out. */
module SmsSegments {
  import opened Bits
  import opened Basics
  import opened Septets
  import opened Gsm7
  import Utf8
  import opened SmsAddress
  import opened SmsDeliver

  const GSM7_BLOCK := 154
  const UCS2_BLOCK := 134

  function Representable(text: seq<byte>): bool {
    forall i :: 0 <= i < |text| ==> Single(text[i]) || Extended(text[i])
  }

  /** Units the parts are counted in: septets, or characters when the text does
      not fit the 7-bit alphabet. */
  function Units(text: seq<byte>): nat {
    if Representable(text) then |TextSeptets(text)| else |text|
  }

  function Block(text: seq<byte>): nat {
    if Representable(text) then GSM7_BLOCK else UCS2_BLOCK
  }

  function Parts(units: nat, block: nat): nat
    requires block > 0
  {
    if units % block > 0 then units / block + 1 else units / block
  }

  /** Characters asked for by part `nn`. */
  function PartSkip(units: nat, block: nat, nn: nat): nat
    requires block > 0
  {
    if units % block > 0 && nn + 1 == Parts(units, block) then units % block else block
  }

  /** Where part `nn` starts in the buffer `s` that holds a text of length `len`. */
  function Start(s: seq<byte>, len: nat, units: nat, block: nat, nn: nat): (p: nat)
    requires len < |s| && block > 0
    ensures p <= len + 1
  {
    if nn == 0 then 0
    else Utf8.Skip(s, Start(s, len, units, block, nn - 1), len, PartSkip(units, block, nn - 1))
  }

  function Part(s: seq<byte>, len: nat, units: nat, block: nat, nn: nat): seq<byte>
    requires len < |s| && block > 0
  {
    var p := Start(s, len, units, block, nn);
    var q := Start(s, len, units, block, nn + 1);
    s[p..q]
  }

  // ----- the segmenter

  lemma CountParts(units: nat, block: nat)
    requires block > 0
    ensures units - units / block * block == units % block
  {
  }

  /** The PDU of part `nn` of `n`. */
  function PartPdu(s: seq<byte>, len: nat, a: seq<byte>, stamp: seq<byte>, ref: nat, nn: nat): seq<byte>
    requires len < |s|
  {
    var text := s[..len];
    DeliverPdu(Part(s, len, Units(text), Block(text), nn), Representable(text), a, stamp, ref,
               Parts(Units(text), Block(text)), nn)
  }

  lemma PartPduIs(s: seq<byte>, len: nat, units: nat, block: nat, gsm7: bool,
                  a: seq<byte>, stamp: seq<byte>, ref: nat, nn: nat)
    requires len < |s| && block > 0
    requires gsm7 == Representable(s[..len]) && units == Units(s[..len]) && block == Block(s[..len])
    ensures PartPdu(s, len, a, stamp, ref, nn) ==
            DeliverPdu(s[Start(s, len, units, block, nn)..Start(s, len, units, block, nn + 1)],
                       gsm7, a, stamp, ref, Parts(units, block), nn)
    ensures Start(s, len, units, block, nn + 1) ==
            Utf8.Skip(s, Start(s, len, units, block, nn), len, PartSkip(units, block, nn))
  {
    hide DeliverPdu;
    hide Representable;
  }

  /** use_gsm7, count and block of smspdu_create_deliver_utf8. */
  method Measure(text: seq<byte>) returns (gsm7: bool, count: nat, block: nat)
    requires Ascii(text)
    ensures gsm7 == Representable(text) && count == Units(text) && block == Block(text)
  {
    gsm7 := CheckGsm7(text);
    count, block := |text|, UCS2_BLOCK;
    if gsm7 {
      count := CountSeptets(text);
      block := GSM7_BLOCK;
    }
  }

  lemma BlockPositive(text: seq<byte>)
    ensures Block(text) > 0
  {
  }

  /** `utf8` is a C string of ASCII characters: its terminator is readable. */
  method CreateDeliverUtf8(utf8: seq<byte>, utf8len: nat, addr: Address, stamp: seq<byte>, ref: byte)
    returns (list: seq<SmsPdu>, nextRef: byte)
    requires utf8len < |utf8| && Ascii(utf8)
    requires addr.Valid() && addr.len <= 2 * MAX_SIZE && |stamp| == 7
    ensures |list| == Parts(Units(utf8[..utf8len]), Block(utf8[..utf8len])) && nextRef == (ref + 1) % 256
    ensures forall nn :: 0 <= nn < |list| ==> 
      list[nn].base[..] == PartPdu(utf8, utf8len, AddressBytes(addr.len, addr.toa, addr.Used()), stamp, ref, nn)
  {
    hide DeliverPdu;
    hide PartPdu;
    hide AddressBytes;
    hide Units;
    hide Block;
    hide Representable;
    hide Start;
    ghost var ab := AddressBytes(addr.len, addr.toa, addr.Used());
    var gsm7, count, block := Measure(utf8[..utf8len]);
    BlockPositive(utf8[..utf8len]);
    CountParts(count, block);
    var numPdus := count / block;
    var leftover := count - numPdus * block;
    if leftover > 0 {
      numPdus := numPdus + 1;
    }
    list := [];
    var src := 0;
    StartZero(utf8, utf8len, count, block);
    var nn := 0;
    while nn < numPdus
      invariant 0 <= nn <= numPdus && |list| == nn
      invariant src == Start(utf8, utf8len, count, block, nn)
      invariant forall k :: 0 <= k < nn ==> fresh(list[k].base)
      invariant forall k :: 0 <= k < nn ==> list[k].base[..] == PartPdu(utf8, utf8len, ab, stamp, ref, k)
    {
      var skip := block;
      if leftover > 0 && nn == numPdus - 1 {
        skip := leftover;
      }
      PartPduIs(utf8, utf8len, count, block, gsm7, ab, stamp, ref, nn);
      var srcNext := Utf8.SkipChars(utf8, src, utf8len, skip);
      var p := CreateDeliver(utf8[src..srcNext], gsm7, addr, stamp, ref, numPdus, nn);
      list := list + [p];
      src := srcNext;
      nn := nn + 1;
    }
    nextRef := (ref + 1) % 256;
  }

  lemma StartZero(s: seq<byte>, len: nat, units: nat, block: nat)
    requires len < |s| && block > 0
    ensures Start(s, len, units, block, 0) == 0
  {
  }

  // ----- what the parts add up to

  lemma {:induction false} AsciiSkip(s: seq<byte>, p: nat, end: nat, k: nat)
    requires p <= end + 1 && end < |s| && Ascii(s)
    ensures Utf8.Skip(s, p, end, k) == if p + k <= end + 1 then p + k else end + 1
    decreases k
  {
    if k > 0 && p <= end {
      AsciiSkip(s, p + 1, end, k - 1);
    }
  }

  lemma PartBounds(units: nat, block: nat, nn: nat)
    requires block > 0 && nn < Parts(units, block)
    ensures nn * block + PartSkip(units, block, nn) ==
            if nn + 1 < Parts(units, block) then (nn + 1) * block else units
  {
    assert units == units / block * block + units % block;
  }

  lemma {:induction false} StartIs(s: seq<byte>, len: nat, units: nat, block: nat, nn: nat)
    requires len < |s| && block > 0 && Ascii(s) && nn <= Parts(units, block)
    ensures Start(s, len, units, block, nn) ==
            Min(if nn < Parts(units, block) then nn * block else units, len + 1)
  {
    if nn > 0 {
      StartIs(s, len, units, block, nn - 1);
      PartBounds(units, block, nn - 1);
      AsciiSkip(s, Start(s, len, units, block, nn - 1), len, PartSkip(units, block, nn - 1));
    } else {
      NoParts(units, block);
    }
  }

  lemma NoParts(units: nat, block: nat)
    requires block > 0
    ensures Parts(units, block) == 0 <==> units == 0
  {
    assert units == units / block * block + units % block;
  }

  function Joined(s: seq<byte>, len: nat, units: nat, block: nat, nn: nat): seq<byte>
    requires len < |s| && block > 0
  {
    if nn == 0 then [] else Joined(s, len, units, block, nn - 1) + Part(s, len, units, block, nn - 1)
  }

  lemma PartRange(s: seq<byte>, len: nat, units: nat, block: nat, nn: nat)
    requires len < |s| && block > 0
    ensures var p, q := Start(s, len, units, block, nn), Start(s, len, units, block, nn + 1);
            p <= q <= |s| && Part(s, len, units, block, nn) == s[p..q] && s[..p] + s[p..q] == s[..q]
  {
    hide Parts;
  }

  lemma {:induction false} JoinedIs(s: seq<byte>, len: nat, units: nat, block: nat, nn: nat)
    requires len < |s| && block > 0
    ensures Joined(s, len, units, block, nn) == s[..Start(s, len, units, block, nn)]
  {
    hide Start, Part;
    if nn > 0 {
      JoinedIs(s, len, units, block, nn - 1);
      PartRange(s, len, units, block, nn - 1);
    } else {
      assert Start(s, len, units, block, nn) == 0 by { StartZero(s, len, units, block); }
    }
  }

  lemma {:induction false} SeptetCount(text: seq<byte>)
    ensures |TextSeptets(text)| >= |text|
    ensures |TextSeptets(text)| == |text| <==> forall i :: 0 <= i < |text| ==> !Extended(text[i])
  {
    hide Extended;
    if text != [] {
      var n := |text| - 1;
      SeptetCount(text[..n]);
      assert forall i :: 0 <= i < n ==> text[..n][i] == text[i];
      assert |CharSeptets(text[n])| == if Extended(text[n]) then 2 else 1;
    }
  }

  /** The stretches of the buffer that the parts are made from add up to the text exactly
      when no character takes two septets in a 7-bit message; otherwise they take in the
      byte after the text as well, because the parts are counted in septets and stepped
      through in characters. */
  lemma SegmentsConserveIff(s: seq<byte>, len: nat)
    requires len < |s| && Ascii(s)
    ensures var text := s[..len];
            var joined := Joined(s, len, Units(text), Block(text), Parts(Units(text), Block(text)));
            && (joined == text <==>
                  !Representable(text) || forall i :: 0 <= i < len ==> !Extended(text[i]))
            && (joined != text ==> joined == text + [s[len]])
  {
    hide Representable;
    hide Extended;
    hide TextSeptets;
    hide Start;
    hide Joined;
    var text := s[..len];
    var units, block := Units(text), Block(text);
    var n := Parts(units, block);
    StartIs(s, len, units, block, n);
    JoinedIs(s, len, units, block, n);
    SeptetCount(text);
    assert s[..len + 1] == text + [s[len]];
    assert |s[..len + 1]| != |text|;
  }

  // ----- reading a part back

  datatype Message = Message(text: seq<byte>, ref: nat, count: nat, index: nat)

  /** A 7-bit SMS-DELIVER, field by field: service centre, first octet, sender,
      protocol, coding, time stamp, user data length, and a concatenation header
      when the first octet announces one. */
  function ParseDeliver(p: seq<byte>): Option<Message> {
    if |p| == 0 || |p| < 3 + p[0] as nat then None
    else
      var sc: nat := p[0];
      var at: nat := 1 + sc;
      var digits: nat := p[at + 1];
      var ud: nat := at + 3 + (digits + 1) / 2 + 9;
      if |p| <= ud then None
      else
        var udl: nat := p[ud];
        if p[at] / 0x40 % 2 == 1 then
          if |p| < ud + 7 || udl < 7 || 8 * (ud + 1) + 7 * udl > 8 * |p| then None
          else Some(Message(Decode(SeptetsAt(p, 8 * (ud + 1) + 49, udl - 7), false),
                            p[ud + 4], p[ud + 5], p[ud + 6]))
        else if 8 * (ud + 1) + 7 * udl > 8 * |p| then None
        else Some(Message(Decode(SeptetsAt(p, 8 * (ud + 1), udl), false), 0, 1, 1))
  }

  lemma {:induction false} BytesOfBits(p: seq<bool>, n: nat)
    requires |p| == 8 * n
    ensures ByteBits(BytesOf(p, n)) == p
  {
    hide ByteBits;
    hide ByteOf;
    if n == 0 {
      assert BytesOf(p, n) == [];
    } else {
      BytesOfBits(p[8..], n - 1);
      ByteBitsAppend([ByteOf(p[..8])], BytesOf(p[8..], n - 1));
      ByteBitsOne(ByteOf(p[..8]));
      ByteOfBits(p[..8]);
      assert p == p[..8] + p[8..];
    }
  }

  lemma PackedReads(before: seq<byte>, pad: nat, ss: seq<nat>)
    requires AllSeptets(ss)
    ensures var p := before + Packed(pad, ss);
            8 * |before| + pad + 7 * |ss| <= 8 * |p| &&
            SeptetsAt(p, 8 * |before| + pad, |ss|) == ss
  {
    hide ByteBits;
    hide BytesOf;
    hide SeptetBits;
    hide Packed;
    hide SeptetsAt;
    var n := PackedLen(pad, ss);
    PackedDef(pad, ss);
    var z := Zeros(8 * n - pad - 7 * |ss|);
    var bits := Zeros(pad) + SeptetBits(ss) + z;
    BytesOfBits(bits, n);
    var p := before + Packed(pad, ss);
    ByteBitsAppend(before, Packed(pad, ss));
    assert ByteBits(before) + bits == ByteBits(before) + Zeros(pad) + SeptetBits(ss) + z;
    PackingRoundTrip(p, ByteBits(before) + Zeros(pad), ss, z);
  }

  /** A well-formed address field: its first byte counts its digits. */
  ghost predicate AddressField(a: seq<byte>) {
    2 <= |a| && |a| == 2 + (a[0] as nat + 1) / 2
  }

  lemma HeadShape(a: seq<byte>, stamp: seq<byte>, count: nat)
    requires AddressField(a) && |stamp| == 7
    ensures var h := Head(a, true, stamp, count);
            |h| == 11 + |a| && h[0] == 0 && h[1] == (if count > 1 then 0x60 else 0x20) && h[2] == a[0]
  {
  }

  /** How many of `n` septets the user data length announces: it is one byte, and in
      several parts counts the header as seven. Negative when it is too small for that. */
  function Announced(n: nat, count: nat): (q: int)
    ensures q <= n
    ensures n + 7 < 256 ==> q == n
  {
    if count > 1 then (n + 7) % 256 - 7 else n % 256
  }

  lemma SeptetsPrefix(p: seq<byte>, at: nat, n: nat, q: nat)
    requires q <= n && at + 7 * n <= 8 * |p|
    ensures SeptetsAt(p, at, q) == SeptetsAt(p, at, n)[..q]
  {
    hide SeptetAt;
  }

  /** Reading back a part gives what its announced septets mean, and its place in the
      message. */
  lemma ParseOfDeliver(text: seq<byte>, a: seq<byte>, stamp: seq<byte>, ref: nat, count: nat, index: nat)
    requires AddressField(a) && |stamp| == 7
    ensures var ss := TextSeptets(text);
            var q := Announced(|ss|, count);
            ParseDeliver(DeliverPdu(text, true, a, stamp, ref, count, index)) ==
            if q < 0 then None
            else if count > 1 then Some(Message(Decode(ss[..q], false), ref % 256, count % 256, (index + 1) % 256))
            else Some(Message(Decode(ss[..q], false), 0, 1, 1))
  {
    hide *;
    var ss := TextSeptets(text);
    var h := Head(a, true, stamp, count);
    HeadShape(a, stamp, count);
    UserDataIs(text, ref, count, index);
    DeliverPduIs(text, a, stamp, ref, count, index);
    var p := DeliverPdu(text, true, a, stamp, ref, count, index);
    AnnouncedIs(|ss|, count);
    var q := Announced(|ss|, count);
    if count > 1 {
      var before := h + ([(|ss| + 7) % 256] + Header(ref, count, index));
      HeaderIs(ref, count, index);
      PackedReads(before, 1, ss);
      ParseMulti(p, h, |ss|, Header(ref, count, index), Packed(1, ss), a, count);
      if q >= 0 { SeptetsPrefix(p, 8 * |before| + 1, |ss|, q); }
    } else {
      PackedReads(h + [|ss| % 256], 0, ss);
      ParseSingle(p, h, |ss|, Packed(0, ss), a);
      SeptetsPrefix(p, 8 * (|h| + 1), |ss|, q);
    }
  }

  lemma AnnouncedIs(n: nat, count: nat)
    ensures Announced(n, count) == if count > 1 then (n + 7) % 256 - 7 else n % 256
  {
  }

  /** A part that its length byte can express reads back whole. */
  lemma ParseOfShort(text: seq<byte>, a: seq<byte>, stamp: seq<byte>, ref: nat, count: nat, index: nat)
    requires AddressField(a) && |stamp| == 7 && |TextSeptets(text)| + 7 < 256
    ensures ParseDeliver(DeliverPdu(text, true, a, stamp, ref, count, index)) ==
            Some(if count > 1
                 then Message(Decode(TextSeptets(text), false), ref % 256, count % 256, (index + 1) % 256)
                 else Message(Decode(TextSeptets(text), false), 0, 1, 1))
  {
    hide *;
    ParseOfDeliver(text, a, stamp, ref, count, index);
    var ss := TextSeptets(text);
    assert ss[..|ss|] == ss;
  }

  lemma DeliverPduIs(text: seq<byte>, a: seq<byte>, stamp: seq<byte>, ref: nat, count: nat, index: nat)
    ensures DeliverPdu(text, true, a, stamp, ref, count, index)
         == Head(a, true, stamp, count) + UserData(text, true, ref, count, index)
  {
  }

  lemma UserDataIs(text: seq<byte>, ref: nat, count: nat, index: nat)
    ensures var ss := TextSeptets(text);
            UserData(text, true, ref, count, index) ==
            if count > 1 then [(|ss| + 7) % 256] + Header(ref, count, index) + Packed(1, ss)
            else [|ss| % 256] + Packed(0, ss)
  {
  }

  lemma HeaderIs(ref: nat, count: nat, index: nat)
    ensures var h := Header(ref, count, index);
            |h| == 6 && h[3] == ref % 256 && h[4] == count % 256 && h[5] == (index + 1) % 256
  {
  }

  lemma ParseMulti(p: seq<byte>, h: seq<byte>, n: nat, header: seq<byte>, packed: seq<byte>,
                   a: seq<byte>, count: nat)
    requires |header| == 6 && AddressField(a)
    requires |h| == 11 + |a| && h[0] == 0 && h[1] == 0x60 && h[2] == a[0]
    requires p == h + ([(n + 7) % 256] + header + packed)
    requires 8 * (|h| + 7) + 1 + 7 * n <= 8 * |h + ([(n + 7) % 256] + header) + packed|
    ensures 8 * (|h| + 7) + 1 + 7 * n <= 8 * |p|
    ensures p == h + ([(n + 7) % 256] + header) + packed
    ensures var q := (n + 7) % 256 - 7;
            ParseDeliver(p) ==
            if q < 0 then None
            else Some(Message(Decode(SeptetsAt(p, 8 * (|h| + 7) + 1, q), false), header[3], header[4], header[5]))
  {
    hide SeptetsAt;
    hide Decode;
    var q := h + ([(n + 7) % 256] + header) + packed;
    assert p == q;
    assert q[..|h|] == h && q[|h|] == (n + 7) % 256;
    assert q[|h| + 1..|h| + 7] == header;
    assert p[0] == 0 && p[1] == 0x60 && p[2] == a[0];
    assert p[|h| + 4] == header[3] && p[|h| + 5] == header[4] && p[|h| + 6] == header[5];
  }

  lemma ParseSingle(p: seq<byte>, h: seq<byte>, n: nat, packed: seq<byte>, a: seq<byte>)
    requires AddressField(a)
    requires |h| == 11 + |a| && h[0] == 0 && h[1] == 0x20 && h[2] == a[0]
    requires p == h + ([n % 256] + packed)
    requires 8 * (|h| + 1) + 7 * n <= 8 * |h + [n % 256] + packed|
    ensures 8 * (|h| + 1) + 7 * n <= 8 * |p|
    ensures p == h + [n % 256] + packed
    ensures ParseDeliver(p) == Some(Message(Decode(SeptetsAt(p, 8 * (|h| + 1), n % 256), false), 0, 1, 1))
  {
    hide SeptetsAt;
    hide Decode;
    var q := h + [n % 256] + packed;
    assert p == q;
    assert q[..|h|] == h && q[|h|] == n % 256;
    assert p[0] == 0 && p[1] == 0x20 && p[2] == a[0];
  }

  function JoinedTexts(pdus: seq<seq<byte>>): Option<seq<byte>> {
    if pdus == [] then Some([])
    else
      match (JoinedTexts(pdus[..|pdus| - 1]), ParseDeliver(pdus[|pdus| - 1]))
      case (Some(t), Some(m)) => Some(t + m.text)
      case _ => None
  }

  /** The first `k` PDUs the segmenter makes. */
  function PartPdus(s: seq<byte>, len: nat, a: seq<byte>, stamp: seq<byte>, ref: nat, k: nat): seq<seq<byte>>
    requires len < |s|
  {
    seq(k, nn requires 0 <= nn < k => PartPdu(s, len, a, stamp, ref, nn))
  }

  predicate PlainChar(c: byte) {
    Single(c) && 0 < c < 128
  }

  predicate PlainAscii(text: seq<byte>) {
    forall i :: 0 <= i < |text| ==> PlainChar(text[i])
  }

  lemma PartIs(s: seq<byte>, len: nat, nn: nat)
    requires len < |s| && Ascii(s) && nn < Parts(len, GSM7_BLOCK)
    ensures Start(s, len, len, GSM7_BLOCK, nn) <= Start(s, len, len, GSM7_BLOCK, nn + 1) <= len
    ensures |Part(s, len, len, GSM7_BLOCK, nn)| <= GSM7_BLOCK
  {
    StartIs(s, len, len, GSM7_BLOCK, nn);
    StartIs(s, len, len, GSM7_BLOCK, nn + 1);
  }

  lemma PlainUnits(text: seq<byte>)
    requires PlainAscii(text)
    ensures Representable(text) && Units(text) == |text| && Block(text) == GSM7_BLOCK
  {
    hide TextSeptets;
    hide Single;
    PlainText(text);
  }

  /** Each part reads back as its stretch of the text, numbered when there are several. */
  lemma PartReads(s: seq<byte>, len: nat, a: seq<byte>, stamp: seq<byte>, ref: nat, nn: nat)
    requires len < |s| && Ascii(s) && PlainAscii(s[..len])
    requires AddressField(a) && |stamp| == 7 && nn < Parts(len, GSM7_BLOCK)
    ensures var n := Parts(len, GSM7_BLOCK);
            ParseDeliver(PartPdu(s, len, a, stamp, ref, nn)) ==
            Some(if n > 1 then Message(Part(s, len, len, GSM7_BLOCK, nn), ref % 256, n % 256, (nn + 1) % 256)
                 else Message(Part(s, len, len, GSM7_BLOCK, nn), 0, 1, 1))
  {
    hide Parts;
    hide Part;
    hide Start;
    hide PartPdu;
    hide DeliverPdu;
    hide ParseDeliver;
    hide TextSeptets;
    hide Decode;
    hide Units;
    hide Block;
    hide Representable;
    hide PlainAscii;
    var n, part := Parts(len, GSM7_BLOCK), Part(s, len, len, GSM7_BLOCK, nn);
    assert |s[..len]| == len;
    PlainUnits(s[..len]);
    PartPduIs(s, len, len, GSM7_BLOCK, true, a, stamp, ref, nn);
    PartIsSlice(s, len, nn);
    PartPlain(s, len, nn);
    PlainPart(part);
    ParseOfShort(part, a, stamp, ref, n, nn);
  }

  lemma PartIsSlice(s: seq<byte>, len: nat, nn: nat)
    requires len < |s|
    ensures Part(s, len, len, GSM7_BLOCK, nn)
         == s[Start(s, len, len, GSM7_BLOCK, nn)..Start(s, len, len, GSM7_BLOCK, nn + 1)]
  {
  }

  lemma PlainPart(part: seq<byte>)
    requires PlainAscii(part)
    ensures Decode(TextSeptets(part), false) == part && |TextSeptets(part)| == |part|
  {
    hide Single;
    PlainText(part);
  }

  lemma {:induction false} PartsRead(s: seq<byte>, len: nat, a: seq<byte>, stamp: seq<byte>, ref: nat, k: nat)
    requires len < |s| && Ascii(s) && PlainAscii(s[..len])
    requires AddressField(a) && |stamp| == 7 && k <= Parts(len, GSM7_BLOCK)
    ensures JoinedTexts(PartPdus(s, len, a, stamp, ref, k)) == Some(Joined(s, len, len, GSM7_BLOCK, k))
  {
    hide PartPdu;
    hide Part;
    hide ParseDeliver;
    hide Parts;
    hide PlainAscii;
    if k > 0 {
      var pdus := PartPdus(s, len, a, stamp, ref, k);
      PartsRead(s, len, a, stamp, ref, k - 1);
      assert pdus[..k - 1] == PartPdus(s, len, a, stamp, ref, k - 1);
      PartReads(s, len, a, stamp, ref, k - 1);
    }
  }

  lemma PartPlain(s: seq<byte>, len: nat, nn: nat)
    requires len < |s| && Ascii(s) && PlainAscii(s[..len]) && nn < Parts(len, GSM7_BLOCK)
    ensures PlainAscii(Part(s, len, len, GSM7_BLOCK, nn)) && |Part(s, len, len, GSM7_BLOCK, nn)| <= GSM7_BLOCK
  {
    hide PlainChar;
    hide Start;
    PartIs(s, len, nn);
    var p, q := Start(s, len, len, GSM7_BLOCK, nn), Start(s, len, len, GSM7_BLOCK, nn + 1);
    assert s[p..q] == s[..len][p..q];
  }

  /** Segmentation conserves text: for plain text there are ceil(n / 154) parts
      and their user data joins to the text. */
  lemma SegmentationConserves(s: seq<byte>, len: nat, a: seq<byte>, stamp: seq<byte>, ref: nat)
    requires len < |s| && Ascii(s) && PlainAscii(s[..len])
    requires AddressField(a) && |stamp| == 7
    ensures var n := Parts(Units(s[..len]), Block(s[..len]));
            && n == (len + GSM7_BLOCK - 1) / GSM7_BLOCK
            && JoinedTexts(PartPdus(s, len, a, stamp, ref, n)) == Some(s[..len])
  {
    hide PlainAscii;
    hide Units;
    hide Block;
    hide Joined;
    hide Start;
    hide PartPdus;
    hide JoinedTexts;
    var n := Parts(len, GSM7_BLOCK);
    PlainUnits(s[..len]);
    PartsRead(s, len, a, stamp, ref, n);
    JoinedIs(s, len, len, GSM7_BLOCK, n);
    StartIs(s, len, len, GSM7_BLOCK, n);
  }
}
