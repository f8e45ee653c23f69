/** SMS-DELIVER PDUs of helper/sms_gsm.c: the measure-then-write builder and
    the segmentation of long texts (section 9.2.2.1 of 3GPP TS 23.040). */
module SmsDeliver {
  import opened Bits
  import opened Rope
  import opened Septets
  import opened Gsm7
  import opened SmsAddress

  // ----- layout

  /** Septets at bit `pad` of their first byte, filled with zero bits. */
  function Packed(pad: nat, ss: seq<nat>): (bs: seq<byte>)
    ensures |bs| == PackedLen(pad, ss)
  {
    var n := PackedLen(pad, ss);
    BytesOf(Zeros(pad) + SeptetBits(ss) + Zeros(8 * n - pad - 7 * |ss|), n)
  }

  function PackedLen(pad: nat, ss: seq<nat>): nat {
    (7 * |ss| + pad + 7) / 8
  }

  function Header(ref: nat, count: nat, index: nat): seq<byte> {
    [0x05, 0x00, 0x03, ref % 256, count % 256, (index + 1) % 256]
  }

  function Wide(text: seq<byte>): (bs: seq<byte>)
    ensures |bs| == 2 * |text|
  {
    if text == [] then [] else Wide(text[..|text| - 1]) + [0, text[|text| - 1]]
  }

  /** User data length, header when there are several parts, and the text. The
      UCS2 branch repeats the length of its text. */
  function UserData(text: seq<byte>, gsm7: bool, ref: nat, count: nat, index: nat): seq<byte> {
    if gsm7 then
      var ss := TextSeptets(text);
      if count > 1 then [(|ss| + 7) % 256] + Header(ref, count, index) + Packed(1, ss)
      else [|ss| % 256] + Packed(0, ss)
    else
      (if count > 1 then [(2 * |text| + 6) % 256] + Header(ref, count, index) else [2 * |text| % 256])
      + [2 * |text| % 256] + Wide(text)
  }

  /** Everything before the user data: no service centre, SMS-DELIVER with the
      header flag, sender, protocol, coding and time stamp. */
  function Head(address: seq<byte>, gsm7: bool, stamp: seq<byte>, count: nat): (bs: seq<byte>)
    ensures |bs| == 4 + |address| + |stamp|
  {
    [0x00, if count > 1 then 0x60 else 0x20] + address + [0x00, if gsm7 then 0x00 else 0x09] + stamp
  }

  function DeliverPdu(text: seq<byte>, gsm7: bool, address: seq<byte>, stamp: seq<byte>,
                      ref: nat, count: nat, index: nat): seq<byte>
  {
    Head(address, gsm7, stamp, count) + UserData(text, gsm7, ref, count, index)
  }

  // ----- the builder

  /** The rope has appended `out`: to the zeroed block `d` if it has one, otherwise
      only to its position. */
  ghost predicate Built(rope: GsmRope, d: array?<byte>, out: seq<byte>)
    reads rope, d
  {
    && rope.Valid() && !rope.error && rope.data == d && rope.pos == |out|
    && (d != null ==>
          && rope.pos <= d.Length && d[..rope.pos] == out
          && forall k :: rope.pos <= k < d.Length ==> d[k] == 0)
  }

  method Put(rope: GsmRope, bs: seq<byte>, ghost d: array?<byte>, ghost out: seq<byte>)
    requires Built(rope, d, out) && (d != null ==> |out| + |bs| <= d.Length)
    modifies rope, rope.data
    ensures rope.data == old(rope.data)
    ensures Built(rope, d, out + bs)
  {
    rope.Add(bs);
  }

  method PutC(rope: GsmRope, c: byte, ghost d: array?<byte>, ghost out: seq<byte>)
    requires Built(rope, d, out) && (d != null ==> |out| + 1 <= d.Length)
    modifies rope, rope.data
    ensures rope.data == old(rope.data)
    ensures Built(rope, d, out + [c])
  {
    rope.AddC(c);
  }

  method PutAddress(rope: GsmRope, addr: Address, ghost d: array?<byte>, ghost out: seq<byte>)
    requires addr.Valid() && addr.len <= 2 * MAX_SIZE && d != addr.data
    requires Built(rope, d, out) && (d != null ==> |out| + 2 + (addr.len + 1) / 2 <= d.Length)
    modifies rope, rope.data
    ensures rope.data == old(rope.data)
    ensures Built(rope, d, out + AddressBytes(addr.len, addr.toa, addr.Used()))
  {
    AddAddress(rope, addr);
  }

  lemma PackedDef(pad: nat, ss: seq<nat>)
    ensures var n := PackedLen(pad, ss);
            8 * n >= pad + 7 * |ss| &&
            Packed(pad, ss) == BytesOf(Zeros(pad) + SeptetBits(ss) + Zeros(8 * n - pad - 7 * |ss|), n)
  {
    hide BytesOf;
    hide SeptetBits;
    hide Zeros;
  }

  lemma PackedIs(s: seq<byte>, at: nat, n: nat, before: seq<bool>, body: seq<bool>)
    requires at + n <= |s| && |before| == 8 * at && |body| == 8 * n
    requires ByteBits(s[..at + n]) == before + body
    ensures s[at..at + n] == BytesOf(body, n)
  {
    hide ByteBits;
    hide BytesOf;
    var t := s[at..at + n];
    assert s[..at + n] == s[..at] + t;
    ByteBitsAppend(s[..at], t);
    SliceRight(ByteBits(s[..at]), ByteBits(t));
    SliceRight(before, body);
    BytesOfRoundTrip(t);
  }

  lemma ZeroByteBits(s: seq<byte>)
    requires forall k :: 0 <= k < |s| ==> s[k] == 0
    ensures ByteBits(s) == Zeros(8 * |s|)
  {
    ZeroBits(8);
    hide ToBits;
  }

  /** The septets go at bit `pad` of the first free byte. */
  method PutSeptets(rope: GsmRope, text: seq<byte>, count: nat, pad: nat,
                    ghost d: array?<byte>, ghost out: seq<byte>)
    requires Ascii(text) && Built(rope, d, out) && count == |TextSeptets(text)|
    requires d != null ==> |out| + PackedLen(pad, TextSeptets(text)) <= d.Length
    modifies rope, rope.data
    ensures rope.data == old(rope.data)
    ensures Built(rope, d, out + Packed(pad, TextSeptets(text)))
  {
    hide ByteBits;
    hide SeptetBits;
    hide BytesOf;
    hide TextSeptets;
    ghost var ss := TextSeptets(text);
    var n := (count * 7 + pad + 7) / 8;
    var at := rope.Reserve(n);
    if at >= 0 {
      ghost var was := d[..];
      var end := ToGsm7(text, rope.data, 8 * at + pad);
      assert end == 8 * at + pad + 7 * |ss|;
      assert (end + 7) / 8 == at + n;
      ghost var before := ByteBits(was)[..8 * at];
      PadIsZero(was, at, pad);
      PackedDef(pad, ss);
      ghost var z := Zeros(8 * n - pad - 7 * |ss|);
      assert d[..][..at + n] == d[..at + n];
      Regroup4(before, Zeros(pad), SeptetBits(ss), z);
      PackedIs(d[..], at, n, before, Zeros(pad) + SeptetBits(ss) + z);
      KeptBefore(d[..], was, at, n, before, Zeros(pad) + SeptetBits(ss) + z);
      FrontAndBack(d[..], was, out, at, n);
      assert d[..at + n] == d[..][..at + n];
    }
  }

  lemma FrontAndBack(now: seq<byte>, was: seq<byte>, out: seq<byte>, at: nat, n: nat)
    requires at + n <= |now| && at <= |was| && now[..at] == was[..at] == out
    ensures now[..at + n] == out + now[at..at + n]
  {
  }

  lemma PadIsZero(s: seq<byte>, at: nat, pad: nat)
    requires 8 * at + pad <= 8 * |s| && forall k :: at <= k < |s| ==> s[k] == 0
    ensures ByteBits(s)[..8 * at + pad] == ByteBits(s)[..8 * at] + Zeros(pad)
  {
    hide ToBits;
    hide ByteBits;
    var t := s[at..];
    assert s == s[..at] + t;
    ByteBitsAppend(s[..at], t);
    ZeroByteBits(t);
  }

  lemma Regroup4(a: seq<bool>, b: seq<bool>, c: seq<bool>, d: seq<bool>)
    ensures a + b + c + d == a + (b + c + d)
  {
  }

  lemma KeptBefore(s: seq<byte>, was: seq<byte>, at: nat, n: nat, before: seq<bool>, rest: seq<bool>)
    requires at + n <= |s| && at <= |was|
    requires before == ByteBits(was)[..8 * at] && ByteBits(s[..at + n]) == before + rest
    ensures s[..at] == was[..at]
  {
    hide ByteBits;
    hide BytesOf;
    var t := s[..at + n];
    assert t[..at] == s[..at];
    ByteBitsPrefix(t, at);
    ByteBitsPrefix(was, at);
    SliceRight(before, rest);
    BytesOfRoundTrip(s[..at]);
    BytesOfRoundTrip(was[..at]);
  }

  lemma WideNext(text: seq<byte>, i: nat)
    requires i < |text|
    ensures Wide(text[..i + 1]) == Wide(text[..i]) + [0, text[i]] && Wide([]) == []
  {
    assert text[..i + 1][..i] == text[..i];
  }

  lemma NothingWide(text: seq<byte>)
    ensures Wide(text[..0]) == []
  {
  }

  /** utf8_to_ucs2 into the reserved bytes. */
  method PutWide(rope: GsmRope, text: seq<byte>, ghost d: array?<byte>, ghost out: seq<byte>)
    requires Ascii(text) && Built(rope, d, out) && (d != null ==> |out| + 2 * |text| <= d.Length)
    modifies rope, rope.data
    ensures rope.data == old(rope.data)
    ensures Built(rope, d, out + Wide(text))
  {
    hide Wide;
    NothingWide(text);
    var at := rope.Reserve(2 * |text|);
    if at >= 0 {
      var i := 0;
      while i < |text|
        invariant i <= |text| && rope.data == d && d != null
        invariant rope.Valid() && !rope.error && rope.pos == at + 2 * |text| <= d.Length
        invariant d[..at + 2 * i] == out + Wide(text[..i])
        invariant forall k :: at + 2 * i <= k < d.Length ==> d[k] == 0
      {
        WideNext(text, i);
        rope.data[at + 2 * i] := 0;
        rope.data[at + 2 * i + 1] := text[i];
        assert d[..at + 2 * (i + 1)] == d[..at + 2 * i] + [0, text[i]];
        i := i + 1;
      }
      assert text[..i] == text;
    }
  }

  /** gsm_rope_add_sms_user_header. */
  method PutHeader(rope: GsmRope, ref: nat, count: nat, index: nat, ghost d: array?<byte>, ghost out: seq<byte>)
    requires Built(rope, d, out) && (d != null ==> |out| + 6 <= d.Length)
    modifies rope, rope.data
    ensures rope.data == old(rope.data)
    ensures Built(rope, d, out + Header(ref, count, index))
  {
    PutC(rope, 0x05, d, out);
    PutC(rope, 0x00, d, out + [0x05]);
    PutC(rope, 0x03, d, out + [0x05] + [0x00]);
    ghost var h := out + [0x05] + [0x00] + [0x03];
    PutC(rope, ref % 256, d, h);
    PutC(rope, count % 256, d, h + [ref % 256]);
    PutC(rope, (index + 1) % 256, d, h + [ref % 256] + [count % 256]);
    assert h + [ref % 256] + [count % 256] + [(index + 1) % 256] == out + Header(ref, count, index);
  }

  /** gsm_rope_add_sms_deliver_pdu on an empty rope, measuring or writing. */
  method AddSmsDeliverPdu(rope: GsmRope, text: seq<byte>, gsm7: bool, addr: Address, stamp: seq<byte>,
                          ref: nat, count: nat, index: nat, ghost d: array?<byte>)
    requires Ascii(text) && addr.Valid() && addr.len <= 2 * MAX_SIZE && d != addr.data && |stamp| == 7
    requires Built(rope, d, [])
    requires d != null ==>
      d.Length == |DeliverPdu(text, gsm7, AddressBytes(addr.len, addr.toa, addr.Used()), stamp, ref, count, index)|
    modifies rope, rope.data
    ensures rope.data == old(rope.data)
    ensures Built(rope, d,
      DeliverPdu(text, gsm7, AddressBytes(addr.len, addr.toa, addr.Used()), stamp, ref, count, index))
  {
    hide Built;
    hide Packed;
    hide TextSeptets;
    hide Wide;
    hide AddressBytes;
    ghost var ab := AddressBytes(addr.len, addr.toa, addr.Used());
    ghost var body := UserData(text, gsm7, ref, count, index);
    ghost var head := Head(ab, gsm7, stamp, count);
    var mti: byte := if count > 1 then 0x60 else 0x20;
    PutC(rope, 0x00, d, []);
    PutC(rope, mti, d, [] + [0x00]);
    PutAddress(rope, addr, d, [] + [0x00] + [mti]);
    PutC(rope, 0x00, d, [] + [0x00] + [mti] + ab);
    PutC(rope, if gsm7 then 0x00 else 0x09, d, [] + [0x00] + [mti] + ab + [0x00]);
    Put(rope, stamp, d, [] + [0x00] + [mti] + ab + [0x00] + [if gsm7 then 0x00 else 0x09]);
    assert [] + [0x00] + [mti] + ab + [0x00] + [if gsm7 then 0x00 else 0x09] + stamp == head;
    AddUserData(rope, text, gsm7, ref, count, index, d, head);
  }

  /** The coding branches of gsm_rope_add_sms_deliver_pdu. */
  method AddUserData(rope: GsmRope, text: seq<byte>, gsm7: bool, ref: nat, count: nat, index: nat,
                     ghost d: array?<byte>, ghost out: seq<byte>)
    requires Ascii(text) && Built(rope, d, out)
    requires d != null ==> d.Length == |out| + |UserData(text, gsm7, ref, count, index)|
    modifies rope, rope.data
    ensures rope.data == old(rope.data)
    ensures Built(rope, d, out + UserData(text, gsm7, ref, count, index))
  {
    hide Built;
    hide Packed;
    hide TextSeptets;
    hide Wide;
    ghost var h := Header(ref, count, index);
    if gsm7 {
      var septets := CountSeptets(text);
      ghost var p;
      if count > 1 {
        PutC(rope, (septets + 7) % 256, d, out);
        PutHeader(rope, ref, count, index, d, out + [(septets + 7) % 256]);
        PutSeptets(rope, text, septets, 1, d, out + [(septets + 7) % 256] + h);
        p := Packed(1, TextSeptets(text));
        assert out + [(septets + 7) % 256] + h + p == out + ([(septets + 7) % 256] + h + p);
      } else {
        PutC(rope, septets % 256, d, out);
        PutSeptets(rope, text, septets, 0, d, out + [septets % 256]);
        p := Packed(0, TextSeptets(text));
        assert out + [septets % 256] + p == out + ([septets % 256] + p);
      }
    } else {
      var n := |text|;
      ghost var l;
      if count > 1 {
        PutC(rope, (2 * n + 6) % 256, d, out);
        PutHeader(rope, ref, count, index, d, out + [(2 * n + 6) % 256]);
        l := [(2 * n + 6) % 256] + h;
        assert out + [(2 * n + 6) % 256] + h == out + l;
      } else {
        PutC(rope, 2 * n % 256, d, out);
        l := [2 * n % 256];
      }
      PutC(rope, 2 * n % 256, d, out + l);
      PutWide(rope, text, d, out + l + [2 * n % 256]);
      assert out + l + [2 * n % 256] + Wide(text) == out + (l + [2 * n % 256] + Wide(text));
    }
  }

  datatype SmsPdu = SmsPdu(base: array<byte>, end: nat, tpdu: nat)

  /** smspdu_create_deliver: the first pass measures, the second writes; the block
      allocated from the first is filled exactly. */
  method CreateDeliver(text: seq<byte>, gsm7: bool, addr: Address, stamp: seq<byte>,
                       ref: nat, count: nat, index: nat) returns (p: SmsPdu)
    requires Ascii(text) && addr.Valid() && addr.len <= 2 * MAX_SIZE && |stamp| == 7
    ensures fresh(p.base) && p.tpdu == 1 && p.end == p.base.Length
    ensures p.base[..] ==
      DeliverPdu(text, gsm7, AddressBytes(addr.len, addr.toa, addr.Used()), stamp, ref, count, index)
  {
    var rope := new GsmRope();
    rope.Init();
    ghost var pdu := DeliverPdu(text, gsm7, AddressBytes(addr.len, addr.toa, addr.Used()), stamp, ref, count, index);
    AddSmsDeliverPdu(rope, text, gsm7, addr, stamp, ref, count, index, null);
    assert rope.pos == |pdu| > 0;
    rope.InitAlloc(rope.pos);
    var d := rope.data;
    assert d[..0] == [];
    AddSmsDeliverPdu(rope, text, gsm7, addr, stamp, ref, count, index, d);
    assert d[..] == d[..rope.pos];
    p := SmsPdu(d, rope.pos, 1);
  }
}
