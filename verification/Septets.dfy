/** Septets packed least significant bit first at any bit offset (section 6.1.2.1
    of 3GPP TS 23.038): the bwriter of helper/gsm.c and the reading walk. */
module Septets {
  import opened Bits

  /** The bits of a byte buffer, each byte least significant bit first. */
  function ByteBits(s: seq<byte>): (p: seq<bool>)
    ensures |p| == 8 * |s|
  {
    seq(8 * |s|, b requires 0 <= b < 8 * |s| => ToBits(s[b / 8], 8)[b % 8])
  }

  function SeptetBits(ss: seq<nat>): (p: seq<bool>)
    ensures |p| == 7 * |ss|
  {
    if ss == [] then [] else SeptetBits(ss[..|ss| - 1]) + ToBits(ss[|ss| - 1], 7)
  }

  ghost predicate AllSeptets(ss: seq<nat>) {
    forall i :: 0 <= i < |ss| ==> ss[i] < 128
  }

  lemma ByteBitsAppend(s: seq<byte>, t: seq<byte>)
    ensures ByteBits(s + t) == ByteBits(s) + ByteBits(t)
  {
    hide ToBits;
  }

  lemma ByteBitsOne(v: byte)
    ensures ByteBits([v]) == ToBits(v, 8)
  {
    hide ToBits;
  }

  lemma ByteBitsPrefix(s: seq<byte>, k: nat)
    requires k <= |s|
    ensures ByteBits(s[..k]) == ByteBits(s)[..8 * k]
  {
    hide ToBits;
  }

  /** The bytes that hold the bits `p`, `n` of them. */
  function BytesOf(p: seq<bool>, n: nat): (s: seq<byte>)
    requires |p| == 8 * n
    ensures |s| == n
    decreases n
  {
    if n == 0 then [] else [ByteOf(p[..8])] + BytesOf(p[8..], n - 1)
  }

  function ByteOf(p: seq<bool>): byte
    requires |p| == 8
  {
    FromBitsBound(p);
    assert Pow2(8) == 256;
    FromBits(p)
  }

  lemma {:induction false} BytesOfRoundTrip(s: seq<byte>)
    ensures BytesOf(ByteBits(s), |s|) == s
  {
    hide ToBits;
    hide ByteBits;
    if s != [] {
      assert s == [s[0]] + s[1..];
      ByteBitsAppend([s[0]], s[1..]);
      ByteBitsOne(s[0]);
      var p := ByteBits(s);
      assert p[..8] == ToBits(s[0], 8) && p[8..] == ByteBits(s[1..]);
      FromToBits(s[0], 8);
      assert Pow2(8) == 256;
      BytesOfRoundTrip(s[1..]);
    }
  }

  // ----- the writer

  lemma SplitAt(p: seq<bool>, k: nat)
    requires k <= |p|
    ensures p == p[..k] + p[k..]
  {
  }

  /** One step of the accumulator: the value goes above the pending bits. */
  lemma PadAppend(pending: seq<bool>, value: nat)
    requires value < 128
    ensures Or(FromBits(pending), Shl(value, |pending|)) == FromBits(pending + ToBits(value, 7))
  {
    FromToBits(value, 7);
    assert Pow2(7) == 128;
    OrAppend(pending, ToBits(value, 7));
  }

  lemma PadSplit(pending: seq<bool>)
    requires 8 <= |pending|
    ensures Low(FromBits(pending), 8) == ByteOf(pending[..8])
    ensures Shr(FromBits(pending), 8) == FromBits(pending[8..])
  {
    LowFromBits(pending, 8);
    ShrFromBits(pending, 8);
  }

  lemma ByteOfBits(p: seq<bool>)
    requires |p| == 8
    ensures ToBits(ByteOf(p), 8) == p
  {
    ToFromBits(p);
  }

  class BWriter {
    var buf: array<byte>
    var dst: nat
    var pad: nat
    var bits: nat
    var offset: nat
    /** The bits in the accumulator that are not stored yet. */
    ghost var pending: seq<bool>

    ghost predicate Valid()
      reads this, buf
    {
      && bits < 8 && |pending| == bits && pad == FromBits(pending)
      && dst <= buf.Length && (bits > 0 ==> dst < buf.Length)
      && offset == 8 * dst + bits
    }

    /** Every bit of the buffer up to the write position. */
    ghost function Content(): (p: seq<bool>)
      requires Valid()
      reads this, buf
      ensures |p| == offset
    {
      ByteBits(buf[..dst]) + pending
    }

    constructor (buffer: array<byte>, start: nat)
      requires start <= 8 * buffer.Length
      ensures Valid() && buf == buffer && offset == start
      ensures Content() == ByteBits(buffer[..])[..start]
    {
      var shift := start % 8;
      buf := buffer;
      dst := start / 8;
      bits := shift;
      offset := start;
      pad := if shift > 0 then Low(buffer[start / 8], shift) else 0;
      pending := if shift > 0 then ToBits(buffer[start / 8], 8)[..shift] else [];
      new;
      StartBits(buffer[..], start);
    }

    /** Appends one septet; of the rest of the buffer nothing past the write
        position is touched. */
    method Add7(value: nat)
      requires Valid() && value < 128 && offset + 7 <= 8 * buf.Length
      modifies this, buf
      ensures Valid() && buf == old(buf) && offset == old(offset) + 7
      ensures Content() == old(Content()) + ToBits(value, 7)
      ensures forall k :: dst <= k < buf.Length ==> buf[k] == old(buf[k])
    {
      hide FromBits;
      hide ToBits;
      hide Low;
      hide Shr;
      hide Shl;
      hide Or;
      hide ByteBits;
      hide ByteOf;
      ghost var done, p0 := buf[..dst], pending;
      ghost var p := p0 + ToBits(value, 7);
      PadAppend(p0, value);
      pad := Or(pad, Shl(value, bits));
      bits := bits + 7;
      pending := p;
      if bits >= 8 {
        PadSplit(p);
        buf[dst] := Low(pad, 8);
        bits := bits - 8;
        pad := Shr(pad, 8);
        pending := p[8..];
        dst := dst + 1;
        ghost var b := ByteOf(p[..8]);
        assert buf[..dst] == done + [b];
        ByteBitsAppend(done, [b]);
        ByteBitsOne(b);
        ByteOfBits(p[..8]);
        SplitAt(p, 8);
        Reassociate(ByteBits(done), p[..8], p[8..]);
        Reassociate(ByteBits(done), p0, ToBits(value, 7));
      } else {
        assert buf[..dst] == done;
        Reassociate(ByteBits(done), p0, ToBits(value, 7));
      }
      offset := offset + 7;
    }

    /** Stores the last partial byte, filled with zero bits. */
    method Done() returns (end: nat)
      requires Valid()
      modifies this, buf
      ensures buf == old(buf) && end == old(offset) && dst == (end + 7) / 8 <= buf.Length
      ensures ByteBits(buf[..dst]) == old(Content()) + Zeros(8 * dst - end)
      ensures forall k :: dst <= k < buf.Length ==> buf[k] == old(buf[k])
    {
      hide FromBits;
      hide ToBits;
      hide ByteBits;
      hide ByteOf;
      end := offset;
      if bits > 0 {
        ghost var done, p := buf[..dst], pending + Zeros(8 - bits);
        FromBitsZeros(pending, 8 - bits);
        ByteOfIs(p);
        buf[dst] := pad;
        pad := 0;
        bits := 0;
        dst := dst + 1;
        assert buf[..dst] == done + [ByteOf(p)];
        ByteBitsAppend(done, [ByteOf(p)]);
        ByteBitsOne(ByteOf(p));
        ByteOfBits(p);
        Reassociate(ByteBits(done), pending, Zeros(8 - old(bits)));
      } else {
        assert ByteBits(buf[..dst]) + [] + Zeros(0) == ByteBits(buf[..dst]);
      }
    }
  }

  lemma ByteOfIs(p: seq<bool>)
    requires |p| == 8
    ensures ByteOf(p) == FromBits(p)
  {
  }

  lemma Reassociate(a: seq<bool>, b: seq<bool>, c: seq<bool>)
    ensures a + b + c == a + (b + c)
  {
  }

  lemma StartBits(s: seq<byte>, start: nat)
    requires start <= 8 * |s|
    ensures var shift, k := start % 8, start / 8;
            if shift > 0 then
              FromBits(ToBits(s[k], 8)[..shift]) == Low(s[k], shift) &&
              ByteBits(s[..k]) + ToBits(s[k], 8)[..shift] == ByteBits(s)[..start]
            else
              ByteBits(s[..k]) + [] == ByteBits(s)[..start] && FromBits([]) == 0
  {
    hide ToBits;
    var shift, k := start % 8, start / 8;
    if shift > 0 {
      FromToBits(s[k], 8);
      LowFromBits(ToBits(s[k], 8), shift);
      assert Pow2(8) == 256;
      assert forall b :: 0 <= b < start ==>
        (ByteBits(s[..k]) + ToBits(s[k], 8)[..shift])[b] == ByteBits(s)[b];
    }
  }

  // ----- the reader

  /** The septet at bit `at`. */
  function SeptetAt(s: seq<byte>, at: nat): (c: nat)
    requires at + 7 <= 8 * |s|
    ensures c < 128
  {
    FromBitsBound(ByteBits(s)[at..at + 7]);
    assert Pow2(7) == 128;
    FromBits(ByteBits(s)[at..at + 7])
  }

  function SeptetsAt(s: seq<byte>, at: nat, n: nat): (ss: seq<nat>)
    requires at + 7 * n <= 8 * |s|
  {
    seq(n, i requires 0 <= i < n => SeptetAt(s, at + 7 * i))
  }

  /** The two-byte extraction of utf8_from_gsm7; the second byte is read only
      when the septet reaches into it. */
  method ReadSeptet(src: seq<byte>, i: nat, shift: nat) returns (c: nat)
    requires shift < 8 && 8 * i + shift + 7 <= 8 * |src|
    ensures c == SeptetAt(src, 8 * i + shift)
  {
    hide FromBits;
    hide ToBits;
    hide Low;
    hide Shr;
    hide Shl;
    hide Or;
    hide ByteBits;
    ghost var p := ToBits(src[i], 8);
    FirstPart(src[i], shift);
    c := Low(Shr(src[i], shift), 7);
    if shift > 1 {
      ghost var q := ToBits(src[i + 1], 8);
      SecondPart(src[i + 1], p[shift..]);
      c := Low(Or(Shl(src[i + 1], 8 - shift), c), 7);
      TwoBytes(src, i, shift, shift + 7);
      assert (p + q)[shift..shift + 7] == (p[shift..] + q)[..7];
    } else {
      OneByte(src, i, shift, shift + 7);
      assert p[shift..shift + 7] == p[shift..][..7];
    }
  }

  lemma OneByte(src: seq<byte>, i: nat, a: nat, b: nat)
    requires i < |src| && a <= b <= 8
    ensures ByteBits(src)[8 * i + a..8 * i + b] == ToBits(src[i], 8)[a..b]
  {
    hide ToBits;
    var p := ByteBits(src)[8 * i + a..8 * i + b];
    assert forall k :: 0 <= k < b - a ==> p[k] == ToBits(src[i], 8)[a + k];
  }

  lemma TwoBytes(src: seq<byte>, i: nat, a: nat, b: nat)
    requires i + 1 < |src| && a <= b <= 16
    ensures ByteBits(src)[8 * i + a..8 * i + b] == (ToBits(src[i], 8) + ToBits(src[i + 1], 8))[a..b]
  {
    hide ToBits;
    hide ByteBits;
    var q := src[i..i + 2];
    assert q == [src[i]] + [src[i + 1]];
    ByteBitsAppend([src[i]], [src[i + 1]]);
    ByteBitsOne(src[i]);
    ByteBitsOne(src[i + 1]);
    ByteBitsPrefix(src, i + 2);
    assert src[..i + 2] == src[..i] + q;
    ByteBitsAppend(src[..i], q);
    assert ByteBits(src)[..8 * (i + 2)][8 * i + a..8 * i + b] == ByteBits(src)[8 * i + a..8 * i + b];
    assert (ByteBits(src[..i]) + ByteBits(q))[8 * i + a..8 * i + b] == ByteBits(q)[a..b];
  }

  lemma BytePower()
    ensures Pow2(8) == 256
  {
  }

  lemma FirstPart(b: byte, shift: nat)
    requires shift < 8
    ensures var p := ToBits(b, 8)[shift..];
            Low(Shr(b, shift), 7) == FromBits(if shift == 0 then p[..7] else p)
            && (shift == 1 ==> p[..7] == p)
  {
    hide ToBits, FromBits, Low, Shr, Pow2;
    var p := ToBits(b, 8);
    FromToBits(b, 8);
    BytePower();
    ShrFromBits(p, shift);
    if shift == 0 {
      assert p[0..] == p;
      LowFromBits(p, 7);
    } else {
      FromBitsBound(p[shift..]);
      PowMono(8 - shift, 7);
      FromToBits(FromBits(p[shift..]), 7);
    }
  }

  lemma SecondPart(b: byte, p: seq<bool>)
    requires |p| < 7
    ensures Low(Or(Shl(b, |p|), FromBits(p)), 7) == FromBits((p + ToBits(b, 8))[..7])
  {
    hide ToBits;
    hide FromBits;
    hide Low;
    hide Or;
    FromToBits(b, 8);
    assert Pow2(8) == 256;
    OrAppend(p, ToBits(b, 8));
    OrCommutes(Shl(b, |p|), FromBits(p));
    LowFromBits(p + ToBits(b, 8), 7);
  }

  // ----- round trip

  lemma {:induction false} SeptetBitsAt(ss: seq<nat>, i: nat)
    requires i < |ss|
    ensures SeptetBits(ss)[7 * i..7 * i + 7] == ToBits(ss[i], 7)
    decreases |ss|
  {
    hide ToBits;
    var n := |ss| - 1;
    if i < n {
      SeptetBitsAt(ss[..n], i);
      assert SeptetBits(ss)[7 * i..7 * i + 7] == SeptetBits(ss[..n])[7 * i..7 * i + 7];
    }
  }

  /** Whatever surrounds them, the septets written at bit `|before|` are read back. */
  lemma PackingRoundTrip(s: seq<byte>, before: seq<bool>, ss: seq<nat>, after: seq<bool>)
    requires AllSeptets(ss)
    requires ByteBits(s) == before + SeptetBits(ss) + after
    ensures SeptetsAt(s, |before|, |ss|) == ss
  {
    hide ToBits;
    hide FromBits;
    hide ByteBits;
    hide SeptetBits;
    var at := |before|;
    forall i | 0 <= i < |ss| ensures SeptetAt(s, at + 7 * i) == ss[i] {
      SeptetBitsAt(ss, i);
      Middle(before, SeptetBits(ss), after, 7 * i, 7 * i + 7);
      FromToBits(ss[i], 7);
      SeptetSmall(ss[i]);
    }
  }

  lemma SeptetSmall(v: nat)
    ensures v < 128 ==> v < Pow2(7)
  {
  }

  lemma Middle(a: seq<bool>, m: seq<bool>, b: seq<bool>, i: nat, j: nat)
    requires i <= j <= |m|
    ensures (a + m + b)[|a| + i..|a| + j] == m[i..j]
  {
  }
}
