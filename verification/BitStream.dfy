/** The bit buffer of helper/bit_op.c: fields written and read least significant
    bit first by 16-bit read-modify-write. */
module BitStream {
  import opened Basics
  import opened Bits
  import opened Septets

  function Chunks(len: nat): nat {
    (len + 7) / 8
  }

  /** `c` after a write of the low `len` bits of `src` at `pos`. The bits of `src` past
      `len` are not masked off: they are merged into what is there. */
  function Put(c: seq<bool>, pos: nat, src: seq<bool>, len: nat): (r: seq<bool>)
    requires len <= |src| && pos + |src| <= |c|
    ensures |r| == |c|
  {
    seq(|c|, i requires 0 <= i < |c| =>
      if i < pos || pos + |src| <= i then c[i]
      else if i < pos + len then src[i - pos]
      else c[i] || src[i - pos])
  }

  /** The bytes that a read of `len` bits at `pos` stores. */
  function Taken(c: seq<bool>, pos: nat, len: nat): (r: seq<byte>)
    requires pos + len <= |c|
    ensures |r| == Chunks(len)
  {
    seq(Chunks(len), j requires 0 <= j < Chunks(len) => TakenByte(c, pos, len, j))
  }

  function TakenByte(c: seq<bool>, pos: nat, len: nat, j: nat): byte
    requires pos + len <= |c| && j < Chunks(len)
  {
    var p := c[pos + 8 * j..pos + Min(8 * j + 8, len)];
    FromBitsBound(p);
    PowMono(|p|, 8);
    assert Pow2(8) == 256;
    FromBits(p)
  }

  /** The words that a transfer of `len` bits at `pos` touches lie in a buffer of
      `size` bytes. */
  predicate HasRoom(pos: nat, len: nat, size: nat) {
    len > 0 ==> pos / 8 + (len - 1) / 8 + 2 <= size
  }

  ghost predicate Wrote(c: seq<bool>, after: seq<bool>, pos: nat, bits: seq<byte>, len: nat) {
    && Chunks(len) <= |bits|
    && pos + 8 * Chunks(len) <= |c|
    && after == Put(c, pos, ByteBits(bits[..Chunks(len)]), len)
  }

  // ----- one 16-bit word

  function Ones(n: nat): (p: seq<bool>)
    ensures |p| == n
  {
    seq(n, i => true)
  }

  lemma {:induction false} OnesValue(n: nat)
    ensures FromBits(Ones(n)) == Pow2(n) - 1 == Mask(n)
  {
    if n > 0 {
      OnesValue(n - 1);
      assert Ones(n)[1..] == Ones(n - 1);
    }
  }

  lemma {:induction false} Complement(p: seq<bool>)
    ensures Pow2(|p|) - 1 - FromBits(p) == FromBits(seq(|p|, i requires 0 <= i < |p| => !p[i]))
  {
    if p != [] {
      Complement(p[1..]);
      var r := seq(|p|, i requires 0 <= i < |p| => !p[i]);
      assert r[1..] == seq(|p| - 1, i requires 0 <= i < |p| - 1 => !p[1..][i]);
    }
  }

  lemma {:induction false} AndMask(x: nat, n: nat)
    ensures And(x, Pow2(n) - 1) == Low(x, n)
  {
    if n > 0 {
      AndMask(x / 2, n - 1);
      AndStep(x, Pow2(n) - 1);
    }
  }

  /** `(1 << n) - 1`, and the little-endian value of two bytes. */
  function Mask(n: nat): nat {
    ShlIsMul(1, n);
    Shl(1, n) - 1
  }

  function Word(a: nat, b: nat): nat {
    a + 256 * b
  }

  /** `mask <<= k`. */
  function MaskBits(n: nat, k: nat): (p: seq<bool>)
    requires n <= 8 && k < 8
    ensures |p| == 16
  {
    Zeros(k) + Ones(n) + Zeros(16 - k - n)
  }

  lemma MaskValue(n: nat, k: nat)
    requires n <= 8 && k < 8
    ensures Shl(Mask(n), k) == FromBits(MaskBits(n, k)) < 0x1_0000
  {
    OnesValue(n);
    ShlFromBits(Ones(n), k);
    FromBitsZeros(Zeros(k) + Ones(n), 16 - k - n);
    FromBitsBound(MaskBits(n, k));
    Pow16();
  }

  lemma Pow16()
    ensures Pow2(16) == 0x1_0000
  {
    assert Pow2(8) == 256;
  }

  function DataBits(d: byte, k: nat): (p: seq<bool>)
    requires k < 8
    ensures |p| == 16
  {
    Zeros(k) + ToBits(d, 8) + Zeros(8 - k)
  }

  lemma DataValue(d: byte, k: nat)
    requires k < 8
    ensures Shl(d, k) == FromBits(DataBits(d, k)) < 0x1_0000
  {
    FromToBits(d, 8);
    assert Pow2(8) == 256;
    ShlFromBits(ToBits(d, 8), k);
    FromBitsZeros(Zeros(k) + ToBits(d, 8), 8 - k);
    FromBitsBound(DataBits(d, k));
    Pow16();
  }

  function NotBits(p: seq<bool>): (r: seq<bool>)
    ensures |r| == |p|
  {
    seq(|p|, i requires 0 <= i < |p| => !p[i])
  }

  function AndSeq(p: seq<bool>, q: seq<bool>): (r: seq<bool>)
    requires |p| == |q|
    ensures |r| == |p|
  {
    seq(|p|, i requires 0 <= i < |p| => p[i] && q[i])
  }

  function OrSeq(p: seq<bool>, q: seq<bool>): (r: seq<bool>)
    requires |p| == |q|
    ensures |r| == |p|
  {
    seq(|p|, i requires 0 <= i < |p| => p[i] || q[i])
  }

  lemma WordBits(p: seq<bool>, d: byte, k: nat, n: nat)
    requires |p| == 16 && k < 8 && 1 <= n <= 8
    ensures OrSeq(AndSeq(p, NotBits(MaskBits(n, k))), DataBits(d, k)) == Put(p, k, ToBits(d, 8), n)
  {
    hide ToBits;
  }

  /** What one turn of the write loop leaves in the word. */
  lemma WordPut(p: seq<bool>, d: byte, k: nat, n: nat)
    requires |p| == 16 && k < 8 && 1 <= n <= 8
    ensures var mask := Shl(Mask(n), k);
            mask < 0x1_0000 &&
            Or(And(FromBits(p), 0xFFFF - mask), Shl(d, k)) == FromBits(Put(p, k, ToBits(d, 8), n))
  {
    hide FromBits, ToBits, And, Or, Put, MaskBits, DataBits;
    var m, q := MaskBits(n, k), DataBits(d, k);
    MaskValue(n, k);
    Complement(m);
    Pow16();
    var r := NotBits(m);
    AndBits(p, r);
    OrBits(AndSeq(p, r), q);
    DataValue(d, k);
    WordBits(p, d, k, n);
  }

  lemma SmallValue(p: seq<bool>)
    requires |p| <= 8
    ensures FromBits(p) < 256
  {
    FromBitsBound(p);
    PowMono(|p|, 8);
    assert Pow2(8) == 256;
  }

  lemma WordTake(p: seq<bool>, k: nat, n: nat)
    requires |p| == 16 && k < 8 && 1 <= n <= 8
    ensures And(Shr(FromBits(p), k), Mask(n)) == FromBits(p[k..k + n])
  {
    hide FromBits, And, Shr;
    ShrFromBits(p, k);
    OnesValue(n);
    AndMask(FromBits(p[k..]), n);
    LowFromBits(p[k..], n);
    assert p[k..][..n] == p[k..k + n];
  }

  // ----- the word inside the buffer

  lemma PutInWord(c: seq<bool>, at: nat, k: nat, src: seq<bool>, n: nat)
    requires |src| == 8 && n <= 8 && k < 8 && at + 16 <= |c|
    ensures Put(c, at + k, src, n) == c[..at] + Put(c[at..at + 16], k, src, n) + c[at + 16..]
  {
  }

  lemma PutPut(c: seq<bool>, pos: nat, a: seq<bool>, b: seq<bool>, n: nat)
    requires n <= |b| && pos + |a| + |b| <= |c|
    ensures Put(Put(c, pos, a, |a|), pos + |a|, b, n) == Put(c, pos, a + b, |a| + n)
  {
  }

  lemma PutNothing(c: seq<bool>, pos: nat)
    requires pos <= |c|
    ensures Put(c, pos, [], 0) == c
  {
  }

  lemma BytesAppend(s: seq<byte>, j: nat)
    requires j < |s|
    ensures ByteBits(s[..j + 1]) == ByteBits(s[..j]) + ToBits(s[j], 8)
  {
    assert s[..j + 1] == s[..j] + [s[j]];
    ByteBitsAppend(s[..j], [s[j]]);
    ByteBitsOne(s[j]);
  }

  /** The two bytes of a little-endian word. */
  lemma WordOf(s: seq<byte>, at: nat)
    requires at + 2 <= |s|
    ensures Word(s[at], s[at + 1]) == FromBits(ByteBits(s)[8 * at..8 * at + 16])
  {
    hide FromBits, ByteBits, ToBits;
    var t := [s[at], s[at + 1]];
    Three(s, at, t);
    ByteBitsAppend(s[..at] + t, s[at + 2..]);
    ByteBitsAppend(s[..at], t);
    SliceLeft(ByteBits(s[..at]) + ByteBits(t), ByteBits(s[at + 2..]), 8 * at, 8 * at + 16);
    SliceRight(ByteBits(s[..at]), ByteBits(t));
    PairValue(s[at], s[at + 1]);
  }

  lemma Three(s: seq<byte>, at: nat, t: seq<byte>)
    requires at + 2 <= |s| && t == [s[at], s[at + 1]]
    ensures s == s[..at] + t + s[at + 2..]
  {
  }

  lemma PairValue(a: byte, b: byte)
    ensures FromBits(ByteBits([a, b])) == Word(a, b)
  {
    hide FromBits, ByteBits, ToBits;
    assert [a, b] == [a] + [b];
    ByteBitsAppend([a], [b]);
    ByteBitsOne(a);
    ByteBitsOne(b);
    FromBitsAppend(ToBits(a, 8), ToBits(b, 8));
    FromToBits(a, 8);
    FromToBits(b, 8);
    ShlIsMul(b, 8);
    assert Pow2(8) == 256;
    assert FromBits(ToBits(a, 8)) == a && FromBits(ToBits(b, 8)) == b;
  }

  /** Storing the low and the high byte of `v` replaces sixteen bits. */
  lemma StoredWord(s: seq<byte>, r: seq<byte>, at: nat, w: seq<bool>)
    requires at + 2 <= |s| == |r| && |w| == 16 && FromBits(w) == Word(r[at], r[at + 1])
    requires forall i :: 0 <= i < |s| && i != at && i != at + 1 ==> r[i] == s[i]
    ensures ByteBits(r) == ByteBits(s)[..8 * at] + w + ByteBits(s)[8 * at + 16..]
  {
    hide FromBits, ByteBits, ToBits;
    var t := [r[at], r[at + 1]];
    Three(r, at, t);
    ByteBitsAppend(r[..at] + t, r[at + 2..]);
    ByteBitsAppend(r[..at], t);
    PairValue(r[at], r[at + 1]);
    ToFromBits(w);
    ToFromBits(ByteBits(t));
    assert ByteBits(t) == w;
    assert r[..at] == s[..at] && r[at + 2..] == s[at + 2..];
    ByteBitsPrefix(s, at);
    ByteBitsSuffix(s, at + 2);
  }

  lemma ByteBitsSuffix(s: seq<byte>, k: nat)
    requires k <= |s|
    ensures ByteBits(s[k..]) == ByteBits(s)[8 * k..]
  {
    hide ByteBits;
    assert s == s[..k] + s[k..];
    ByteBitsAppend(s[..k], s[k..]);
    SliceRight(ByteBits(s[..k]), ByteBits(s[k..]));
  }

  lemma NothingWritten(c: seq<bool>, pos: nat, bits: seq<byte>)
    requires pos <= |c|
    ensures Wrote(c, c, pos, bits, 0)
  {
    assert bits[..0] == [];
    ByteBitsNone();
    PutNothing(c, pos);
  }

  /** The indices of one turn, `done` bits into a transfer of `len` bits at `pos`. */
  lemma Turn(pos: nat, done: nat, len: nat, size: nat)
    requires HasRoom(pos, len, size) && done % 8 == 0 && done < len
    ensures var p := pos + done;
            p / 8 + 2 <= size && p % 8 < 8 && p == 8 * (p / 8) + p % 8 &&
            done == 8 * (done / 8) && done / 8 < Chunks(len) &&
            8 * (p / 8) + 16 <= 8 * size
  {
  }

  function TurnWord(c: seq<bool>, at: nat, k: nat, d: byte, n: nat): (w: seq<bool>)
    requires 8 * at + 16 <= |c| && k < 8 && 1 <= n <= 8
    ensures |w| == 16
    ensures var mask := Shl(Mask(n), k);
            mask < 0x1_0000 &&
            Or(And(FromBits(c[8 * at..8 * at + 16]), 0xFFFF - mask), Shl(d, k)) == FromBits(w) < 0x1_0000
  {
    var p := c[8 * at..8 * at + 16];
    WordPut(p, d, k, n);
    var w := Put(p, k, ToBits(d, 8), n);
    FromBitsBound(w);
    Pow16();
    w
  }

  /** A turn of the write loop appends one byte of the field. */
  lemma OneTurn(c: seq<bool>, c1: seq<bool>, c2: seq<bool>, pos: nat, bits: seq<byte>, j: nat, at: nat, k: nat, n: nat)
    requires Wrote(c, c1, pos, bits, 8 * j) && j < |bits| && pos + 8 * j == 8 * at + k && k < 8 && 1 <= n <= 8
    requires 8 * at + 16 <= |c|
    requires c2 == c1[..8 * at] + TurnWord(c1, at, k, bits[j], n) + c1[8 * at + 16..]
    ensures Wrote(c, c2, pos, bits, 8 * j + n)
  {
    hide FromBits, ByteBits, ToBits, Put, And, Or, Shl, MaskBits, DataBits;
    PutInWord(c1, 8 * at, k, ToBits(bits[j], 8), n);
    BytesAppend(bits, j);
    PutPut(c, pos, ByteBits(bits[..j]), ToBits(bits[j], 8), n);
  }

  lemma SubSlice(c: seq<bool>, at: nat, m: nat, k: nat, n: nat)
    requires at + m <= |c| && k + n <= m
    ensures c[at..at + m][k..k + n] == c[at + k..at + k + n]
  {
    var d, e := c[at..at + m], c[at + k..at + k + n];
    var f := d[k..k + n];
    forall i | 0 <= i < n ensures e[i] == f[i] {
      assert d[k + i] == c[at + (k + i)];
    }
  }

  // ----- the stream as an object

  class Stream {
    var buffer: array<byte>
    var dataPos: nat
    var readPos: nat

    ghost function Content(): (c: seq<bool>)
      reads this, buffer
      ensures |c| == 8 * buffer.Length
    {
      ByteBits(buffer[..])
    }

    /** set_data_buffer, with both positions at the start. */
    constructor (b: array<byte>)
      ensures buffer == b && dataPos == 0 && readPos == 0
    {
      buffer, dataPos, readPos := b, 0, 0;
    }

    /** set_data_pos and set_read_pos. */
    method SetDataPos(pos: nat)
      modifies this`dataPos
      ensures dataPos == pos
    {
      dataPos := pos;
    }

    method SetReadPos(pos: nat)
      modifies this`readPos
      ensures readPos == pos
    {
      readPos := pos;
    }

    function Load(at: nat): (v: nat)
      requires at + 2 <= buffer.Length
      reads this, buffer
      ensures v == FromBits(Content()[8 * at..8 * at + 16]) < 0x1_0000
    {
      WordOf(buffer[..], at);
      Word(buffer[at], buffer[at + 1])
    }

    method Store(at: nat, v: nat, ghost w: seq<bool>)
      requires at + 2 <= buffer.Length && v < 0x1_0000
      requires |w| == 16 && v == FromBits(w)
      modifies buffer
      ensures Content() == old(Content())[..8 * at] + w + old(Content())[8 * at + 16..]
    {
      hide FromBits, ByteBits;
      ghost var s: seq<byte> := buffer[..];
      var low: byte, high: byte := v % 256, v / 256;
      buffer[at] := low;
      buffer[at + 1] := high;
      StoredWord(s, buffer[..], at, w);
      assert old(Content()) == ByteBits(s);
      assert Content() == ByteBits(buffer[..]);
    }

    /** The read-modify-write of one turn. */
    method Merge(at: nat, k: nat, d: byte, n: nat)
      requires at + 2 <= buffer.Length && k < 8 && 1 <= n <= 8
      modifies buffer
      ensures |old(Content())| >= 8 * at + 16
      ensures Content() == old(Content())[..8 * at] + TurnWord(old(Content()), at, k, d, n) + old(Content())[8 * at + 16..]
    {
      hide FromBits, ByteBits, ToBits, And, Or, Shl, TurnWord, Mask;
      ghost var w := TurnWord(Content(), at, k, d, n);
      var mask := Shl(Mask(n), k);
      var p := Load(at);
      Store(at, Or(And(p, 0xFFFF - mask), Shl(d, k)), w);
    }

    /** One turn of the loop of write_bits. */
    method WriteByte(bits: seq<byte>, len: nat, remain: nat, ghost c: seq<bool>, ghost pos: nat) returns (rest: nat)
      requires Chunks(len) <= |bits| && HasRoom(pos, len, buffer.Length) && |c| == 8 * buffer.Length
      requires 0 < remain <= len && dataPos == pos + (len - remain) && (len - remain) % 8 == 0
      requires Wrote(c, Content(), pos, bits, len - remain)
      modifies this`dataPos, buffer
      ensures rest < remain && dataPos == pos + (len - rest) && (rest > 0 ==> (len - rest) % 8 == 0)
      ensures Wrote(c, Content(), pos, bits, len - rest)
    {
      hide FromBits, ByteBits, ToBits, Wrote, HasRoom, Chunks, TurnWord;
      ghost var c1 := Content();
      Turn(pos, len - remain, len, buffer.Length);
      var at, k, j := dataPos / 8, dataPos % 8, (len - remain) / 8;
      var n: nat := if remain < 8 then remain else 8;
      Merge(at, k, bits[j], n);
      OneTurn(c, c1, Content(), pos, bits, j, at, k, n);
      dataPos := dataPos + n;
      rest := remain - n;
    }

    method WriteBits(bits: seq<byte>, len: nat)
      requires Chunks(len) <= |bits|
      requires HasRoom(dataPos, len, buffer.Length) && dataPos <= 8 * buffer.Length
      modifies this`dataPos, buffer
      ensures dataPos == old(dataPos) + len
      ensures Wrote(old(Content()), Content(), old(dataPos), bits, len)
    {
      hide ByteBits, Wrote, HasRoom, Chunks;
      ghost var c, pos := Content(), dataPos;
      var remain: nat := len;
      NothingWritten(c, pos, bits);
      while remain > 0
        invariant remain <= len && dataPos == pos + (len - remain)
        invariant remain > 0 ==> (len - remain) % 8 == 0
        invariant Wrote(c, Content(), pos, bits, len - remain)
      {
        remain := WriteByte(bits, len, remain, c, pos);
      }
    }

    /** `(*p >> k) & mask`. */
    function Extract(at: nat, k: nat, n: nat): (d: byte)
      requires at + 2 <= buffer.Length && k < 8 && 1 <= n <= 8
      reads this, buffer
      ensures d == FromBits(Content()[8 * at..8 * at + 16][k..k + n])
    {
      hide FromBits, ByteBits, And, Shr;
      var p := Content()[8 * at..8 * at + 16];
      WordTake(p, k, n);
      SmallValue(p[k..k + n]);
      And(Shr(Load(at), k), Mask(n))
    }

    /** One turn of the loop of read_bits. */
    method ReadByte(bits: array<byte>, len: nat, remain: nat, ghost pos: nat) returns (rest: nat)
      requires Chunks(len) <= bits.Length && bits != buffer && HasRoom(pos, len, buffer.Length)
      requires 0 < remain <= len && readPos == pos + (len - remain) && (len - remain) % 8 == 0
      requires Filled(Content(), pos, len, bits[..], Chunks(len - remain))
      modifies this`readPos, bits
      ensures Content() == old(Content())
      ensures rest < remain && readPos == pos + (len - rest) && (rest > 0 ==> (len - rest) % 8 == 0)
      ensures Filled(Content(), pos, len, bits[..], Chunks(len - rest))
      ensures forall i :: Chunks(len) <= i < bits.Length ==> bits[i] == old(bits[i])
    {
      hide FromBits, ByteBits, TakenByte, HasRoom, Chunks, Load, Extract, Filled;
      Turn(pos, len - remain, len, buffer.Length);
      RoomBound(pos, len, buffer.Length);
      var at, k, j := readPos / 8, readPos % 8, (len - remain) / 8;
      var n: nat := if remain < 8 then remain else 8;
      TakenHere(Content(), pos, len, j, at, k, n);
      ghost var b: seq<byte> := bits[..];
      bits[j] := Extract(at, k, n);
      FilledNext(Content(), pos, len, b, bits[..], j, n);
      readPos := readPos + n;
      rest := remain - n;
    }

    /** Reading is refused past the data position, and nothing is then touched. */
    method ReadBits(bits: array<byte>, len: nat) returns (r: int)
      requires Chunks(len) <= bits.Length && bits != buffer
      requires readPos + len <= dataPos ==> HasRoom(readPos, len, buffer.Length)
      modifies this`readPos, bits
      ensures Content() == old(Content())
      ensures (r == 0) == (old(readPos) + len <= dataPos) && (r == 0 || r == -1)
      ensures r == -1 ==> readPos == old(readPos) && bits[..] == old(bits[..])
      ensures r == 0 ==> readPos == old(readPos) + len <= dataPos
      ensures r == 0 && len > 0 ==> readPos <= |Content()| && bits[..Chunks(len)] == Taken(Content(), old(readPos), len)
      ensures forall i :: Chunks(len) <= i < bits.Length ==> bits[i] == old(bits[i])
    {
      hide FromBits, ByteBits, TakenByte, HasRoom, Chunks, Load, Extract, Filled, Taken;
      var remain: nat := len;
      if readPos + remain > dataPos {
        return -1;
      }
      ghost var c, pos := Content(), readPos;
      RoomBound(pos, len, buffer.Length);
      NothingFilled(c, pos, len, bits[..]);
      while remain > 0
        invariant remain <= len && readPos == pos + (len - remain)
        invariant remain > 0 ==> (len - remain) % 8 == 0
        invariant Content() == c
        invariant Filled(c, pos, len, bits[..], Chunks(len - remain))
        invariant forall i :: Chunks(len) <= i < bits.Length ==> bits[i] == old(bits[i])
      {
        remain := ReadByte(bits, len, remain, pos);
      }
      AllFilled(c, pos, len, bits[..]);
      return 0;
    }
  }

  /** The first `m` bytes of a read are stored. */
  ghost predicate Filled(c: seq<bool>, pos: nat, len: nat, b: seq<byte>, m: nat) {
    len > 0 ==>
      pos + len <= |c| && m <= Chunks(len) <= |b| && forall i :: 0 <= i < m ==> b[i] == TakenByte(c, pos, len, i)
  }

  lemma NothingFilled(c: seq<bool>, pos: nat, len: nat, b: seq<byte>)
    requires len > 0 ==> pos + len <= |c|
    requires Chunks(len) <= |b|
    ensures Filled(c, pos, len, b, Chunks(0))
  {
  }

  lemma FilledNext(c: seq<bool>, pos: nat, len: nat, b: seq<byte>, b': seq<byte>, j: nat, n: nat)
    requires Filled(c, pos, len, b, Chunks(8 * j)) && 8 * j < len && 1 <= n <= 8 && pos + len <= |c|
    requires |b| == |b'| && j < Chunks(len) <= |b| && b'[j] == TakenByte(c, pos, len, j)
    requires forall i :: 0 <= i < |b| && i != j ==> b'[i] == b[i]
    ensures Filled(c, pos, len, b', Chunks(8 * j + n))
  {
    hide TakenByte;
  }

  lemma AllFilled(c: seq<bool>, pos: nat, len: nat, b: seq<byte>)
    requires Filled(c, pos, len, b, Chunks(len)) && Chunks(len) <= |b|
    ensures len > 0 ==> pos + len <= |c| && b[..Chunks(len)] == Taken(c, pos, len)
    ensures Chunks(0) == 0
  {
    hide TakenByte;
  }

  lemma RoomBound(pos: nat, len: nat, size: nat)
    requires HasRoom(pos, len, size)
    ensures len > 0 ==> pos + len <= 8 * size
    ensures Chunks(0) == 0
  {
  }

  lemma TakenHere(c: seq<bool>, pos: nat, len: nat, j: nat, at: nat, k: nat, n: nat)
    requires pos + len <= |c| && j < Chunks(len) && pos + 8 * j == 8 * at + k && 8 * at + 16 <= |c| && k < 8
    requires 8 * j < len && n == Min(8, len - 8 * j)
    ensures TakenByte(c, pos, len, j) == FromBits(c[8 * at..8 * at + 16][k..k + n])
  {
    hide FromBits;
    SubSlice(c, 8 * at, 16, k, n);
    assert Min(8 * j + 8, len) == 8 * j + n;
  }

  lemma ByteBitsNone()
    ensures ByteBits([]) == []
  {
  }

  // ----- a sequence of fields

  datatype Field = Field(bits: seq<byte>, len: nat)

  predicate Sized(f: Field) {
    |f.bits| == Chunks(f.len)
  }

  ghost predicate AllSized(fs: seq<Field>) {
    forall k :: 0 <= k < |fs| ==> Sized(fs[k])
  }

  /** The last partial byte has no bit past the field. */
  predicate Tight(f: Field)
    requires Sized(f)
  {
    f.len % 8 != 0 ==> f.bits[f.len / 8] < Pow2(f.len % 8)
  }

  /** Where field `k` starts, from the first. */
  function At(fs: seq<Field>, k: nat): nat
    requires k <= |fs|
  {
    if k == 0 then 0 else fs[0].len + At(fs[1..], k - 1)
  }

  /** The buffer after writing the fields one after the other. */
  function Written(c: seq<bool>, pos: nat, fs: seq<Field>): (r: seq<bool>)
    requires AllSized(fs) && pos + At(fs, |fs|) + 7 <= |c|
    ensures |r| == |c|
    decreases |fs|
  {
    if fs == [] then c
    else Written(Put(c, pos, ByteBits(fs[0].bits), fs[0].len), pos + fs[0].len, fs[1..])
  }

  lemma {:induction false} WrittenBelow(c: seq<bool>, pos: nat, fs: seq<Field>)
    requires AllSized(fs) && pos + At(fs, |fs|) + 7 <= |c|
    ensures Written(c, pos, fs)[..pos] == c[..pos]
    decreases |fs|
  {
    hide ByteBits;
    if fs != [] {
      var c1, pos1 := Put(c, pos, ByteBits(fs[0].bits), fs[0].len), pos + fs[0].len;
      WrittenBelow(c1, pos1, fs[1..]);
      var w := Written(c, pos, fs);
      assert forall i :: 0 <= i < pos ==> w[i] == w[..pos1][i] == c1[..pos1][i] == c[i];
    }
  }

  lemma {:induction false} AtGrows(fs: seq<Field>, k: nat)
    requires k < |fs|
    ensures At(fs, k) + fs[k].len <= At(fs, |fs|)
  {
    if k > 0 { AtGrows(fs[1..], k - 1); }
  }

  ghost predicate Holds(c: seq<bool>, at: nat, f: Field)
    requires Sized(f)
  {
    at + f.len <= |c| && c[at..at + f.len] == ByteBits(f.bits)[..f.len]
  }

  /** Later writes leave earlier fields alone, and each write clears what stray bits
      of the one before it left in its place. */
  lemma {:induction false} WrittenField(c: seq<bool>, pos: nat, fs: seq<Field>, k: nat)
    requires AllSized(fs) && pos + At(fs, |fs|) + 7 <= |c| && k < |fs|
    ensures Holds(Written(c, pos, fs), pos + At(fs, k), fs[k])
    decreases k
  {
    hide ByteBits;
    var f := fs[0];
    var src := ByteBits(f.bits);
    var c1, pos1 := Put(c, pos, src, f.len), pos + f.len;
    if k > 0 {
      WrittenField(c1, pos1, fs[1..], k - 1);
    } else {
      WrittenBelow(c1, pos1, fs[1..]);
      var w := Written(c, pos, fs);
      assert w[..pos1] == c1[..pos1];
      assert forall i :: 0 <= i < f.len ==> w[..pos1][pos + i] == src[i];
      var x := w[pos..pos1];
      assert forall i :: 0 <= i < f.len ==> x[i] == src[i];
    }
  }

  lemma TakenIsLocal(c: seq<bool>, at: nat, d: seq<bool>, len: nat)
    requires at + len <= |c| && len <= |d| && c[at..at + len] == d[..len]
    ensures Taken(c, at, len) == Taken(d, 0, len)
  {
    forall j | 0 <= j < Chunks(len) ensures TakenByte(c, at, len, j) == TakenByte(d, 0, len, j) {
      var a, b := 8 * j, Min(8 * j + 8, len);
      SubSlice(c, at, len, a, b - a);
      SubSlice(d, 0, len, a, b - a);
      assert d[0..len] == d[..len];
    }
  }

  /** First in, first out: reading with the widths of the writes gives each field's
      bits back, whatever the buffer held and whatever stray bits the fields carry. */
  lemma Fifo(c: seq<bool>, pos: nat, fs: seq<Field>, k: nat)
    requires AllSized(fs) && pos + At(fs, |fs|) + 7 <= |c| && k < |fs|
    ensures pos + At(fs, k) + fs[k].len <= |c|
    ensures Taken(Written(c, pos, fs), pos + At(fs, k), fs[k].len) == Taken(ByteBits(fs[k].bits), 0, fs[k].len)
  {
    hide ByteBits, Taken, Written;
    AtGrows(fs, k);
    WrittenField(c, pos, fs, k);
    TakenIsLocal(Written(c, pos, fs), pos + At(fs, k), ByteBits(fs[k].bits), fs[k].len);
  }

  lemma TakenByteOf(f: Field, j: nat)
    requires Sized(f) && j < |f.bits|
    ensures TakenByte(ByteBits(f.bits), 0, f.len, j) == Low(f.bits[j], Min(8, f.len - 8 * j))
  {
    hide ToBits, FromBits, Low;
    var v := f.bits[j];
    var n := Min(8, f.len - 8 * j);
    var q := ToBits(v, 8);
    var b := ByteBits(f.bits);
    FromToBits(v, 8);
    assert Pow2(8) == 256;
    LowFromBits(q, n);
    var p := b[8 * j..8 * j + n];
    assert forall i :: 0 <= i < n ==> p[i] == b[8 * j + i] == q[i];
    assert p == q[..n];
    assert 0 + 8 * j == 8 * j && 0 + Min(8 * j + 8, f.len) == 8 * j + n;
  }

  lemma LowKeepsIff(v: byte, n: nat)
    requires n <= 8
    ensures Low(v, n) == v <==> v < Pow2(n)
  {
    LowIsMod(v, n);
  }

  /** The bytes come back exactly when the last partial byte has no stray bit. */
  lemma TakenIff(f: Field)
    requires Sized(f)
    ensures Taken(ByteBits(f.bits), 0, f.len) == f.bits <==> Tight(f)
  {
    hide ToBits, FromBits, Low, ByteBits, TakenByte;
    var t := Taken(ByteBits(f.bits), 0, f.len);
    assert Pow2(8) == 256;
    forall j | 0 <= j < |f.bits| ensures t[j] == f.bits[j] <==> (f.len - 8 * j < 8 ==> f.bits[j] < Pow2(f.len - 8 * j)) {
      TakenByteOf(f, j);
      LowKeepsIff(f.bits[j], Min(8, f.len - 8 * j));
    }
    if f.len % 8 != 0 {
      var j := f.len / 8;
      assert f.len - 8 * j == f.len % 8;
    }
  }

  ghost predicate SameOutside(c: seq<bool>, d: seq<bool>, pos: nat, len: nat)
    requires |c| == |d|
  {
    forall i :: 0 <= i < |c| && !(pos <= i < pos + len) ==> c[i] == d[i]
  }

  ghost predicate KeepsOutside(pos: nat, f: Field)
    requires Sized(f)
  {
    forall c: seq<bool> :: pos + 8 * |f.bits| <= |c| ==> SameOutside(c, Put(c, pos, ByteBits(f.bits), f.len), pos, f.len)
  }

  lemma {:induction false} SmallHasNoHighBits(v: nat, m: nat, n: nat)
    requires m <= n
    ensures v < Pow2(m) ==> forall i :: m <= i < n ==> !ToBits(v, n)[i]
    ensures v < Pow2(n) && v >= Pow2(m) ==> exists i :: m <= i < n && ToBits(v, n)[i]
  {
    if m > 0 {
      SmallHasNoHighBits(v / 2, m - 1, n - 1);
      if v < Pow2(n) && v >= Pow2(m) {
        var i :| m - 1 <= i < n - 1 && ToBits(v / 2, n - 1)[i];
        assert ToBits(v, n)[i + 1];
      }
    } else {
      if v == 0 { ZeroBits(n); }
      else if v < Pow2(n) {
        assert n > 0;
        if v % 2 == 1 { assert ToBits(v, n)[0]; }
        else {
          SmallHasNoHighBits(v / 2, 0, n - 1);
          var i :| 0 <= i < n - 1 && ToBits(v / 2, n - 1)[i];
          assert ToBits(v, n)[i + 1];
        }
      }
    }
  }

  lemma StrayFree(f: Field)
    requires Sized(f) && Tight(f)
    ensures forall x :: f.len <= x < |ByteBits(f.bits)| ==> !ByteBits(f.bits)[x]
  {
    hide ToBits;
    if f.len % 8 != 0 {
      var j := f.len / 8;
      assert Pow2(8) == 256;
      SmallHasNoHighBits(f.bits[j], f.len % 8, 8);
      forall x | f.len <= x < |ByteBits(f.bits)| ensures !ByteBits(f.bits)[x] {
        assert !ToBits(f.bits[j], 8)[x - 8 * j];
      }
    }
  }

  lemma Stray(f: Field) returns (x: nat)
    requires Sized(f) && !Tight(f)
    ensures f.len <= x < |ByteBits(f.bits)| && ByteBits(f.bits)[x]
  {
    hide ToBits;
    var j := f.len / 8;
    assert Pow2(8) == 256;
    SmallHasNoHighBits(f.bits[j], f.len % 8, 8);
    var i :| f.len % 8 <= i < 8 && ToBits(f.bits[j], 8)[i];
    x := 8 * j + i;
  }

  /** A write changes nothing outside its field, on every buffer, exactly when the
      last partial byte has no stray bit. */
  lemma FrameIff(pos: nat, f: Field)
    requires Sized(f)
    ensures KeepsOutside(pos, f) <==> Tight(f)
  {
    hide ByteBits, Tight;
    var src := ByteBits(f.bits);
    if Tight(f) {
      StrayFree(f);
    } else {
      var x := Stray(f);
      var c := Zeros(pos + |src|);
      var d := Put(c, pos, src, f.len);
      assert d[pos + x] && !c[pos + x];
      assert !SameOutside(c, d, pos, f.len);
    }
  }

  /** One bit of a byte of ones: the other seven spill over. */
  lemma StrayBitsSpill(pos: nat)
    ensures var f := Field([0xFF], 1); Sized(f) && !KeepsOutside(pos, f)
  {
    hide KeepsOutside;
    FrameIff(pos, Field([0xFF], 1));
    assert Pow2(1) == 2;
  }
}
