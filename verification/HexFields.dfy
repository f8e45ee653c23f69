/** Bit fields over a buffer of upper-case hexadecimal digits, most significant
    bit first: the primitives of the CDMA SMS codec (helper/sms.c). */
module HexFields {
  import opened Bits

  const HEX_TABLE := "0123456789ABCDEF"

  predicate IsHexDigit(c: char) {
    '0' <= c <= '9' || 'A' <= c <= 'F'
  }

  predicate AllHex(s: seq<char>) {
    forall i :: 0 <= i < |s| ==> IsHexDigit(s[i])
  }

  function HexVal(c: char): int {
    if c > '9' then c as int - 'A' as int + 10 else c as int - '0' as int
  }

  function DigitBits(c: char): (p: seq<bool>)
    requires IsHexDigit(c)
    ensures |p| == 4
  {
    Msb(HexVal(c), 4)
  }

  /** What a buffer of hex digits means: its bits, in order. */
  function HexBits(s: seq<char>): (p: seq<bool>)
    requires AllHex(s)
    ensures |p| == 4 * |s|
  {
    seq(4 * |s|, b requires 0 <= b < 4 * |s| => DigitBits(s[b / 4])[b % 4])
  }

  /** The digits that spell the bits `p`. */
  function HexOf(p: seq<bool>): seq<char> {
    if |p| < 4 then [] else [NibbleDigit(p[..4])] + HexOf(p[4..])
  }

  function NibbleDigit(p: seq<bool>): char
    requires |p| == 4
  {
    MsbBound(p);
    assert Pow2(4) == 16;
    HEX_TABLE[MsbVal(p)]
  }

  lemma NibbleRoundTrip(p: seq<bool>)
    requires |p| == 4
    ensures IsHexDigit(NibbleDigit(p)) && DigitBits(NibbleDigit(p)) == p
  {
    MsbInverse(p);
    MsbBound(p);
    assert Pow2(4) == 16;
    assert HexVal(HEX_TABLE[MsbVal(p)]) == MsbVal(p);
  }

  lemma DigitRoundTrip(c: char)
    requires IsHexDigit(c)
    ensures NibbleDigit(DigitBits(c)) == c
  {
    var v := HexVal(c);
    MsbRoundTrip(v, 4);
    assert Low(v, 4) == v by { FromToBits(v, 4); assert Pow2(4) == 16; }
    assert HEX_TABLE[v] == c;
  }

  lemma HexBitsHead(s: seq<char>)
    requires AllHex(s) && s != []
    ensures HexBits(s) == DigitBits(s[0]) + HexBits(s[1..])
  {
    hide DigitBits;
  }

  lemma {:induction false} HexOfRoundTrip(p: seq<bool>, m: nat)
    requires |p| == 4 * m
    ensures AllHex(HexOf(p)) && |HexOf(p)| == m && HexBits(HexOf(p)) == p
  {
    hide NibbleDigit;
    hide DigitBits;
    hide HexBits;
    if m > 0 {
      NibbleRoundTrip(p[..4]);
      HexOfRoundTrip(p[4..], m - 1);
      var s := HexOf(p);
      assert s == [NibbleDigit(p[..4])] + HexOf(p[4..]) && s[1..] == HexOf(p[4..]);
      HexBitsHead(s);
      assert p == p[..4] + p[4..];
    }
  }

  lemma {:induction false} HexBitsRoundTrip(s: seq<char>)
    requires AllHex(s)
    ensures HexOf(HexBits(s)) == s
  {
    hide NibbleDigit;
    hide DigitBits;
    hide HexBits;
    if s != [] {
      DigitRoundTrip(s[0]);
      HexBitsRoundTrip(s[1..]);
      HexBitsHead(s);
      assert s == [s[0]] + s[1..];
    }
  }

  lemma HexBitsAppend(s: seq<char>, t: seq<char>)
    requires AllHex(s) && AllHex(t)
    ensures AllHex(s + t) && HexBits(s + t) == HexBits(s) + HexBits(t)
  {
    hide DigitBits;
  }

  lemma {:induction false} HexOfAppend(p: seq<bool>, q: seq<bool>, m: nat)
    requires |p| == 4 * m
    ensures HexOf(p + q) == HexOf(p) + HexOf(q)
  {
    hide NibbleDigit;
    if m == 0 {
      assert p + q == q;
    } else {
      HexOfAppend(p[4..], q, m - 1);
      assert (p + q)[..4] == p[..4] && (p + q)[4..] == p[4..] + q;
    }
  }

  lemma HexBitsSlice(s: seq<char>, i: nat, j: nat)
    requires AllHex(s) && i <= j <= |s|
    ensures HexBits(s[i..j]) == HexBits(s)[4 * i..4 * j]
  {
  }

  // ----- reading

  function GetBit(s: seq<char>, b: nat): nat
    requires b < 4 * |s| && IsHexDigit(s[b / 4])
  {
    var data: nat := HexVal(s[b / 4]);
    if And(data, Shl(1, 3 - b % 4)) != 0 then 1 else 0
  }

  lemma {:induction false} AndSingle(v: nat, n: nat, k: nat)
    requires k < n
    ensures (And(v, Shl(1, k)) != 0) == Msb(v, n)[n - 1 - k]
    decreases n
  {
    AndStep(v, Shl(1, k));
    if k > 0 {
      AndSingle(v / 2, n - 1, k - 1);
    }
  }

  lemma GetBitMeaning(s: seq<char>, b: nat)
    requires AllHex(s) && b < 4 * |s|
    ensures GetBit(s, b) == BitVal(HexBits(s)[b])
  {
    AndSingle(HexVal(s[b / 4]), 4, 3 - b % 4);
  }

  /** The value of the `nbits`-bit field at `start`. */
  function Field(s: seq<char>, start: nat, nbits: nat): nat
    requires AllHex(s) && start + nbits <= 4 * |s|
  {
    MsbVal(HexBits(s)[start..start + nbits])
  }

  lemma {:induction false} OrLowBit(v: nat, b: nat, k: nat)
    requires b < 2
    ensures Or(Shl(v, k + 1), Shl(b, k)) == Shl(2 * v + b, k)
  {
    OrStep(Shl(v, k + 1), Shl(b, k));
    if k == 0 {
      OrZero(v);
    } else {
      OrLowBit(v, b, k - 1);
    }
  }

  lemma MsbValNext(p: seq<bool>, i: nat)
    requires i < |p|
    ensures MsbVal(p[..i + 1]) == 2 * MsbVal(p[..i]) + BitVal(p[i])
  {
    assert p[..i + 1][..i] == p[..i];
  }

  lemma ReadStep(s: seq<char>, start: nat, nbits: nat, i: nat)
    requires AllHex(s) && start + nbits <= 4 * |s| && i < nbits
    ensures var p, k := HexBits(s)[start..start + nbits], nbits - i - 1;
            Or(Shl(MsbVal(p[..i]), k + 1), Shl(GetBit(s, start + i), k)) == Shl(MsbVal(p[..i + 1]), k)
  {
    hide Or, Shl, GetBit, HexBits, MsbVal, AllHex;
    var p, k := HexBits(s)[start..start + nbits], nbits - i - 1;
    GetBitMeaning(s, start + i);
    assert p[i] == HexBits(s)[start + i];
    OrLowBit(MsbVal(p[..i]), BitVal(p[i]), k);
    MsbValNext(p, i);
  }

  method GetBits(s: seq<char>, start: nat, nbits: nat) returns (val: nat)
    requires AllHex(s) && start + nbits <= 4 * |s|
    ensures val == Field(s, start, nbits)
  {
    val := 0;
    var i := 0;
    ghost var p := HexBits(s)[start..start + nbits];
    ShlOfZero(nbits);
    assert MsbVal(p[..0]) == 0;
    hide Or;
    hide Shl;
    hide GetBit;
    hide MsbVal;
    while i < nbits
      invariant i <= nbits
      invariant val == Shl(MsbVal(p[..i]), nbits - i)
    {
      ReadStep(s, start, nbits, i);
      val := Or(val, Shl(GetBit(s, start + i), nbits - i - 1));
      i := i + 1;
    }
    assert p[..nbits] == p;
    ShlByZero(MsbVal(p));
  }

  lemma ShlByZero(v: nat)
    ensures Shl(v, 0) == v
  {
  }

  lemma {:induction false} ShlOfZero(k: nat)
    ensures Shl(0, k) == 0
  {
    if k > 0 { ShlOfZero(k - 1); }
  }

  // ----- writing: bits are only ever ORed in

  function OrField(p: seq<bool>, at: nat, f: seq<bool>): (q: seq<bool>)
    ensures |q| == |p|
  {
    seq(|p|, i requires 0 <= i < |p| => p[i] || (at <= i < at + |f| && f[i - at]))
  }

  lemma {:induction false} MsbOr(x: nat, y: nat, n: nat, i: nat)
    requires i < n
    ensures Msb(Or(x, y), n)[i] == (Msb(x, n)[i] || Msb(y, n)[i])
  {
    hide Or;
    OrStep(x, y);
    var r := Or(x, y);
    assert r / 2 == Or(x / 2, y / 2);
    assert (r % 2 == 1) == (x % 2 == 1 || y % 2 == 1);
    if i < n - 1 { MsbOr(x / 2, y / 2, n - 1, i); }
  }

  lemma {:induction false} MsbSingle(b: nat, k: nat, n: nat, i: nat)
    requires b < 2 && k < n && i < n
    ensures Msb(Shl(b, k), n)[i] == (i == n - 1 - k && b == 1)
    decreases n
  {
    if k == 0 {
      if i < n - 1 { MsbOfZero(n - 1, i); }
    } else if i < n - 1 {
      MsbSingle(b, k - 1, n - 1, i);
    }
  }

  lemma {:induction false} MsbOfZero(n: nat, i: nat)
    requires i < n
    ensures !Msb(0, n)[i]
  {
    if i < n - 1 { MsbOfZero(n - 1, i); }
  }

  lemma {:induction false} OrBound(x: nat, y: nat, n: nat)
    requires x < Pow2(n) && y < Pow2(n)
    ensures Or(x, y) < Pow2(n)
  {
    if n > 0 {
      OrStep(x, y);
      OrBound(x / 2, y / 2, n - 1);
    }
  }

  lemma SetBitDigit(v: nat, bit: nat, val: nat)
    requires v < 16 && bit < 4 && val < 2
    ensures Or(v, Shl(val, 3 - bit)) < 16
    ensures Msb(Or(v, Shl(val, 3 - bit)), 4) == OrField(Msb(v, 4), bit, [val == 1])
  {
    assert Pow2(4) == 16;
    OrBound(v, Shl(val, 3 - bit), 4);
    var r := Msb(Or(v, Shl(val, 3 - bit)), 4);
    forall i | 0 <= i < 4 ensures r[i] == OrField(Msb(v, 4), bit, [val == 1])[i] {
      MsbOr(v, Shl(val, 3 - bit), 4, i);
      MsbSingle(val, 3 - bit, 4, i);
    }
  }

  lemma OrFieldStep(p: seq<bool>, at: nat, f: seq<bool>, i: nat)
    requires i < |f|
    ensures OrField(OrField(p, at, f[..i]), at + i, [f[i]]) == OrField(p, at, f[..i + 1])
  {
  }

  method SetBit(s: array<char>, b: nat, val: nat)
    requires AllHex(s[..]) && b < 4 * s.Length && val < 2
    modifies s
    ensures AllHex(s[..])
    ensures HexBits(s[..]) == OrField(old(HexBits(s[..])), b, [val == 1])
  {
    hide Msb;
    hide Or;
    hide Shl;
    var byt, bit := b / 4, b % 4;
    ghost var p := s[..];
    assert IsHexDigit(p[byt]);
    var v: nat := HexVal(s[byt]);
    SetBitDigit(v, bit, val);
    var w := Or(v, Shl(val, 3 - bit));
    s[byt] := HEX_TABLE[w];
    assert HexVal(HEX_TABLE[w]) == w;
    assert forall i :: 0 <= i < |p| && i != byt ==> s[..][i] == p[i];
    assert s[..][byt] == HEX_TABLE[w];
    forall i | 0 <= i < |p| ensures IsHexDigit(s[..][i]) {
      assert i != byt ==> s[..][i] == p[i];
    }
    forall i | 0 <= i < 4 * |p| ensures HexBits(s[..])[i] == OrField(HexBits(p), b, [val == 1])[i] {
      if i / 4 == byt {
        assert HexBits(s[..])[i] == Msb(w, 4)[i % 4];
      } else {
        assert i != b;
        assert HexBits(s[..])[i] == HexBits(p)[i];
      }
    }
  }

  /** ORs the low `nbits` bits of `val` into the bits at `start`; everything
      else, and the validity of the digits, is kept. */
  method SetBits(s: array<char>, start: nat, nbits: nat, val: nat)
    requires AllHex(s[..]) && start + nbits <= 4 * s.Length
    modifies s
    ensures AllHex(s[..])
    ensures HexBits(s[..]) == OrField(old(HexBits(s[..])), start, Msb(val, nbits))
  {
    ghost var p, f := HexBits(s[..]), Msb(val, nbits);
    hide Msb;
    hide And;
    hide Shr;
    hide HexBits;
    assert OrField(p, start, f[..0]) == p;
    var i := 0;
    while i < nbits
      invariant i <= nbits
      invariant AllHex(s[..])
      invariant HexBits(s[..]) == OrField(p, start, f[..i])
    {
      MsbIndex(val, nbits, i);
      AndStep(Shr(val, nbits - i - 1), 1);
      SetBit(s, start + i, And(Shr(val, nbits - i - 1), 1));
      OrFieldStep(p, start, f, i);
      i := i + 1;
    }
    assert f[..nbits] == f;
  }

  /** Over bits that are still zero a write stores the field. */
  lemma OrFieldOverZeros(x: seq<bool>, f: seq<bool>, y: seq<bool>)
    ensures OrField(x + Zeros(|f|) + y, |x|, f) == x + f + y
  {
  }

  lemma FieldOfConcat(s: seq<char>, x: seq<bool>, f: seq<bool>, y: seq<bool>)
    requires AllHex(s) && HexBits(s) == x + f + y
    ensures Field(s, |x|, |f|) == MsbVal(f)
  {
    assert (x + f + y)[|x|..|x| + |f|] == f;
  }

  /** getbits after setbits on bits that were zero: the value modulo 2^nbits,
      with every bit outside the field as it was. */
  method WriteThenRead(s: array<char>, start: nat, nbits: nat, val: nat) returns (r: nat)
    requires AllHex(s[..]) && start + nbits <= 4 * s.Length
    requires HexBits(s[..])[start..start + nbits] == Zeros(nbits)
    modifies s
    ensures AllHex(s[..]) && r == val % Pow2(nbits)
    ensures forall b :: 0 <= b < 4 * s.Length && !(start <= b < start + nbits) ==>
              HexBits(s[..])[b] == old(HexBits(s[..]))[b]
  {
    hide Msb;
    hide MsbVal;
    hide HexBits;
    ghost var p := HexBits(s[..]);
    SetBits(s, start, nbits, val);
    r := GetBits(s[..], start, nbits);
    ghost var x, y := p[..start], p[start + nbits..];
    assert p == x + Zeros(nbits) + y;
    OrFieldOverZeros(x, Msb(val, nbits), y);
    FieldOfConcat(s[..], x, Msb(val, nbits), y);
    MsbRoundTrip(val, nbits);
    LowIsMod(val, nbits);
  }
}
