/** Bit arithmetic on natural numbers, and the two bit orders of the codecs:
    least significant bit first (GSM septets, phone-book records) and most
    significant bit first (CDMA fields). */
module Bits {

  type byte = v: int | 0 <= v < 256

  /** C strings are sequences of non-zero bytes. */
  type text = s: seq<byte> | forall i :: 0 <= i < |s| ==> s[i] != 0

  /** The string that a buffer holds: what stands before its first NUL. */
  function CString(s: seq<byte>): text {
    if s == [] || s[0] == 0 then [] else [s[0]] + CString(s[1..])
  }

  lemma {:induction false} CStringAppend(s: text, t: seq<byte>)
    ensures CString(s + t) == s + CString(t)
    decreases |s|
  {
    if s == [] {
      assert s + t == t;
    } else {
      CStringAppend(s[1..], t);
      assert (s + t)[1..] == s[1..] + t;
    }
  }

  lemma CStringPrefix(s: seq<byte>)
    ensures |CString(s)| <= |s| && s[..|CString(s)|] == CString(s)
    ensures |CString(s)| < |s| ==> s[|CString(s)|] == 0
    ensures 0 in s ==> |CString(s)| < |s|
  {
    if s != [] && s[0] != 0 {
      CStringPrefix(s[1..]);
      assert s == [s[0]] + s[1..];
    }
  }

  function BitVal(b: bool): nat {
    if b then 1 else 0
  }

  /** The C operators on non-negative operands. */
  function Shl(v: nat, k: nat): nat {
    if k == 0 then v else 2 * Shl(v, k - 1)
  }

  function Shr(v: nat, k: nat): nat {
    if k == 0 then v else Shr(v / 2, k - 1)
  }

  function Or(x: nat, y: nat): nat {
    if x == 0 && y == 0 then 0
    else (if x % 2 == 1 || y % 2 == 1 then 1 else 0) + 2 * Or(x / 2, y / 2)
  }

  function And(x: nat, y: nat): nat {
    if x == 0 || y == 0 then 0
    else (if x % 2 == 1 && y % 2 == 1 then 1 else 0) + 2 * And(x / 2, y / 2)
  }

  /** Conversion to an unsigned type of `n` bits, which is also `& ((1 << n) - 1)`. */
  function Low(v: nat, n: nat): nat {
    if n == 0 then 0 else v % 2 + 2 * Low(v / 2, n - 1)
  }

  function Pow2(n: nat): (r: nat)
    ensures r > 0
  {
    if n == 0 then 1 else 2 * Pow2(n - 1)
  }

  lemma {:induction false} PowMono(a: nat, b: nat)
    requires a <= b
    ensures Pow2(a) <= Pow2(b)
  {
    if a < b { PowMono(a, b - 1); }
  }

  /** The number whose bits, least significant first, are `p`. */
  function FromBits(p: seq<bool>): nat {
    if p == [] then 0 else BitVal(p[0]) + 2 * FromBits(p[1..])
  }

  function ToBits(v: nat, n: nat): (p: seq<bool>)
    ensures |p| == n
  {
    if n == 0 then [] else [v % 2 == 1] + ToBits(v / 2, n - 1)
  }

  function Zeros(n: nat): (p: seq<bool>)
    ensures |p| == n
  {
    seq(n, i => false)
  }

  /** The low `n` bits of `v`, most significant first. */
  function Msb(v: nat, n: nat): (p: seq<bool>)
    ensures |p| == n
  {
    if n == 0 then [] else Msb(v / 2, n - 1) + [v % 2 == 1]
  }

  function MsbVal(p: seq<bool>): nat {
    if p == [] then 0 else 2 * MsbVal(p[..|p| - 1]) + BitVal(p[|p| - 1])
  }

  // ----- slices of a concatenation

  lemma SliceLeft<T>(p: seq<T>, q: seq<T>, a: nat, b: nat)
    requires a <= b <= |p|
    ensures (p + q)[a..b] == p[a..b]
  {
  }

  lemma SliceRight<T>(p: seq<T>, q: seq<T>)
    ensures (p + q)[|p|..|p| + |q|] == q && (p + q)[|p|..] == q && (p + q)[..|p|] == p
  {
  }

  // ----- least significant first

  lemma {:induction false} FromBitsBound(p: seq<bool>)
    ensures FromBits(p) < Pow2(|p|)
  {
    if p != [] { FromBitsBound(p[1..]); }
  }

  lemma {:induction false} ToFromBits(p: seq<bool>)
    ensures ToBits(FromBits(p), |p|) == p
  {
    if p != [] { ToFromBits(p[1..]); }
  }

  lemma {:induction false} FromToBits(v: nat, n: nat)
    ensures FromBits(ToBits(v, n)) == Low(v, n)
    ensures v < Pow2(n) ==> Low(v, n) == v
  {
    if n > 0 {
      FromToBits(v / 2, n - 1);
      assert ToBits(v, n)[1..] == ToBits(v / 2, n - 1);
    }
  }

  lemma {:induction false} LowIsMod(v: nat, n: nat)
    ensures Low(v, n) == v % Pow2(n)
  {
    if n > 0 {
      LowIsMod(v / 2, n - 1);
      ModHalf(v, Pow2(n - 1));
    }
  }

  lemma ModHalf(v: nat, m: nat)
    requires m > 0
    ensures v % (2 * m) == v % 2 + 2 * ((v / 2) % m)
  {
    var h := v / 2;
    var q, r := h / m, h % m;
    assert h == q * m + r;
    assert v == q * (2 * m) + (2 * r + v % 2) by {
      assert 2 * (q * m) == q * (2 * m);
    }
    DivModUnique(v, 2 * m, q, 2 * r + v % 2);
  }

  lemma {:induction false} MulGap(a: nat, b: nat, d: nat)
    requires a < b
    ensures a * d + d <= b * d
  {
    if a + 1 < b {
      MulGap(a, b - 1, d);
      assert b * d == (b - 1) * d + d;
    } else {
      assert b * d == a * d + d;
    }
  }

  lemma DivModUnique(v: nat, d: nat, q: nat, r: nat)
    requires d > 0 && v == q * d + r && r < d
    ensures v % d == r
  {
    var q', r' := v / d, v % d;
    assert v == q' * d + r';
    if q < q' {
      MulGap(q, q', d);
      assert false;
    } else if q' < q {
      MulGap(q', q, d);
      assert false;
    }
  }

  lemma {:induction false} ZeroBits(n: nat)
    ensures ToBits(0, n) == Zeros(n)
  {
    if n > 0 { ZeroBits(n - 1); }
  }

  lemma {:induction false} ShrFromBits(p: seq<bool>, k: nat)
    requires k <= |p|
    ensures Shr(FromBits(p), k) == FromBits(p[k..])
  {
    if k > 0 {
      ShrFromBits(p[1..], k - 1);
      assert p[1..][k - 1..] == p[k..];
      assert FromBits(p) / 2 == FromBits(p[1..]);
    } else {
      assert p[0..] == p;
    }
  }

  lemma {:induction false} LowFromBits(p: seq<bool>, k: nat)
    requires k <= |p|
    ensures Low(FromBits(p), k) == FromBits(p[..k])
  {
    if k > 0 {
      LowFromBits(p[1..], k - 1);
      assert p[..k][1..] == p[1..][..k - 1];
      assert FromBits(p) / 2 == FromBits(p[1..]);
    }
  }

  lemma OrStep(x: nat, y: nat)
    ensures Or(x, y) == (if x % 2 == 1 || y % 2 == 1 then 1 else 0) + 2 * Or(x / 2, y / 2)
  {
  }

  lemma AndStep(x: nat, y: nat)
    ensures And(x, y) == (if x % 2 == 1 && y % 2 == 1 then 1 else 0) + 2 * And(x / 2, y / 2)
  {
    if x == 0 || y == 0 { assert And(x / 2, y / 2) == 0; }
  }

  lemma {:induction false} OrZero(x: nat)
    ensures Or(x, 0) == x && Or(0, x) == x
  {
    if x > 0 { OrZero(x / 2); }
  }

  /** Putting `q` above `p`: `p | (q << |p|)`. */
  lemma {:induction false} OrAppend(p: seq<bool>, q: seq<bool>)
    ensures Or(FromBits(p), Shl(FromBits(q), |p|)) == FromBits(p + q)
  {
    if p == [] {
      assert p + q == q;
      OrZero(FromBits(q));
    } else {
      OrAppend(p[1..], q);
      assert (p + q)[1..] == p[1..] + q;
      OrStep(FromBits(p), Shl(FromBits(q), |p|));
    }
  }

  lemma {:induction false} OrCommutes(x: nat, y: nat)
    ensures Or(x, y) == Or(y, x)
  {
    if x != 0 || y != 0 { OrCommutes(x / 2, y / 2); }
  }

  lemma {:induction false} OrBits(p: seq<bool>, q: seq<bool>)
    requires |p| == |q|
    ensures Or(FromBits(p), FromBits(q)) == FromBits(seq(|p|, i requires 0 <= i < |p| => p[i] || q[i]))
  {
    var r := seq(|p|, i requires 0 <= i < |p| => p[i] || q[i]);
    if p != [] {
      OrBits(p[1..], q[1..]);
      OrStep(FromBits(p), FromBits(q));
      assert r[1..] == seq(|p| - 1, i requires 0 <= i < |p| - 1 => p[1..][i] || q[1..][i]);
    }
  }

  lemma {:induction false} AndBits(p: seq<bool>, q: seq<bool>)
    requires |p| == |q|
    ensures And(FromBits(p), FromBits(q)) == FromBits(seq(|p|, i requires 0 <= i < |p| => p[i] && q[i]))
  {
    var r := seq(|p|, i requires 0 <= i < |p| => p[i] && q[i]);
    if p != [] {
      AndBits(p[1..], q[1..]);
      AndStep(FromBits(p), FromBits(q));
      assert r[1..] == seq(|p| - 1, i requires 0 <= i < |p| - 1 => p[1..][i] && q[1..][i]);
    }
  }

  lemma {:induction false} ShlFromBits(p: seq<bool>, k: nat)
    ensures Shl(FromBits(p), k) == FromBits(Zeros(k) + p)
  {
    if k == 0 {
      assert Zeros(0) + p == p;
    } else {
      ShlFromBits(p, k - 1);
      assert (Zeros(k) + p)[1..] == Zeros(k - 1) + p;
    }
  }

  lemma {:induction false} FromBitsZeros(p: seq<bool>, k: nat)
    ensures FromBits(p + Zeros(k)) == FromBits(p)
  {
    if p != [] {
      FromBitsZeros(p[1..], k);
      assert (p + Zeros(k))[1..] == p[1..] + Zeros(k);
    } else if k > 0 {
      FromBitsZeros([], k - 1);
      assert (p + Zeros(k))[1..] == [] + Zeros(k - 1);
    }
  }

  /** Concatenation as arithmetic. */
  lemma {:induction false} FromBitsAppend(p: seq<bool>, q: seq<bool>)
    ensures FromBits(p + q) == FromBits(p) + Shl(FromBits(q), |p|)
  {
    if p == [] {
      assert p + q == q;
    } else {
      FromBitsAppend(p[1..], q);
      assert (p + q)[1..] == p[1..] + q;
    }
  }

  lemma {:induction false} ShlIsMul(v: nat, k: nat)
    ensures Shl(v, k) == v * Pow2(k)
  {
    if k > 0 {
      ShlIsMul(v, k - 1);
      var p := Pow2(k - 1);
      assert 2 * (v * p) == v * (2 * p);
    }
  }

  // ----- most significant first

  lemma {:induction false} MsbRoundTrip(v: nat, n: nat)
    ensures MsbVal(Msb(v, n)) == Low(v, n)
  {
    if n > 0 {
      MsbRoundTrip(v / 2, n - 1);
      assert Msb(v, n)[..n - 1] == Msb(v / 2, n - 1);
    }
  }

  lemma {:induction false} MsbInverse(p: seq<bool>)
    ensures Msb(MsbVal(p), |p|) == p
  {
    if p != [] {
      var q, b := p[..|p| - 1], p[|p| - 1];
      MsbInverse(q);
      assert MsbVal(p) / 2 == MsbVal(q) && MsbVal(p) % 2 == BitVal(b);
      assert Msb(MsbVal(p), |p|) == Msb(MsbVal(q), |q|) + [b];
      assert p == q + [b];
    }
  }

  lemma {:induction false} MsbBound(p: seq<bool>)
    ensures MsbVal(p) < Pow2(|p|)
  {
    if p != [] {
      MsbBound(p[..|p| - 1]);
    }
  }

  lemma {:induction false} MsbIndex(v: nat, n: nat, i: nat)
    requires i < n
    ensures Msb(v, n)[i] == (And(Shr(v, n - 1 - i), 1) == 1)
  {
    if i < n - 1 {
      MsbIndex(v / 2, n - 1, i);
      assert Shr(v, n - 1 - i) == Shr(v / 2, n - 2 - i);
    } else {
      assert And(v, 1) == v % 2 by { AndStep(v, 1); }
    }
  }
}
