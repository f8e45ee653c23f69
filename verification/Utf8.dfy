/** The UTF-8 writer of helper/gsm.c and the two routines that consume its
    output: utf8_check and utf8_skip. */
module Utf8 {
  import opened Basics
  import opened Bits

  /** `0x80 | (v & 0x3f)`. */
  function Tail(v: nat): (c: byte)
    ensures Continuation(c)
  {
    0x80 + v % 0x40
  }

  predicate Continuation(c: byte) {
    0x80 <= c < 0xC0
  }

  /** utf8_write: the bytes of one code point. The bit fields are disjoint, so
      the source's `|` is addition here. */
  function Encode(v: nat): (s: seq<byte>)
    ensures 1 <= |s| <= 4
  {
    if v < 0x80 then [v]
    else if v < 0x800 then [0xC0 + v / 0x40, Tail(v)]
    else if v < 0x10000 then [0xE0 + v / 0x1000, Tail(v / 0x40), Tail(v)]
    else [0xF0 + v / 0x40000 % 8, Tail(v / 0x1000), Tail(v / 0x40), Tail(v)]
  }

  function EncodeAll(vs: seq<nat>): seq<byte> {
    if vs == [] then [] else EncodeAll(vs[..|vs| - 1]) + Encode(vs[|vs| - 1])
  }

  /** `(hi << 8) | lo`. */
  function U16(hi: byte, lo: byte): nat {
    256 * hi + lo
  }

  /** The 16-bit units of a big-endian byte string. */
  function Units(ucs2: seq<byte>, n: nat): seq<nat>
    requires 2 * n <= |ucs2|
  {
    seq(n, i requires 0 <= i < n => U16(ucs2[2 * i], ucs2[2 * i + 1]))
  }

  // ----- the writer

  /** Writes one code point when there is a buffer; the length either way. */
  method Write(utf8: array?<byte>, offset: nat, v: nat) returns (result: nat)
    requires utf8 != null ==> offset + |Encode(v)| <= utf8.Length
    modifies utf8
    ensures result == |Encode(v)|
    ensures utf8 != null ==> utf8[..] == Splice(old(utf8[..]), offset, Encode(v))
  {
    if v < 0x80 {
      result := 1;
      if utf8 != null {
        utf8[offset] := v;
      }
    } else if v < 0x800 {
      result := 2;
      if utf8 != null {
        utf8[offset] := 0xC0 + v / 0x40;
        utf8[offset + 1] := Tail(v);
      }
    } else if v < 0x10000 {
      result := 3;
      if utf8 != null {
        utf8[offset] := 0xE0 + v / 0x1000;
        utf8[offset + 1] := Tail(v / 0x40);
        utf8[offset + 2] := Tail(v);
      }
    } else {
      result := 4;
      if utf8 != null {
        utf8[offset] := 0xF0 + v / 0x40000 % 8;
        utf8[offset + 1] := Tail(v / 0x1000);
        utf8[offset + 2] := Tail(v / 0x40);
        utf8[offset + 3] := Tail(v);
      }
    }
  }

  lemma SpliceSplice(s: seq<byte>, at: nat, a: seq<byte>, b: seq<byte>)
    requires at + |a| + |b| <= |s|
    ensures Splice(Splice(s, at, a), at + |a|, b) == Splice(s, at, a + b)
  {
  }

  lemma SpliceNothing(s: seq<byte>, at: nat)
    requires at <= |s|
    ensures Splice(s, at, []) == s
  {
  }

  lemma {:induction false} EncodePrefix(vs: seq<nat>, i: nat)
    requires i <= |vs|
    ensures |EncodeAll(vs[..i])| <= |EncodeAll(vs)|
    decreases |vs|
  {
    if i < |vs| {
      EncodePrefix(vs[..|vs| - 1], i);
      assert vs[..|vs| - 1][..i] == vs[..i];
    } else {
      assert vs[..i] == vs;
    }
  }

  /** ucs2_to_utf8: with or without a buffer it returns the same length. */
  method FromUcs2(ucs2: seq<byte>, ucs2len: nat, buf: array?<byte>) returns (result: nat)
    requires 2 * ucs2len <= |ucs2|
    requires buf != null ==> |EncodeAll(Units(ucs2, ucs2len))| <= buf.Length
    modifies buf
    ensures result == |EncodeAll(Units(ucs2, ucs2len))|
    ensures buf != null ==> buf[..] == Splice(old(buf[..]), 0, EncodeAll(Units(ucs2, ucs2len)))
  {
    hide Encode;
    hide Splice;
    ghost var vs := Units(ucs2, ucs2len);
    if buf != null { SpliceNothing(buf[..], 0); }
    result := 0;
    var nn := 0;
    while nn < ucs2len
      invariant nn <= ucs2len && result == |EncodeAll(vs[..nn])|
      invariant buf != null ==> result <= buf.Length && buf[..] == Splice(old(buf[..]), 0, EncodeAll(vs[..nn]))
    {
      var c := U16(ucs2[2 * nn], ucs2[2 * nn + 1]);
      assert vs[..nn + 1][..nn] == vs[..nn] && vs[nn] == c;
      EncodePrefix(vs, nn + 1);
      if buf != null {
        SpliceSplice(old(buf[..]), 0, EncodeAll(vs[..nn]), Encode(c));
      }
      var k := Write(buf, result, c);
      result := result + k;
      nn := nn + 1;
    }
    assert vs[..nn] == vs;
  }

  // ----- utf8_check

  /** Continuation bytes announced by a lead byte; none for a bad one. */
  function Follow(c: byte): nat
    requires c >= 0x80
  {
    if 0xC0 <= c < 0xE0 then 1
    else if 0xE0 <= c < 0xF0 then 2
    else if 0xF0 <= c < 0xF8 then 3
    else 0
  }

  predicate WellFormed(s: seq<byte>) {
    if s == [] then true
    else if s[0] < 0x80 then WellFormed(s[1..])
    else
      var n := Follow(s[0]);
      && 0 < n < |s|
      && (forall i :: 1 <= i <= n ==> Continuation(s[i]))
      && WellFormed(s[n + 1..])
  }

  lemma OneLess(t: seq<byte>)
    ensures WellFormed([])
    ensures t != [] && t[0] < 0x80 ==> WellFormed(t) == WellFormed(t[1..])
    ensures t != [] && t[0] >= 0x80 && !(0 < Follow(t[0]) < |t|) ==> !WellFormed(t)
  {
  }

  lemma NotContinued(t: seq<byte>, k: nat)
    requires t != [] && t[0] >= 0x80 && 1 <= k <= Follow(t[0]) < |t| && !Continuation(t[k])
    ensures !WellFormed(t)
  {
  }

  lemma Continued(t: seq<byte>)
    requires t != [] && t[0] >= 0x80 && 0 < Follow(t[0]) < |t|
    requires forall k :: 1 <= k <= Follow(t[0]) ==> Continuation(t[k])
    ensures WellFormed(t) == WellFormed(t[Follow(t[0]) + 1..])
  {
  }

  method Check(p: array?<byte>, utf8len: nat) returns (result: bool)
    requires p != null ==> utf8len <= p.Length
    ensures result == (p != null && WellFormed(p[..utf8len]))
  {
    hide WellFormed, Continuation;
    result := false;
    if p != null {
      ghost var s := p[..utf8len];
      var i := 0;
      while i < utf8len
        invariant i <= utf8len
        invariant WellFormed(s) == WellFormed(s[i..])
      {
        var c := p[i];
        assert s[i..][0] == c && s[i..][1..] == s[i + 1..];
        OneLess(s[i..]);
        i := i + 1;
        if c >= 0x80 {
          var len;
          if 0xC0 <= c < 0xE0 {
            len := 1;
          } else if 0xE0 <= c < 0xF0 {
            len := 2;
          } else if 0xF0 <= c < 0xF8 {
            len := 3;
          } else {
            return;
          }
          if i + len > utf8len {
            return;
          }
          ghost var at, n := i - 1, len;
          while len > 0
            invariant 0 <= len <= n && i == at + 1 + n - len <= utf8len
            invariant forall k :: 1 <= k <= n - len ==> Continuation(s[at..][k])
          {
            assert s[at..][i - at] == p[i];
            if !Continuation(p[i]) {
              NotContinued(s[at..], i - at);
              return;
            }
            len := len - 1;
            i := i + 1;
          }
          assert s[at..][n + 1..] == s[i..];
          Continued(s[at..]);
        }
      }
      assert s[i..] == [];
      OneLess([]);
      result := true;
    }
  }

  lemma EncodeWellFormed(v: nat)
    ensures WellFormed(Encode(v))
  {
    var s := Encode(v);
    if v >= 0x80 { assert s[|s|..] == []; }
  }

  lemma {:induction false} WellFormedAppend(a: seq<byte>, b: seq<byte>)
    requires WellFormed(a) && WellFormed(b)
    ensures WellFormed(a + b)
    decreases |a|
  {
    if a == [] {
      assert a + b == b;
    } else {
      var n := if a[0] < 0x80 then 0 else Follow(a[0]);
      WellFormedAppend(a[n + 1..], b);
      assert (a + b)[n + 1..] == a[n + 1..] + b;
    }
  }

  /** Whatever is written passes utf8_check. */
  lemma {:induction false} EncodeAllWellFormed(vs: seq<nat>)
    ensures WellFormed(EncodeAll(vs))
  {
    hide Encode;
    if vs != [] {
      EncodeAllWellFormed(vs[..|vs| - 1]);
      EncodeWellFormed(vs[|vs| - 1]);
      WellFormedAppend(EncodeAll(vs[..|vs| - 1]), Encode(vs[|vs| - 1]));
    }
  }

  // ----- utf8_skip

  /** Past the continuation bytes that start at `p`. */
  function SkipContinuation(s: seq<byte>, p: nat, end: nat): (q: nat)
    requires p <= end <= |s|
    ensures p <= q <= end
    decreases end - p
  {
    if p < end && Continuation(s[p]) then SkipContinuation(s, p + 1, end) else p
  }

  /** The source reads the byte at `end` when characters run out, so it must exist. */
  function Skip(s: seq<byte>, p: nat, end: nat, count: nat): (q: nat)
    requires p <= end + 1 && end < |s|
    ensures p <= q <= end + 1
    decreases count
  {
    if count == 0 || p > end then p
    else
      var q := if s[p] > 128 && p < end then SkipContinuation(s, p + 1, end) else p + 1;
      Skip(s, q, end, count - 1)
  }

  method SkipChars(s: seq<byte>, utf8: nat, end: nat, count: nat) returns (p: nat)
    requires utf8 <= end + 1 && end < |s|
    ensures p == Skip(s, utf8, end, count)
  {
    p := utf8;
    var n := count;
    while n > 0
      invariant p <= end + 1
      invariant Skip(s, p, end, n) == Skip(s, utf8, end, count)
    {
      if p > end {
        break;
      }
      var c := s[p];
      p := p + 1;
      if c > 128 {
        ghost var at := p;
        while p < end && Continuation(s[p])
          invariant at <= p <= end + 1
          invariant at <= end ==> p <= end && SkipContinuation(s, p, end) == SkipContinuation(s, at, end)
        {
          p := p + 1;
        }
      }
      n := n - 1;
    }
  }

  lemma EncodeShape(v: nat)
    ensures var s := Encode(v);
            (|s| == 1 ==> s[0] < 0x80) && (|s| > 1 ==> s[0] > 128) &&
            (forall i :: 1 <= i < |s| ==> Continuation(s[i])) && !Continuation(s[0])
  {
  }

  /** Skipping one character from the start of its encoding reaches its end. */
  lemma SkipOne(s: seq<byte>, p: nat, end: nat, v: nat)
    requires p + |Encode(v)| <= end < |s| && s[p..p + |Encode(v)|] == Encode(v)
    requires p + |Encode(v)| == end || !Continuation(s[p + |Encode(v)|])
    ensures Skip(s, p, end, 1) == p + |Encode(v)|
  {
    hide Encode;
    EncodeShape(v);
    var n := |Encode(v)|;
    assert forall i :: 0 <= i < n ==> s[p + i] == Encode(v)[i];
    if n > 1 {
      RunOf(s, p + 1, end, p + n);
    }
  }

  lemma {:induction false} RunOf(s: seq<byte>, p: nat, end: nat, q: nat)
    requires p <= q <= end <= |s|
    requires forall i :: p <= i < q ==> Continuation(s[i])
    requires q == end || !Continuation(s[q])
    ensures SkipContinuation(s, p, end) == q
    decreases q - p
  {
    if p < q { RunOf(s, p + 1, end, q); }
  }

  lemma {:induction false} SkipSplit(s: seq<byte>, p: nat, end: nat, a: nat, b: nat)
    requires p <= end + 1 && end < |s|
    ensures Skip(s, p, end, a + b) == Skip(s, Skip(s, p, end, a), end, b)
    decreases a
  {
    if a > 0 && p <= end {
      var q := if s[p] > 128 && p < end then SkipContinuation(s, p + 1, end) else p + 1;
      SkipSplit(s, q, end, a - 1, b);
    }
  }

  lemma {:induction false} EncodeAllSplit(vs: seq<nat>, i: nat)
    requires i < |vs|
    ensures var p := |EncodeAll(vs[..i])|;
            p + |Encode(vs[i])| <= |EncodeAll(vs)| &&
            EncodeAll(vs)[p..p + |Encode(vs[i])|] == Encode(vs[i]) &&
            p + |Encode(vs[i])| == |EncodeAll(vs[..i + 1])|
    decreases |vs|
  {
    hide Encode;
    var n := |vs| - 1;
    assert vs[..i + 1][..i] == vs[..i];
    if i < n {
      EncodeAllSplit(vs[..n], i);
      assert vs[..n][..i] == vs[..i] && vs[..n][..i + 1] == vs[..i + 1];
    } else {
      assert vs[..n + 1] == vs;
    }
  }

  /** utf8_skip by `k` characters lands at the end of the encoding of the first `k`. */
  lemma {:induction false} SkipLands(vs: seq<nat>, rest: seq<byte>, k: nat)
    requires k <= |vs| && rest != []
    ensures Skip(EncodeAll(vs) + rest, 0, |EncodeAll(vs)|, k) == |EncodeAll(vs[..k])|
    decreases k
  {
    hide Encode;
    hide EncodeAll;
    hide Skip;
    if k == 0 {
      SkipNone(vs, rest);
    } else {
      SkipLands(vs, rest, k - 1);
      EncodeAllSplit(vs, k - 1);
      var s, end := EncodeAll(vs) + rest, |EncodeAll(vs)|;
      var p, v := |EncodeAll(vs[..k - 1])|, vs[k - 1];
      assert s[p..p + |Encode(v)|] == EncodeAll(vs)[p..p + |Encode(v)|];
      NextStarts(vs, rest, k);
      SkipOne(s, p, end, v);
      SkipSplit(s, 0, end, k - 1, 1);
    }
  }

  lemma SkipNone(vs: seq<nat>, rest: seq<byte>)
    requires rest != []
    ensures Skip(EncodeAll(vs) + rest, 0, |EncodeAll(vs)|, 0) == |EncodeAll(vs[..0])|
  {
  }

  lemma NextStarts(vs: seq<nat>, rest: seq<byte>, k: nat)
    requires k <= |vs|
    ensures var q := |EncodeAll(vs[..k])|;
            q == |EncodeAll(vs)| || (q < |EncodeAll(vs)| && !Continuation((EncodeAll(vs) + rest)[q]))
  {
    hide Encode;
    hide EncodeAll;
    if k < |vs| {
      EncodeAllSplit(vs, k);
      EncodeShape(vs[k]);
      var q := |EncodeAll(vs[..k])|;
      assert EncodeAll(vs)[q..q + |Encode(vs[k])|][0] == EncodeAll(vs)[q];
    } else {
      assert vs[..k] == vs;
    }
  }

  // ----- what the bytes mean

  /** The code point of one character, as section 3 of RFC 3629 lays its bits out. */
  function Point(s: seq<byte>): int
    requires 1 <= |s| <= 4
  {
    var a: int := s[0];
    if |s| == 1 then a
    else if |s| == 2 then (a - 0xC0) * 0x40 + Six(s[1])
    else if |s| == 3 then (a - 0xE0) * 0x1000 + Six(s[1]) * 0x40 + Six(s[2])
    else (a - 0xF0) * 0x40000 + Six(s[1]) * 0x1000 + Six(s[2]) * 0x40 + Six(s[3])
  }

  /** The payload of a continuation byte. */
  function Six(c: byte): int {
    c as int - 0x80
  }

  /** Bytes of the character that starts with `c`. */
  function Length(c: byte): (n: nat)
    ensures 1 <= n <= 4
  {
    if c < 0xC0 then 1 else if c < 0xE0 then 2 else if c < 0xF0 then 3 else 4
  }

  function Points(s: seq<byte>): seq<int> {
    if s == [] then []
    else if |s| < Length(s[0]) then [-1]
    else [Point(s[..Length(s[0])])] + Points(s[Length(s[0])..])
  }

  lemma Sixes(v: nat)
    ensures var a, b, c := v / 0x40, v / 0x1000, v / 0x40000;
            && v == 0x40 * a + v % 0x40 && a == 0x40 * b + a % 0x40 && b == 0x40 * c + b % 0x40
            && Six(Tail(v)) == v % 0x40
  {
    assert v / 0x40 / 0x40 == v / 0x1000 && v / 0x1000 / 0x40 == v / 0x40000;
  }

  lemma PointOfEncode(v: nat)
    requires v < 0x20_0000
    ensures |Encode(v)| == Length(Encode(v)[0]) && Point(Encode(v)) == v
  {
    hide Tail, Six;
    Sixes(v);
    Sixes(v / 0x40);
    Sixes(v / 0x1000);
  }

  lemma {:induction false} PointsAppend(a: seq<byte>, v: nat, b: seq<byte>)
    requires v < 0x20_0000
    ensures Points(Encode(v) + b) == [v] + Points(b)
  {
    hide Encode, Point;
    PointOfEncode(v);
    var s := Encode(v) + b;
    assert s[0] == Encode(v)[0] && s[..|Encode(v)|] == Encode(v) && s[|Encode(v)|..] == b;
  }

  lemma {:induction false} EncodeAllHead(vs: seq<nat>)
    requires vs != []
    ensures EncodeAll(vs) == Encode(vs[0]) + EncodeAll(vs[1..])
  {
    hide Encode;
    var n := |vs| - 1;
    if n > 0 {
      EncodeAllHead(vs[..n]);
      assert vs[..n][1..] == vs[1..][..n - 1] && vs[..n][0] == vs[0];
      assert Encode(vs[0]) + (EncodeAll(vs[1..][..n - 1]) + Encode(vs[n])) == EncodeAll(vs);
    } else {
      assert vs[..0] == [] && vs[1..] == [];
      assert EncodeAll([]) + Encode(vs[0]) == Encode(vs[0]) + EncodeAll([]);
    }
  }

  /** No code point is lost: the bytes written are read back as the code points. */
  lemma {:induction false} PointsOfEncodeAll(vs: seq<nat>)
    requires forall i :: 0 <= i < |vs| ==> vs[i] < 0x20_0000
    ensures Points(EncodeAll(vs)) == vs
  {
    hide Encode, Point, EncodeAll;
    if vs == [] {
      NothingEncoded();
    } else {
      EncodeAllHead(vs);
      PointsOfEncodeAll(vs[1..]);
      PointsAppend([], vs[0], EncodeAll(vs[1..]));
      assert vs == [vs[0]] + vs[1..];
    }
  }

  lemma NothingEncoded()
    ensures EncodeAll([]) == []
  {
  }

  /** A lead byte and the continuation bytes it announces. */
  predicate IsCharacter(u: seq<byte>) {
    || (|u| == 1 && u[0] < 0x80)
    || (|u| == 2 && 0xC0 <= u[0] < 0xE0 && 0x80 <= u[1] < 0xC0)
    || (|u| == 3 && 0xE0 <= u[0] < 0xF0 && 0x80 <= u[1] < 0xC0 && 0x80 <= u[2] < 0xC0)
    || (|u| == 4 && 0xF0 <= u[0] < 0xF8 && 0x80 <= u[1] < 0xC0 && 0x80 <= u[2] < 0xC0 && 0x80 <= u[3] < 0xC0)
  }

  ghost predicate AllCharacters(us: seq<seq<byte>>) {
    forall i :: 0 <= i < |us| ==> IsCharacter(us[i])
  }

  function Concat(us: seq<seq<byte>>): seq<byte> {
    if us == [] then [] else us[0] + Concat(us[1..])
  }

  ghost predicate IsText(s: seq<byte>) {
    exists us :: AllCharacters(us) && Concat(us) == s
  }

  lemma CharacterFirst(u: seq<byte>, rest: seq<byte>)
    requires IsCharacter(u)
    ensures WellFormed(u + rest) == WellFormed(rest)
  {
    hide WellFormed;
    var s := u + rest;
    assert s[|u|..] == rest;
    OneLess(s);
    if |u| > 1 { Continued(s); }
  }

  lemma {:induction false} TextIsWellFormed(us: seq<seq<byte>>)
    requires AllCharacters(us)
    ensures WellFormed(Concat(us))
  {
    hide WellFormed, IsCharacter;
    OneLess([]);
    if us != [] {
      TextIsWellFormed(us[1..]);
      CharacterFirst(us[0], Concat(us[1..]));
    }
  }

  lemma FirstCharacter(s: seq<byte>) returns (u: seq<byte>)
    requires s != [] && WellFormed(s)
    ensures IsCharacter(u) && u <= s && WellFormed(s[|u|..])
  {
    u := if s[0] < 0x80 then s[..1] else s[..Follow(s[0]) + 1];
  }

  lemma {:induction false} WellFormedIsText(s: seq<byte>) returns (us: seq<seq<byte>>)
    requires WellFormed(s)
    ensures AllCharacters(us) && Concat(us) == s
    decreases |s|
  {
    hide WellFormed, IsCharacter;
    if s == [] {
      us := [];
    } else {
      var u := FirstCharacter(s);
      assert |u| > 0 by { CharacterNotEmpty(u); }
      var rest := WellFormedIsText(s[|u|..]);
      us := [u] + rest;
      assert us[1..] == rest;
      assert s == u + s[|u|..];
    }
  }

  lemma CharacterNotEmpty(u: seq<byte>)
    requires IsCharacter(u)
    ensures |u| > 0
  {
  }

  /** utf8_check accepts exactly the sequences of whole characters. */
  lemma WellFormedIff(s: seq<byte>)
    ensures WellFormed(s) <==> IsText(s)
  {
    if WellFormed(s) { var us := WellFormedIsText(s); }
    if IsText(s) {
      var us :| AllCharacters(us) && Concat(us) == s;
      TextIsWellFormed(us);
    }
  }
}
