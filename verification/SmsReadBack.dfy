/** Which texts survive being cut into parts by smspdu_create_deliver_utf8 and read back
    part by part. */
module SmsReadBack {
  import opened Bits
  import opened Basics
  import opened Septets
  import opened Gsm7
  import Utf8
  import opened SmsDeliver
  import opened SmsSegments

  /** ASCII without NUL. */
  predicate Clean(t: seq<byte>) {
    forall i :: 0 <= i < |t| ==> 0 < t[i] < 128
  }

  /** A C string in `s` that is ASCII and fits the 7-bit tables. */
  predicate InAlphabet(s: seq<byte>, len: nat) {
    && len < |s| && s[len] == 0 && Ascii(s)
    && Clean(s[..len]) && Representable(s[..len])
  }

  /** Where the text of part `k` starts: as in the segmenter, without the terminator that
      a count in septets may run into. */
  function Cut(s: seq<byte>, len: nat, k: nat): (p: nat)
    requires InAlphabet(s, len)
    ensures p <= len
  {
    var units := |TextSeptets(s[..len])|;
    Min(if k < Parts(units, GSM7_BLOCK) then k * GSM7_BLOCK else units, len)
  }

  function Count(s: seq<byte>, len: nat): nat
    requires InAlphabet(s, len)
  {
    Parts(|TextSeptets(s[..len])|, GSM7_BLOCK)
  }

  lemma CutStep(s: seq<byte>, len: nat, k: nat)
    requires InAlphabet(s, len) && k < Count(s, len)
    ensures Cut(s, len, k) <= Cut(s, len, k + 1) <= Cut(s, len, k) + GSM7_BLOCK
  {
    SeptetCount(s[..len]);
  }

  lemma CutEnds(s: seq<byte>, len: nat)
    requires InAlphabet(s, len)
    ensures Cut(s, len, 0) == 0 && Cut(s, len, Count(s, len)) == len
  {
    SeptetCount(s[..len]);
    NoParts(|TextSeptets(s[..len])|, GSM7_BLOCK);
  }

  /** The text that part `k` should carry. */
  function Piece(s: seq<byte>, len: nat, k: nat): (t: seq<byte>)
    requires InAlphabet(s, len) && k < Count(s, len)
    ensures |t| <= GSM7_BLOCK
  {
    CutStep(s, len, k);
    s[Cut(s, len, k)..Cut(s, len, k + 1)]
  }

  // ----- what a damaged part can say

  lemma {:induction false} DecodeShort(ss: seq<nat>, escaped: bool)
    requires AllSeptets(ss) && Clean(Decode(ss, escaped))
    ensures |Decode(ss, escaped)| <= |ss|
  {
    hide DefaultChar, ExtendChar;
    if ss != [] {
      var all := Decode(ss, escaped);
      DecodeStep(ss, escaped);
      if !escaped && ss[0] == ESCAPE {
        DecodeShort(ss[1..], true);
      } else {
        var v := if escaped then ExtendChar(ss[0]) else DefaultChar(ss[0]);
        var rest := Decode(ss[1..], escaped);
        OneByte(v, rest);
        DecodeShort(ss[1..], escaped);
      }
    }
  }

  lemma OneByte(v: nat, rest: seq<byte>)
    requires Clean(Utf8.Encode(v) + rest)
    ensures |Utf8.Encode(v)| == 1 && v > 0 && Clean(rest)
  {
    var all := Utf8.Encode(v) + rest;
    assert all[0] == Utf8.Encode(v)[0];
    EncodeFirst(v);
    forall i | 0 <= i < |rest| ensures 0 < rest[i] < 128 { assert rest[i] == all[|Utf8.Encode(v)| + i]; }
  }

  /** A second escape is read as NUL. */
  lemma {:induction false} NoSecondEscape(ss: seq<nat>)
    requires AllSeptets(ss) && Clean(Decode(ss, true))
    ensures ESCAPE !in ss
  {
    hide DefaultChar;
    if ss != [] {
      DecodeStep(ss, true);
      OneByte(ExtendChar(ss[0]), Decode(ss[1..], true));
      NoSecondEscape(ss[1..]);
    }
  }

  lemma {:induction false} NoEscapeMeansPlain(t: seq<byte>)
    requires ESCAPE !in TextSeptets(t)
    ensures |TextSeptets(t)| == |t|
  {
    hide CharSeptets;
    if t != [] {
      TextSeptetsLast(t);
      NoEscapeMeansPlain(t[..|t| - 1]);
      EscapeFirst(t[|t| - 1]);
      assert CharSeptets(t[|t| - 1])[0] in TextSeptets(t);
    }
  }

  lemma EscapeFirst(c: byte)
    ensures Extended(c) ==> CharSeptets(c)[0] == ESCAPE
    ensures |CharSeptets(c)| == if Extended(c) then 2 else 1
  {
  }

  lemma NulIsEscape()
    ensures CharSeptets(0) == [ESCAPE]
  {
    assert DefaultTable()[ESCAPE] == 0;
    assert forall n :: 0 <= n < ESCAPE ==> DefaultTable()[n] == DefaultChar(n) != 0;
  }

  ghost predicate AllSingle(t: seq<byte>) {
    forall i :: 0 <= i < |t| ==> Single(t[i])
  }

  /** The text up to the first character of the extension table. */
  lemma SplitAtExtended(t: seq<byte>) returns (i: nat)
    requires Representable(t) && !AllSingle(t)
    ensures i < |t| && AllSingle(t[..i]) && Extended(t[i])
  {
    hide Single, Extended;
    assert t[..|t|] == t;
    i := 0;
    while i < |t| && Single(t[i])
      invariant i <= |t| && AllSingle(t[..i])
    {
      i := i + 1;
    }
  }

  /** From an escape on everything is read in the extension table. */
  lemma EscapedForm(t: seq<byte>, i: nat, extra: seq<nat>)
    requires Clean(t) && i < |t| && AllSingle(t[..i]) && Extended(t[i]) && AllSeptets(extra)
    ensures AllSeptets(TextSeptets(t) + extra) && AllSeptets(TextSeptets(t[i + 1..]) + extra)
    ensures Decode(TextSeptets(t) + extra, false)
         == t[..i] + ([t[i]] + Decode(TextSeptets(t[i + 1..]) + extra, true))
  {
    hide Decode, CharSeptets, Single, Extended, TextSeptets;
    var x, c, y := t[..i], t[i], t[i + 1..];
    assert t == x + ([c] + y);
    PlainText(x);
    TextSeptetsAppend(x, [c] + y);
    TextSeptetsCons(c, y);
    var ss := CharSeptets(c) + (TextSeptets(y) + extra);
    assert TextSeptets(t) + extra == TextSeptets(x) + ss;
    DecodeAppend(TextSeptets(x), ss);
    ExtendedTail(c, TextSeptets(y) + extra);
  }

  lemma CleanSuffix(a: seq<byte>, b: seq<byte>)
    requires Clean(a + b)
    ensures Clean(a) && Clean(b)
  {
    forall i | 0 <= i < |a| ensures 0 < a[i] < 128 { assert a[i] == (a + b)[i]; }
    forall i | 0 <= i < |b| ensures 0 < b[i] < 128 { assert b[i] == (a + b)[|a| + i]; }
  }

  /** A part without the terminator that is read as clean text is no longer than it should
      be. */
  lemma BareBound(t: seq<byte>)
    requires Clean(t) && Representable(t) && Clean(Decode(TextSeptets(t), false))
    ensures |Decode(TextSeptets(t), false)| <= |t|
  {
    hide Decode, Single, Extended, TextSeptets, Clean, Representable;
    if AllSingle(t) {
      SinglesPlain(t);
    } else {
      var i := SplitAtExtended(t);
      var y := t[i + 1..];
      assert TextSeptets(t) + [] == TextSeptets(t) && TextSeptets(y) + [] == TextSeptets(y);
      EscapedForm(t, i, []);
      var d := Decode(TextSeptets(y), true);
      CleanSuffix(t[..i], [t[i]] + d);
      CleanSuffix([t[i]], d);
      NoSecondEscape(TextSeptets(y));
      NoEscapeMeansPlain(y);
      DecodeShort(TextSeptets(y), true);
    }
  }

  lemma SinglesPlain(t: seq<byte>)
    requires Clean(t) && AllSingle(t)
    ensures ESCAPE !in TextSeptets(t) && |TextSeptets(t)| == |t| && Decode(TextSeptets(t), false) == t
  {
    PlainText(t);
  }

  /** A part that runs into the terminator is read as clean text exactly when it has no
      escape before it, and then without the terminator. */
  lemma TerminatedIff(t: seq<byte>)
    requires Clean(t) && Representable(t)
    ensures Clean(Decode(TextSeptets(t + [0]), false)) <==> AllSingle(t)
    ensures AllSingle(t) ==> Decode(TextSeptets(t + [0]), false) == t && |TextSeptets(t + [0])| == |t| + 1
  {
    hide Decode, Single, Extended, TextSeptets, CharSeptets, Clean, Representable;
    NulIsEscape();
    TextSeptetsLast(t + [0]);
    assert (t + [0])[..|t|] == t;
    assert TextSeptets(t + [0]) == TextSeptets(t) + [ESCAPE];
    if AllSingle(t) {
      SinglesPlain(t);
      DecodeAppend(TextSeptets(t), [ESCAPE]);
      LoneEscape();
      assert t + [] == t;
    } else if Clean(Decode(TextSeptets(t + [0]), false)) {
      var i := SplitAtExtended(t);
      EscapedForm(t, i, [ESCAPE]);
      var y := TextSeptets(t[i + 1..]) + [ESCAPE];
      assert y[|y| - 1] == ESCAPE;
      CleanSuffix(t[..i], [t[i]] + Decode(y, true));
      CleanSuffix([t[i]], Decode(y, true));
      NoSecondEscape(y);
    }
  }

  lemma LoneEscape()
    ensures Decode([ESCAPE], false) == []
  {
    assert [ESCAPE][1..] == [];
  }

  // ----- one part

  /** An extension character of the piece stands last in a full part. */
  ghost predicate Placed(s: seq<byte>, len: nat, k: nat)
    requires InAlphabet(s, len) && k < Count(s, len)
  {
    forall i :: Cut(s, len, k) <= i < Cut(s, len, k + 1) && Extended(s[i]) ==> i % GSM7_BLOCK == GSM7_BLOCK - 1
  }

  function Stretch(s: seq<byte>, len: nat, k: nat): seq<byte>
    requires InAlphabet(s, len)
  {
    Part(s, len, |TextSeptets(s[..len])|, GSM7_BLOCK, k)
  }

  /** The stretch of the buffer that is sent is the piece, or the piece and the
      terminator; a piece with an extension character is sent alone only in a full part. */
  lemma StretchIs(s: seq<byte>, len: nat, k: nat)
    requires InAlphabet(s, len) && k < Count(s, len)
    ensures var t, part, p := Piece(s, len, k), Stretch(s, len, k), Cut(s, len, k);
            && (part == t || part == t + [0]) && |part| <= GSM7_BLOCK
            && Clean(t) && Representable(t)
            && (t != [] ==> p == GSM7_BLOCK * k)
            && (part == t != [] && !AllSingle(t) ==> |t| == GSM7_BLOCK)
  {
    hide Single, Extended, TextSeptets, Start;
    var text := s[..len];
    var units := |TextSeptets(text)|;
    SeptetCount(text);
    StartIs(s, len, units, GSM7_BLOCK, k);
    StartIs(s, len, units, GSM7_BLOCK, k + 1);
    PartRange(s, len, units, GSM7_BLOCK, k);
    CutStep(s, len, k);
    var p, q := Cut(s, len, k), Cut(s, len, k + 1);
    var t := Piece(s, len, k);
    Within(s, len, p, q);
    PieceSingles(text, p, q);
    AndNext(s, p, len);
  }

  lemma Within(s: seq<byte>, len: nat, p: nat, q: nat)
    requires p <= q <= len <= |s|
    ensures s[..len][p..q] == s[p..q]
  {
  }

  lemma Halves(s: seq<byte>, p: nat, q: nat)
    requires p <= q <= |s|
    ensures s[..p] + s[p..q] == s[..q]
  {
  }

  lemma AndNext(s: seq<byte>, p: nat, q: nat)
    requires p <= q < |s|
    ensures s[p..q] + [s[q]] == s[p..q + 1]
  {
  }

  lemma PieceSingles(text: seq<byte>, p: nat, q: nat)
    requires p <= q <= |text| && Clean(text) && Representable(text)
    ensures Clean(text[p..q]) && Representable(text[p..q])
    ensures (forall i :: 0 <= i < |text| ==> !Extended(text[i])) ==> AllSingle(text[p..q])
  {
    hide Single, Extended;
    if forall i :: 0 <= i < |text| ==> !Extended(text[i]) {
      forall i | 0 <= i < q - p ensures Single(text[p..q][i]) {
        assert text[p..q][i] == text[p + i];
      }
    }
  }

  lemma PduOfStretch(s: seq<byte>, len: nat, a: seq<byte>, stamp: seq<byte>, ref: nat, k: nat)
    requires InAlphabet(s, len) && k < Count(s, len)
    ensures PartPdu(s, len, a, stamp, ref, k) ==
            DeliverPdu(Stretch(s, len, k), true, a, stamp, ref, Count(s, len), k)
  {
    hide DeliverPdu;
  }

  /** What part `k` is read as, if anything. */
  function ReadPart(s: seq<byte>, len: nat, a: seq<byte>, stamp: seq<byte>, ref: nat, k: nat): Option<seq<byte>>
    requires len < |s|
  {
    match ParseDeliver(PartPdu(s, len, a, stamp, ref, k))
    case Some(m) => Some(m.text)
    case None => None
  }

  lemma ReadPartIs(s: seq<byte>, len: nat, a: seq<byte>, stamp: seq<byte>, ref: nat, k: nat)
    requires InAlphabet(s, len) && k < Count(s, len) && AddressField(a) && |stamp| == 7
    ensures var ss := TextSeptets(Stretch(s, len, k));
            var q := Announced(|ss|, Count(s, len));
            ReadPart(s, len, a, stamp, ref, k) == if q < 0 then None else Some(Decode(ss[..q], false))
  {
    hide Decode, TextSeptets, DeliverPdu, ParseDeliver, Announced, PartPdu, InAlphabet, Part;
    PduOfStretch(s, len, a, stamp, ref, k);
    ParseOfDeliver(Stretch(s, len, k), a, stamp, ref, Count(s, len), k);
  }

  lemma {:induction false} AtMostTwice(t: seq<byte>)
    ensures |TextSeptets(t)| <= 2 * |t|
  {
    hide CharSeptets;
    if t != [] {
      AtMostTwice(t[..|t| - 1]);
      EscapeFirst(t[|t| - 1]);
    }
  }

  lemma AnnouncedShort(n: nat, count: nat)
    requires n <= 2 * GSM7_BLOCK && Announced(n, count) != n
    ensures n >= 249 && Announced(n, count) <= n - 249
  {
  }

  /** A part that is read as clean text gives no more than its piece, and gives its piece
      only when the extension characters are placed. */
  lemma PartBound(s: seq<byte>, len: nat, a: seq<byte>, stamp: seq<byte>, ref: nat, k: nat)
    requires InAlphabet(s, len) && k < Count(s, len) && AddressField(a) && |stamp| == 7
    requires ReadPart(s, len, a, stamp, ref, k).Some? && Clean(ReadPart(s, len, a, stamp, ref, k).value)
    ensures |ReadPart(s, len, a, stamp, ref, k).value| <= |Piece(s, len, k)|
    ensures ReadPart(s, len, a, stamp, ref, k).value == Piece(s, len, k) ==> Placed(s, len, k)
  {
    hide *;
    ReadPartIs(s, len, a, stamp, ref, k);
    StretchIs(s, len, k);
    var t, part := Piece(s, len, k), Stretch(s, len, k);
    var ss := TextSeptets(part);
    var q := Announced(|ss|, Count(s, len));
    AtMostTwice(part);
    if q < |ss| {
      SeptetsFirst(ss, q);
      DecodeShort(ss[..q], false);
      Truncated(t, part, |ss|, q, Count(s, len));
    } else {
      assert ss[..q] == ss;
      if part == t {
        BareBound(t);
        if Decode(ss, false) == t { BarePlaced(s, len, k); }
      } else {
        TerminatedIff(t);
        SinglesPlaced(s, len, k);
      }
    }
  }

  lemma SeptetsFirst(ss: seq<nat>, q: nat)
    requires AllSeptets(ss) && q <= |ss|
    ensures AllSeptets(ss[..q])
  {
  }

  lemma Truncated(t: seq<byte>, part: seq<byte>, n: nat, q: int, count: nat)
    requires part == t || part == t + [0]
    requires |part| <= GSM7_BLOCK && n <= 2 * |part| && q == Announced(n, count) < n
    ensures q < |t|
  {
    AnnouncedShort(n, count);
  }

  lemma SinglesPlaced(s: seq<byte>, len: nat, k: nat)
    requires InAlphabet(s, len) && k < Count(s, len) && AllSingle(Piece(s, len, k))
    ensures Placed(s, len, k)
  {
    hide Single;
    var t, p := Piece(s, len, k), Cut(s, len, k);
    forall i | p <= i < Cut(s, len, k + 1) ensures !Extended(s[i]) { assert t[i - p] == s[i]; }
  }

  lemma BarePlaced(s: seq<byte>, len: nat, k: nat)
    requires InAlphabet(s, len) && k < Count(s, len) && Stretch(s, len, k) == Piece(s, len, k)
    requires Decode(TextSeptets(Piece(s, len, k)), false) == Piece(s, len, k)
    ensures Placed(s, len, k)
  {
    hide Decode, TextSeptets, Single, Stretch, Start;
    StretchIs(s, len, k);
    var t, p := Piece(s, len, k), Cut(s, len, k);
    GsmRoundTripIff(t);
    forall i | p <= i < Cut(s, len, k + 1) && Extended(s[i]) ensures i % GSM7_BLOCK == GSM7_BLOCK - 1 {
      assert t[i - p] == s[i];
      assert !AllSingle(t);
    }
  }

  lemma AllSinglePlaced(s: seq<byte>, len: nat, k: nat)
    requires InAlphabet(s, len) && k < Count(s, len) && Placed(s, len, k)
    ensures var t := Piece(s, len, k);
            AllSingle(t) || (Transparent(t) && |t| == GSM7_BLOCK)
  {
    hide Single, Stretch, TextSeptets, Start;
    StretchIs(s, len, k);
    var t, p := Piece(s, len, k), Cut(s, len, k);
    forall i | 0 <= i < |t| && !Single(t[i]) ensures Extended(t[i]) && i == GSM7_BLOCK - 1 == |t| - 1 {
      assert t[i] == s[p + i];
      assert (p + i) % GSM7_BLOCK == GSM7_BLOCK - 1;
    }
  }

  lemma {:induction false} TransparentCount(t: seq<byte>)
    requires Transparent(t)
    ensures |TextSeptets(t)| <= |t| + 1
  {
    hide Single, CharSeptets;
    if t != [] {
      var n := |t| - 1;
      SeptetCount(t[..n]);
      TextSeptetsLast(t);
      EscapeFirst(t[n]);
      assert forall i :: 0 <= i < n ==> t[..n][i] == t[i];
    }
  }

  /** A part whose extension characters are placed reads back as its piece. */
  lemma PlacedReads(s: seq<byte>, len: nat, a: seq<byte>, stamp: seq<byte>, ref: nat, k: nat)
    requires InAlphabet(s, len) && k < Count(s, len) && AddressField(a) && |stamp| == 7 && Placed(s, len, k)
    ensures ReadPart(s, len, a, stamp, ref, k) == Some(Piece(s, len, k))
  {
    hide *;
    ReadPartIs(s, len, a, stamp, ref, k);
    StretchIs(s, len, k);
    AllSinglePlaced(s, len, k);
    var t, part := Piece(s, len, k), Stretch(s, len, k);
    var ss := TextSeptets(part);
    if part == t {
      PlacedTransparent(t);
      TransparentCount(t);
      GsmRoundTripOf(t);
    } else {
      FullMeansBare(t, part);
      TerminatedIff(t);
      SinglesPlain(t);
    }
    AnnouncedWhole(|ss|, Count(s, len));
    assert ss[..|ss|] == ss;
  }

  lemma GsmRoundTripOf(t: seq<byte>)
    requires Clean(t) && Transparent(t)
    ensures Decode(TextSeptets(t), false) == t
  {
    hide Decode, TextSeptets, Transparent;
    GsmRoundTripIff(t);
  }

  lemma PlacedTransparent(t: seq<byte>)
    requires AllSingle(t) || Transparent(t)
    ensures Transparent(t)
  {
    hide Single;
  }

  lemma FullMeansBare(t: seq<byte>, part: seq<byte>)
    requires (part == t || part == t + [0]) && part != t && |part| <= GSM7_BLOCK
    ensures |t| != GSM7_BLOCK && part == t + [0]
  {
  }

  lemma AnnouncedWhole(n: nat, count: nat)
    requires n <= GSM7_BLOCK + 1
    ensures Announced(n, count) == n
  {
  }

  // ----- all parts

  function Joins(s: seq<byte>, len: nat, a: seq<byte>, stamp: seq<byte>, ref: nat, k: nat): Option<seq<byte>>
    requires len < |s|
  {
    JoinedTexts(PartPdus(s, len, a, stamp, ref, k))
  }

  lemma JoinsNext(s: seq<byte>, len: nat, a: seq<byte>, stamp: seq<byte>, ref: nat, k: nat)
    requires len < |s|
    ensures Joins(s, len, a, stamp, ref, 0) == Some([])
    ensures Joins(s, len, a, stamp, ref, k + 1) ==
            match (Joins(s, len, a, stamp, ref, k), ReadPart(s, len, a, stamp, ref, k))
            case (Some(t), Some(m)) => Some(t + m)
            case _ => None
  {
    hide PartPdu, ParseDeliver;
    var pdus := PartPdus(s, len, a, stamp, ref, k + 1);
    assert pdus[..k] == PartPdus(s, len, a, stamp, ref, k);
  }

  /** Clean text read from the first parts is no longer than their pieces. */
  lemma {:induction false} JoinsBound(s: seq<byte>, len: nat, a: seq<byte>, stamp: seq<byte>, ref: nat, k: nat)
    requires InAlphabet(s, len) && k <= Count(s, len) && AddressField(a) && |stamp| == 7
    requires var j := Joins(s, len, a, stamp, ref, k); j.Some? && Clean(j.value)
    ensures |Joins(s, len, a, stamp, ref, k).value| <= Cut(s, len, k)
  {
    hide Joins, ReadPart, Clean, Count, Cut, AddressField;
    JoinsNext(s, len, a, stamp, ref, if k > 0 then k - 1 else 0);
    if k > 0 {
      CleanSuffix(Joins(s, len, a, stamp, ref, k - 1).value, ReadPart(s, len, a, stamp, ref, k - 1).value);
      JoinsBound(s, len, a, stamp, ref, k - 1);
      CutStep(s, len, k - 1);
      PartBound(s, len, a, stamp, ref, k - 1);
    }
  }

  lemma {:induction false} ExactMeansPlaced(s: seq<byte>, len: nat, a: seq<byte>, stamp: seq<byte>, ref: nat, k: nat)
    requires InAlphabet(s, len) && k <= Count(s, len) && AddressField(a) && |stamp| == 7
    requires Joins(s, len, a, stamp, ref, k) == Some(s[..Cut(s, len, k)])
    ensures forall j :: 0 <= j < k ==> Placed(s, len, j)
  {
    hide Joins, ReadPart, Clean, Count, Cut, AddressField, Placed;
    if k > 0 {
      var u := s[..Cut(s, len, k)];
      JoinsNext(s, len, a, stamp, ref, k - 1);
      var t, m := Joins(s, len, a, stamp, ref, k - 1).value, ReadPart(s, len, a, stamp, ref, k - 1).value;
      CleanPrefix(s, len, Cut(s, len, k));
      CleanSuffix(t, m);
      JoinsBound(s, len, a, stamp, ref, k - 1);
      PartBound(s, len, a, stamp, ref, k - 1);
      CutStep(s, len, k - 1);
      SameSplit(t, m, s, Cut(s, len, k - 1), Cut(s, len, k));
      ExactMeansPlaced(s, len, a, stamp, ref, k - 1);
    }
  }

  lemma CleanPrefix(s: seq<byte>, len: nat, p: nat)
    requires InAlphabet(s, len) && p <= len
    ensures Clean(s[..p])
  {
    assert forall i :: 0 <= i < p ==> s[..p][i] == s[..len][i];
  }

  lemma SameSplit(t: seq<byte>, m: seq<byte>, s: seq<byte>, p: nat, q: nat)
    requires p <= q <= |s| && t + m == s[..q] && |t| <= p && |m| <= q - p
    ensures t == s[..p] && m == s[p..q]
  {
    assert |t + m| == q;
    assert t == (t + m)[..p] && m == (t + m)[p..];
  }

  lemma {:induction false} PlacedMeansExact(s: seq<byte>, len: nat, a: seq<byte>, stamp: seq<byte>, ref: nat, k: nat)
    requires InAlphabet(s, len) && k <= Count(s, len) && AddressField(a) && |stamp| == 7
    requires forall j :: 0 <= j < k ==> Placed(s, len, j)
    ensures Joins(s, len, a, stamp, ref, k) == Some(s[..Cut(s, len, k)])
  {
    hide Joins, ReadPart, Clean, Count, Cut, AddressField, Placed;
    JoinsNext(s, len, a, stamp, ref, if k > 0 then k - 1 else 0);
    CutEnds(s, len);
    if k > 0 {
      PlacedMeansExact(s, len, a, stamp, ref, k - 1);
      PlacedReads(s, len, a, stamp, ref, k - 1);
      CutStep(s, len, k - 1);
      Halves(s, Cut(s, len, k - 1), Cut(s, len, k));
    }
  }

  lemma PartOf(s: seq<byte>, len: nat, i: nat)
    requires InAlphabet(s, len) && i < len
    ensures var k := i / GSM7_BLOCK;
            k < Count(s, len) && Cut(s, len, k) <= i < Cut(s, len, k + 1)
  {
    hide TextSeptets;
    SeptetCount(s[..len]);
  }

  /** Which texts survive segmentation: the parts, read one after the other, give the text
      exactly when every extension character is the last of a full part. */
  lemma ReadBackIff(s: seq<byte>, len: nat, a: seq<byte>, stamp: seq<byte>, ref: nat)
    requires len < |s| && s[len] == 0 && Ascii(s)
    requires Clean(s[..len]) && Representable(s[..len]) && AddressField(a) && |stamp| == 7
    ensures JoinedTexts(PartPdus(s, len, a, stamp, ref, Parts(Units(s[..len]), Block(s[..len])))) == Some(s[..len])
       <==> forall i :: 0 <= i < len && Extended(s[i]) ==> i % GSM7_BLOCK == GSM7_BLOCK - 1
  {
    hide Clean, Representable, AddressField, JoinedTexts, PartPdus, Extended, Ascii, TextSeptets, Cut;
    var n := Count(s, len);
    CutEnds(s, len);
    if forall i :: 0 <= i < len && Extended(s[i]) ==> i % GSM7_BLOCK == GSM7_BLOCK - 1 {
      PlacedMeansExact(s, len, a, stamp, ref, n);
    } else if Joins(s, len, a, stamp, ref, n) == Some(s[..len]) {
      ExactMeansPlaced(s, len, a, stamp, ref, n);
      forall i | 0 <= i < len && Extended(s[i]) ensures i % GSM7_BLOCK == GSM7_BLOCK - 1 {
        PartOf(s, len, i);
        assert Placed(s, len, i / GSM7_BLOCK);
      }
    }
  }

  // ----- concrete texts

  /** `n` letters 'a', then `last`, then the terminator. */
  function Letters(n: nat, last: seq<byte>): (s: seq<byte>)
    ensures |s| == n + |last| + 1
  {
    seq(n, i => 'a' as int) + last + [0]
  }

  lemma LettersRepresentable(n: nat, last: seq<byte>)
    requires last == ['{' as int] || last == ['{' as int, 'a' as int]
    ensures var s, len := Letters(n, last), n + |last|;
            Ascii(s) && s[len] == 0 && Clean(s[..len]) && Representable(s[..len])
    ensures Extended(Letters(n, last)[n]) && forall i :: 0 <= i < n ==> !Extended(Letters(n, last)[i])
  {
    hide Single, Extended;
    Brace();
    NotBoth('a' as int);
    var s, len := Letters(n, last), n + |last|;
    assert forall i :: 0 <= i < len ==> s[i] == 'a' as int || s[i] == '{' as int;
  }

  lemma NotBoth(c: byte)
    ensures Single(c) ==> !Extended(c)
  {
  }

  lemma BlockSize()
    ensures GSM7_BLOCK == 154
  {
  }

  /** "{" alone: the parts take in the terminator, and it is read as a NUL. */
  lemma LoneBrace(a: seq<byte>, stamp: seq<byte>, ref: nat)
    requires AddressField(a) && |stamp| == 7
    ensures var s := Letters(0, ['{' as int]);
            var n := Parts(Units(s[..1]), Block(s[..1]));
            && Joined(s, 1, Units(s[..1]), Block(s[..1]), n) == s[..1] + [0]
            && JoinedTexts(PartPdus(s, 1, a, stamp, ref, n)) != Some(s[..1])
  {
    hide *;
    var s := Letters(0, ['{' as int]);
    LettersRepresentable(0, ['{' as int]);
    SegmentsConserveIff(s, 1);
    ReadBackIff(s, 1, a, stamp, ref);
    assert s[..1][0] == s[0];
    BlockSize();
  }

  /** 153 letters and a brace: the stretches take in the terminator, and yet the parts read
      back as the text. */
  lemma BraceAtTheEndOfAPart(a: seq<byte>, stamp: seq<byte>, ref: nat)
    requires AddressField(a) && |stamp| == 7
    ensures var s := Letters(153, ['{' as int]);
            var n := Parts(Units(s[..154]), Block(s[..154]));
            && Joined(s, 154, Units(s[..154]), Block(s[..154]), n) == s[..154] + [0]
            && JoinedTexts(PartPdus(s, 154, a, stamp, ref, n)) == Some(s[..154])
  {
    hide *;
    var s := Letters(153, ['{' as int]);
    LettersRepresentable(153, ['{' as int]);
    SegmentsConserveIff(s, 154);
    ReadBackIff(s, 154, a, stamp, ref);
    assert s[..154][153] == s[153];
    BlockSize();
  }
}
