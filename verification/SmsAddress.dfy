/** SMS addresses of helper/sms_gsm.c: dial string to semi-octets and back
    (section 9.1.2.5 of 3GPP TS 23.040). */
module SmsAddress {
  import opened Bits
  import opened Basics
  import opened Rope
  import opened Utf8

  const MAX_SIZE := 16

  predicate Digits(s: string) {
    forall i :: 0 <= i < |s| ==> '0' <= s[i] <= '9'
  }

  /** Up to 32 digits after an optional '+'. */
  predicate DialString(s: string) {
    && s != []
    && var d := DigitsOf(s); 1 <= |d| <= 2 * MAX_SIZE && Digits(d)
  }

  function DigitsOf(s: string): string {
    if s != [] && s[0] == '+' then s[1..] else s
  }

  function Toa(s: string): byte {
    if s != [] && s[0] == '+' then 0x91 else 0x81
  }

  function DigitVal(c: char): nat
    requires '0' <= c <= '9'
  {
    c as nat - '0' as nat
  }

  /** Two digits a byte, the first in the low nibble, 0xF filling the last one. */
  function SemiOctets(d: string): (bs: seq<byte>)
    requires Digits(d)
    ensures |bs| == (|d| + 1) / 2
  {
    seq((|d| + 1) / 2, i requires 0 <= i < (|d| + 1) / 2 => Octet(d, i))
  }

  function Octet(d: string, i: nat): byte
    requires Digits(d) && 2 * i < |d|
  {
    if 2 * i + 1 < |d| then DigitVal(d[2 * i]) + 16 * DigitVal(d[2 * i + 1])
    else DigitVal(d[2 * i]) + 0xF0
  }

  function Nibble(bs: seq<byte>, i: nat): (v: nat)
    requires i < 2 * |bs|
    ensures v < 16
  {
    if i % 2 == 0 then bs[i / 2] % 16 else bs[i / 2] / 16
  }

  /** The string of an address: '0' plus each nibble, as the source prints it. */
  function AddressString(len: nat, toa: byte, bs: seq<byte>): string
    requires len <= 2 * |bs|
  {
    (if toa == 0x91 then "+" else "")
    + seq(len, i requires 0 <= i < len => ('0' as nat + Nibble(bs, i)) as char)
  }

  lemma SemiOctetNibbles(d: string, i: nat)
    requires Digits(d) && i < |d|
    ensures Nibble(SemiOctets(d), i) == DigitVal(d[i])
  {
  }

  /** What is stored of a dial string prints as that string. */
  lemma AddressRoundTrip(s: string)
    requires DialString(s)
    ensures AddressString(|DigitsOf(s)|, Toa(s), SemiOctets(DigitsOf(s))) == s
  {
    hide SemiOctets;
    hide Nibble;
    var d := DigitsOf(s);
    forall i | 0 <= i < |d| ensures ('0' as nat + Nibble(SemiOctets(d), i)) as char == d[i] {
      SemiOctetNibbles(d, i);
    }
    assert AddressString(|d|, Toa(s), SemiOctets(d)) == (if Toa(s) == 0x91 then "+" else "") + d;
  }

  lemma OrNibble(lo: nat, hi: nat)
    requires lo < 16 && hi < 16
    ensures Or(lo, 16 * hi) == lo + 16 * hi
  {
    FromToBits(lo, 4);
    FromToBits(hi, 4);
    assert Pow2(4) == 16;
    OrAppend(ToBits(lo, 4), ToBits(hi, 4));
    ShlIsMul(hi, 4);
    assert FromBits(ToBits(lo, 4) + ToBits(hi, 4)) == lo + 16 * hi by {
      FromBitsAppend(ToBits(lo, 4), ToBits(hi, 4));
    }
  }

  /** The digits stored so far, then zero bytes. */
  ghost predicate Stores(data: seq<byte>, d: string) {
    && |data| == MAX_SIZE && Digits(d) && |d| <= 2 * MAX_SIZE
    && (forall i :: 0 <= i < |d| / 2 ==> data[i] == DigitVal(d[2 * i]) + 16 * DigitVal(d[2 * i + 1]))
    && (|d| % 2 == 1 ==> data[|d| / 2] == DigitVal(d[|d| - 1]))
    && (forall i :: (|d| + 1) / 2 <= i < MAX_SIZE ==> data[i] == 0)
  }

  lemma StoresStep(s: seq<byte>, d: string, c: char)
    requires Stores(s, d) && '0' <= c <= '9' && |d| < 2 * MAX_SIZE
    ensures var at, v := |d| / 2, DigitVal(c);
            if |d| % 2 == 0 then Or(s[at], v) < 256 && Stores(s[at := Or(s[at], v)], d + [c])
            else Or(s[at], 16 * v) < 256 && Stores(s[at := Or(s[at], 16 * v)], d + [c])
  {
    hide Or;
    if |d| % 2 == 0 {
      OrZero(DigitVal(c));
    } else {
      OrNibble(s[|d| / 2], DigitVal(c));
    }
  }

  /** The last odd digit gets a filler, and the bytes are the semi-octets. */
  lemma StoresDone(s: seq<byte>, d: string)
    requires Stores(s, d)
    ensures Digits(d)
    ensures |d| % 2 == 0 ==> s[..(|d| + 1) / 2] == SemiOctets(d)
    ensures |d| % 2 == 1 ==>
      Or(s[|d| / 2], 0xF0) < 256 && s[|d| / 2 := Or(s[|d| / 2], 0xF0)][..(|d| + 1) / 2] == SemiOctets(d)
  {
    hide Or;
    hide SemiOctets;
    hide DigitVal;
    if |d| % 2 == 1 {
      LastDigit(s, d);
      OrNibble(s[|d| / 2], 15);
      AllOctets(s[|d| / 2 := Or(s[|d| / 2], 0xF0)], d);
    } else {
      AllOctets(s, d);
    }
  }

  lemma LastDigit(s: seq<byte>, d: string)
    requires Stores(s, d) && |d| % 2 == 1
    ensures s[|d| / 2] == DigitVal(d[|d| - 1]) < 16
  {
  }

  lemma AllOctets(t: seq<byte>, d: string)
    requires Digits(d) && (|d| + 1) / 2 <= |t|
    requires forall i :: 0 <= i < |d| / 2 ==> t[i] == DigitVal(d[2 * i]) + 16 * DigitVal(d[2 * i + 1])
    requires |d| % 2 == 1 ==> t[|d| / 2] == DigitVal(d[|d| - 1]) + 0xF0
    ensures t[..(|d| + 1) / 2] == SemiOctets(d)
  {
    hide DigitVal;
  }

  class Address {
    var len: byte
    var toa: byte
    const data: array<byte>

    ghost predicate Valid()
      reads this
    {
      data.Length == MAX_SIZE
    }

    constructor ()
      ensures Valid() && fresh(data)
    {
      data := new byte[MAX_SIZE];
      len, toa := 0, 0;
    }

    /** The bytes that carry the digits. */
    ghost function Used(): seq<byte>
      requires Valid() && len <= 2 * MAX_SIZE
      reads this, data
    {
      data[..(len + 1) / 2]
    }

    /** The digit loop of sms_address_from_str; -1 for a bad or a 33rd digit. */
    method StoreDigits(src: string, start: nat) returns (n: int)
      requires Valid() && start < |src| && Stores(data[..], "")
      modifies data
      ensures n == if Digits(src[start..]) && |src| - start <= 2 * MAX_SIZE then |src| - start else -1
      ensures n >= 0 ==> data[..(n + 1) / 2] == SemiOctets(src[start..])
    {
      hide Or;
      hide SemiOctets;
      hide Stores;
      hide DigitVal;
      ghost var d := src[start..];
      assert d[..0] == "";
      var i := start;
      var at, shift := 0, 0;
      while i < |src|
        invariant start <= i <= |src| && 0 <= i - start <= 2 * MAX_SIZE
        invariant at == (i - start) / 2 && shift == 4 * ((i - start) % 2)
        invariant Stores(data[..], d[..i - start])
      {
        var c := src[i];
        assert d[i - start] == c;
        if !('0' <= c <= '9') || at >= MAX_SIZE {
          return -1;
        }
        ghost var s, m := data[..], i - start;
        assert s[at] == data[at] && d[..m + 1] == d[..m] + [c];
        StoresStep(s, d[..m], c);
        data[at] := Or(data[at], if shift == 0 then DigitVal(c) else 16 * DigitVal(c));
        assert data[..] == s[at := data[at]];
        i := i + 1;
        shift := shift + 4;
        if shift == 8 {
          shift := 0;
          at := at + 1;
        }
      }
      assert d[..|d|] == d;
      ghost var s := data[..];
      StoresDone(s, d);
      if shift != 0 {
        assert s[at] == data[at];
        data[at] := Or(data[at], 0xF0);
        assert data[..] == s[at := data[at]];
      }
      n := i - start;
      assert data[..(n + 1) / 2] == data[..][..(n + 1) / 2];
    }

    /** sms_address_from_str: accepts exactly the dial strings. */
    method FromStr(src: string) returns (result: int)
      requires Valid()
      modifies this, data
      ensures result == if DialString(src) then 0 else -1
      ensures result == 0 ==> len == |DigitsOf(src)| && toa == Toa(src) && Used() == SemiOctets(DigitsOf(src))
      ensures result != 0 ==> len == 0
    {
      hide SemiOctets;
      len := 0;
      toa := 0x81;
      if |src| == 0 {
        return -1;
      }
      var start := 0;
      if src[0] == '+' {
        toa := 0x91;
        start := 1;
        if start == |src| {
          return -1;
        }
      }
      forall k | 0 <= k < MAX_SIZE {
        data[k] := 0;
      }
      assert DigitsOf(src) == src[start..];
      var n := StoreDigits(src, start);
      if n < 0 {
        return -1;
      }
      len := n;
      result := 0;
    }

    /** sms_address_to_str. */
    method ToStr() returns (str: string)
      requires Valid() && len <= 2 * MAX_SIZE
      ensures str == AddressString(len, toa, Used())
    {
      str := "";
      if toa == 0x91 {
        str := "+";
      }
      ghost var plus := str;
      var i := 0;
      while i < len
        invariant 0 <= i <= len
        invariant |str| == |plus| + i && str[..|plus|] == plus
        invariant forall k :: 0 <= k < i ==> str[|plus| + k] == ('0' as nat + Nibble(Used(), k)) as char
      {
        var c := data[i / 2];
        assert c == Used()[i / 2];
        if i % 2 == 1 {
          c := c / 16;
        }
        str := str + [('0' as nat + c % 16) as char];
        i := i + 1;
      }
    }

    /** sms_get_address on the bytes `buf`, the cursor being an index. */
    method Get(buf: seq<byte>, cur: nat) returns (result: int, next: nat)
      requires Valid()
      modifies this, data
      ensures result == (if Parse(buf, cur).Some? then 0 else -1)
      ensures result == 0 ==>
        var p := Parse(buf, cur).value;
        len == p.len && toa == p.toa && len <= 2 * MAX_SIZE && Used() == p.used && next == p.next
      ensures result != 0 ==> next == cur
    {
      result := -1;
      next := cur;
      if cur >= |buf| {
        return;
      }
      var dlen: nat := buf[cur];
      if dlen == 0 {
        len := 0;
        toa := 0;
        return 0, cur + 1;
      }
      if cur + 2 + (dlen + 1) / 2 > |buf| {
        return;
      }
      len := dlen;
      toa := buf[cur + 1];
      var n: nat := (dlen + 1) / 2;
      if n > MAX_SIZE {
        return;
      }
      forall k | 0 <= k < n {
        data[k] := buf[cur + 2 + k];
      }
      assert data[..n] == buf[cur + 2..cur + 2 + n];
      return 0, cur + 2 + n;
    }
  }

  datatype Parsed = Parsed(len: byte, toa: byte, used: seq<byte>, next: nat)

  /** An address field: digit count, type, semi-octets; a zero count stands alone. */
  function Parse(buf: seq<byte>, cur: nat): (r: Option<Parsed>)
    ensures r.Some? ==> r.value.next <= |buf| && |r.value.used| == (r.value.len + 1) / 2
                        && r.value.len <= 2 * MAX_SIZE
  {
    if cur >= |buf| then None
    else
      var dlen: nat := buf[cur];
      var n: nat := (dlen + 1) / 2;
      if dlen == 0 then Some(Parsed(0, 0, [], cur + 1))
      else if cur + 2 + n > |buf| || n > MAX_SIZE then None
      else Some(Parsed(dlen, buf[cur + 1], buf[cur + 2..cur + 2 + n], cur + 2 + n))
  }

  /** What gsm_rope_add_address appends. */
  function AddressBytes(len: byte, toa: byte, used: seq<byte>): (bs: seq<byte>)
    requires |used| == (len + 1) / 2
    ensures |bs| == 2 + (len + 1) / 2
  {
    [len, toa] + (if len % 2 == 1 then used[..|used| - 1] + [HighFilled(used[|used| - 1])] else used)
  }

  /** `b | 0xf0`. */
  function HighFilled(b: byte): byte {
    0xF0 + b % 16
  }

  lemma OrLowNibble(b: nat, y: nat)
    ensures Or(b, 16 * y) == b - 16 * (b / 16) + 16 * Or(b / 16, y)
  {
    hide Or;
    var b1 := b / 2;
    var b2 := b1 / 2;
    var b3 := b2 / 2;
    assert b / 16 == b3 / 2;
    OrStep(b, 16 * y);
    OrStep(b1, 8 * y);
    OrStep(b2, 4 * y);
    OrStep(b3, 2 * y);
  }

  lemma OrFifteen(h: nat)
    requires h < 16
    ensures Or(h, 15) == 15
  {
    hide Or;
    OrStep(h, 15);
    OrStep(h / 2, 7);
    OrStep(h / 4, 3);
    OrStep(h / 8, 1);
    OrZero(0);
  }

  lemma OrHigh(b: byte)
    ensures Or(b, 0xF0) == HighFilled(b)
  {
    hide Or;
    OrLowNibble(b, 15);
    OrFifteen(b / 16);
  }

  /** gsm_rope_add_address, where the address fits the storage or there is none. */
  method AddAddress(rope: GsmRope, addr: Address)
    requires rope.Valid() && addr.Valid() && addr.len <= 2 * MAX_SIZE && rope.data != addr.data
    requires rope.data != null ==> !rope.error && rope.pos + 2 + (addr.len + 1) / 2 <= rope.max
    modifies rope, rope.data
    ensures rope.Valid()
    ensures rope.Appended(AddressBytes(addr.len, addr.toa, addr.Used()))
  {
    hide Or, Splice, HighFilled, AddressBytes;
    ghost var used, was, at := addr.Used(), if rope.data != null then rope.data[..] else [], rope.pos;
    ghost var head := [addr.len] + [addr.toa];
    rope.AddC(addr.len);
    rope.AddC(addr.toa);
    var n: nat := (addr.len + 1) / 2;
    rope.Add(addr.data[..n]);
    if rope.data != null {
      SpliceSplice(was, at, [addr.len], [addr.toa]);
      SpliceSplice(was, at, head, used);
    }
    if addr.len % 2 == 1 {
      if !rope.error && rope.data != null {
        ghost var s := rope.data[..];
        OrHigh(rope.data[rope.pos - 1]);
        LastFilled(was, at, head, used);
        rope.data[rope.pos - 1] := Or(rope.data[rope.pos - 1], 0xF0);
        assert rope.data[..] == s[rope.pos - 1 := HighFilled(s[rope.pos - 1])];
      }
    }
    FieldParts(addr.len, addr.toa, used);
  }

  lemma FieldParts(len: byte, toa: byte, used: seq<byte>)
    requires |used| == (len + 1) / 2
    ensures var n := |used|;
            AddressBytes(len, toa, used) ==
            if len % 2 == 1 then [len] + [toa] + (used[..n - 1] + [HighFilled(used[n - 1])]) else [len] + [toa] + used
  {
    hide HighFilled;
  }

  lemma LastFilled(was: seq<byte>, at: nat, head: seq<byte>, used: seq<byte>)
    requires used != [] && at + |head| + |used| <= |was|
    ensures var s, last := Splice(was, at, head + used), at + |head| + |used| - 1;
            s[last := HighFilled(s[last])]
            == Splice(was, at, head + (used[..|used| - 1] + [HighFilled(used[|used| - 1])]))
  {
  }

  /** Address chain: from a dial string through the rope bytes and back. */
  lemma AddressChain(s: string, before: seq<byte>, after: seq<byte>)
    requires DialString(s)
    ensures |DigitsOf(s)| < 256
    ensures var d := DigitsOf(s);
            var field := AddressBytes(|d|, Toa(s), SemiOctets(d));
            var r := Parse(before + field + after, |before|);
            r.Some? && r.value.next == |before| + 2 + (|d| + 1) / 2
            && AddressString(r.value.len, r.value.toa, r.value.used) == s
  {
    var d := DigitsOf(s);
    var used := SemiOctets(d);
    var field := AddressBytes(|d|, Toa(s), used);
    if |d| % 2 == 1 { FilledAlready(d); }
    assert field == [|d| as byte, Toa(s)] + used;
    var buf := before + field + after;
    assert buf[|before|] == |d| && buf[|before| + 1] == Toa(s);
    assert buf[|before| + 2..|before| + 2 + (|d| + 1) / 2] == used;
    AddressRoundTrip(s);
  }

  lemma FilledAlready(d: string)
    requires Digits(d) && |d| % 2 == 1
    ensures var u := SemiOctets(d); u[..|u| - 1] + [HighFilled(u[|u| - 1])] == u
  {
  }
}
