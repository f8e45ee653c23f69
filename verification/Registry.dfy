/** The handler registry of sxx-ril-manager.c: flat tables filled by scanning, where a
    handler for the detected modem overrides a generic one. */
module Registry {
  import opened Basics

  const GENERIC: int := -1
  const CAPACITY: nat := 256

  /** A registration, and a slot of a table; handler 0 is the null pointer. */
  datatype Item<K> = Item(key: K, handler: nat, vidPid: int)

  // ----- what one registration does

  predicate Accepted<K>(modem: int, it: Item<K>) {
    it.vidPid == GENERIC || it.vidPid == modem
  }

  /** The first item for `key`, or the end. */
  function Find<K(==)>(t: seq<Item<K>>, key: K): (k: nat)
    ensures k <= |t|
    ensures forall i :: 0 <= i < k ==> t[i].key != key
    ensures k < |t| ==> t[k].key == key
  {
    if t == [] || t[0].key == key then 0 else 1 + Find(t[1..], key)
  }

  function Registered<K(==)>(t: seq<Item<K>>, modem: int, it: Item<K>): seq<Item<K>> {
    var k := Find(t, it.key);
    if !Accepted(modem, it) then t
    else if k == |t| then (if |t| < CAPACITY then t + [it] else t)
    else if t[k].vidPid != GENERIC then t
    else t[k := it]
  }

  ghost predicate Distinct<K>(t: seq<Item<K>>) {
    forall i, j :: 0 <= i < j < |t| ==> t[i].key != t[j].key
  }

  lemma FindIs<K>(t: seq<Item<K>>, key: K, k: nat)
    requires k <= |t| && (forall i :: 0 <= i < k ==> t[i].key != key) && (k < |t| ==> t[k].key == key)
    ensures Find(t, key) == k
  {
  }

  // ----- the table

  class Table<K(==)> {
    const none: K
    const modem: int
    const slots: array<Item<K>>
    /** The occupied slots, which form a prefix. */
    ghost var items: seq<Item<K>>

    ghost predicate Valid()
      reads this, slots
    {
      && slots.Length == CAPACITY && |items| <= CAPACITY
      && (forall i :: 0 <= i < |items| ==> slots[i] == items[i] && items[i].key != none && items[i].handler != 0)
      && (forall i :: |items| <= i < CAPACITY ==> slots[i].key == none && slots[i].handler == 0)
      && Distinct(items)
    }

    constructor (noKey: K, vidPid: int)
      ensures Valid() && none == noKey && modem == vidPid && items == [] && fresh(slots)
    {
      none, modem := noKey, vidPid;
      slots := new Item<K>[CAPACITY](_ => Item(noKey, 0, 0));
      items := [];
    }

    /** register_request and register_unsolicited. */
    method Register(it: Item<K>)
      requires Valid() && it.key != none && it.handler != 0
      modifies this`items, slots
      ensures Valid() && items == Registered(old(items), modem, it)
    {
      if it.vidPid != GENERIC && it.vidPid != modem {
        return;
      }
      var i := 0;
      while i < CAPACITY
        invariant i <= |items|
        invariant forall j :: 0 <= j < i ==> items[j].key != it.key
        invariant items == old(items) && slots[..] == old(slots[..])
      {
        if slots[i].key != none && slots[i].key != it.key {
          i := i + 1;
          continue;
        }
        FindIs(items, it.key, i);
        if slots[i].key != none && slots[i].vidPid != GENERIC {
          return;
        }
        slots[i] := it;
        items := if i < |items| then items[i := it] else items + [it];
        return;
      }
      FindIs(items, it.key, CAPACITY);
    }

    /** process_request: the handler that runs, 0 when none does. */
    method Lookup(key: K) returns (h: nat)
      requires Valid() && key != none
      ensures h == HandlerOf(items, key)
    {
      for i := 0 to CAPACITY
        invariant i <= |items|
        invariant forall j :: 0 <= j < i ==> items[j].key != key
      {
        if slots[i].handler == 0 {
          FindIs(items, key, i);
          return 0;
        }
        if slots[i].key == key {
          FindIs(items, key, i);
          return slots[i].handler;
        }
      }
      FindIs(items, key, CAPACITY);
      return 0;
    }
  }

  function HandlerOf<K(==)>(t: seq<Item<K>>, key: K): nat {
    var k := Find(t, key);
    if k < |t| then t[k].handler else 0
  }

  /** strStartsWith. */
  method StartsWith(line: string, prefix: string) returns (b: bool)
    ensures b <==> prefix <= line
  {
    var i := 0;
    while i < |line| && i < |prefix|
      invariant i <= |line| && i <= |prefix|
      invariant forall j :: 0 <= j < i ==> line[j] == prefix[j]
    {
      if line[i] != prefix[i] {
        return false;
      }
      i := i + 1;
    }
    return i == |prefix|;
  }

  predicate Matches(it: Item<Option<string>>, s: string) {
    it.key.Some? && it.key.value <= s
  }

  function FirstMatch(t: seq<Item<Option<string>>>, s: string): nat {
    if t == [] then 0 else if Matches(t[0], s) then t[0].handler else FirstMatch(t[1..], s)
  }

  /** process_unsolicited: the handler of the first registered prefix of the line. */
  method ProcessUnsolicited(table: Table<Option<string>>, s: string) returns (h: nat)
    requires table.Valid() && table.none == None
    ensures h == FirstMatch(table.items, s)
  {
    ghost var t := table.items;
    for i := 0 to CAPACITY
      invariant i <= |t|
      invariant FirstMatch(t, s) == FirstMatch(t[i..], s)
    {
      if table.slots[i].key == None {
        return 0;
      }
      var b := StartsWith(s, table.slots[i].key.value);
      assert t[i..][0] == t[i] && t[i..][1..] == t[i + 1..];
      if b {
        return table.slots[i].handler;
      }
    }
    return 0;
  }

  // ----- any sequence of registrations

  function Run<K(==)>(modem: int, regs: seq<Item<K>>): seq<Item<K>> {
    if regs == [] then [] else Registered(Run(modem, regs[..|regs| - 1]), modem, regs[|regs| - 1])
  }

  /** The accepted codes in order of their first registration. */
  function Codes<K(==)>(modem: int, regs: seq<Item<K>>): seq<K> {
    if regs == [] then []
    else
      var c, it := Codes(modem, regs[..|regs| - 1]), regs[|regs| - 1];
      if Accepted(modem, it) && it.key !in c then c + [it.key] else c
  }

  function FirstSpecific<K(==)>(modem: int, regs: seq<Item<K>>, key: K): Option<Item<K>> {
    if regs == [] then None
    else if regs[0].key == key && regs[0].vidPid == modem && modem != GENERIC then Some(regs[0])
    else FirstSpecific(modem, regs[1..], key)
  }

  function LastGeneric<K(==)>(regs: seq<Item<K>>, key: K): Option<Item<K>> {
    if regs == [] then None
    else
      var it := regs[|regs| - 1];
      if it.key == key && it.vidPid == GENERIC then Some(it) else LastGeneric(regs[..|regs| - 1], key)
  }

  /** The override rule. */
  function Winner<K(==)>(modem: int, regs: seq<Item<K>>, key: K): Option<Item<K>> {
    var s := FirstSpecific(modem, regs, key);
    if s.Some? then s else LastGeneric(regs, key)
  }

  lemma {:induction false} FirstSpecificNext<K>(modem: int, regs: seq<Item<K>>, it: Item<K>, key: K)
    ensures FirstSpecific(modem, regs + [it], key) ==
            var s := FirstSpecific(modem, regs, key);
            if s.Some? then s
            else if it.key == key && it.vidPid == modem && modem != GENERIC then Some(it) else None
  {
    if regs == [] {
      assert (regs + [it])[1..] == [];
    } else {
      FirstSpecificNext(modem, regs[1..], it, key);
      assert (regs + [it])[1..] == regs[1..] + [it];
    }
  }

  lemma WinnerNext<K>(modem: int, regs: seq<Item<K>>, it: Item<K>, key: K)
    ensures Winner(modem, regs + [it], key) ==
            var w := Winner(modem, regs, key);
            if it.key != key || !Accepted(modem, it) then w
            else if w.Some? && w.value.vidPid != GENERIC then w
            else Some(it)
  {
    FirstSpecificNext(modem, regs, it, key);
    assert (regs + [it])[..|regs|] == regs;
    WinnerKinds(modem, regs, key);
  }

  lemma {:induction false} SpecificKind<K>(modem: int, regs: seq<Item<K>>, key: K)
    ensures var s := FirstSpecific(modem, regs, key);
            s.Some? ==> s.value.key == key && s.value.vidPid == modem != GENERIC
  {
    if regs != [] { SpecificKind(modem, regs[1..], key); }
  }

  lemma {:induction false} GenericKind<K>(regs: seq<Item<K>>, key: K)
    ensures var g := LastGeneric(regs, key); g.Some? ==> g.value.key == key && g.value.vidPid == GENERIC
  {
    if regs != [] { GenericKind(regs[..|regs| - 1], key); }
  }

  lemma WinnerKinds<K>(modem: int, regs: seq<Item<K>>, key: K)
    ensures var w := Winner(modem, regs, key); w.Some? ==> w.value.key == key
    ensures FirstSpecific(modem, regs, key).Some? <==>
            Winner(modem, regs, key).Some? && Winner(modem, regs, key).value.vidPid != GENERIC
  {
    SpecificKind(modem, regs, key);
    GenericKind(regs, key);
  }

  ghost predicate Agrees<K>(modem: int, regs: seq<Item<K>>, t: seq<Item<K>>) {
    var c := Codes(modem, regs);
    && |t| == (if |c| <= CAPACITY then |c| else CAPACITY)
    && forall i :: 0 <= i < |t| ==> t[i].key == c[i] && Some(t[i]) == Winner(modem, regs, c[i])
  }

  lemma {:induction false} CodesDistinct<K>(modem: int, regs: seq<Item<K>>)
    ensures forall i, j :: 0 <= i < j < |Codes(modem, regs)| ==> Codes(modem, regs)[i] != Codes(modem, regs)[j]
  {
    if regs != [] { CodesDistinct(modem, regs[..|regs| - 1]); }
  }

  /** A code is listed exactly when it has a winner. */
  lemma {:induction false} CodesIff<K>(modem: int, regs: seq<Item<K>>, key: K)
    ensures key in Codes(modem, regs) <==> Winner(modem, regs, key).Some?
  {
    if regs != [] {
      var rest, it := regs[..|regs| - 1], regs[|regs| - 1];
      CodesIff(modem, rest, key);
      assert regs == rest + [it];
      WinnerNext(modem, rest, it, key);
    }
  }

  lemma CodesNext<K>(modem: int, regs: seq<Item<K>>, it: Item<K>)
    ensures var c := Codes(modem, regs);
            Codes(modem, regs + [it]) == if Accepted(modem, it) && it.key !in c then c + [it.key] else c
    ensures Run(modem, regs + [it]) == Registered(Run(modem, regs), modem, it)
  {
    assert (regs + [it])[..|regs|] == regs;
  }

  lemma StepAgrees<K>(modem: int, regs: seq<Item<K>>, it: Item<K>, t: seq<Item<K>>)
    requires Agrees(modem, regs, t)
    ensures Agrees(modem, regs + [it], Registered(t, modem, it))
  {
    hide Winner, Codes, Run;
    var c, c' := Codes(modem, regs), Codes(modem, regs + [it]);
    CodesNext(modem, regs, it);
    CodesDistinct(modem, regs);
    var t' := Registered(t, modem, it);
    var k := Find(t, it.key);
    forall i | 0 <= i < |t'| ensures t'[i].key == c'[i] && Some(t'[i]) == Winner(modem, regs + [it], c'[i]) {
      WinnerNext(modem, regs, it, c'[i]);
      CodesIff(modem, regs, c'[i]);
      if i < |t| { assert t[i].key == c[i] == c'[i]; }
    }
    if k == |t| && it.key in c { BeyondCapacity(modem, regs, it.key, t); }
  }

  lemma BeyondCapacity<K>(modem: int, regs: seq<Item<K>>, key: K, t: seq<Item<K>>)
    requires Agrees(modem, regs, t) && Find(t, key) == |t| && key in Codes(modem, regs)
    ensures |t| == CAPACITY
  {
    var c := Codes(modem, regs);
    var i :| 0 <= i < |c| && c[i] == key;
    if i < |t| { assert t[i].key == key; }
  }

  /** After any registrations the occupied slots hold the first accepted codes, each once,
      with the handler that the override rule picks, whatever the interleaving. */
  lemma {:induction false} RunAgrees<K>(modem: int, regs: seq<Item<K>>)
    ensures Agrees(modem, regs, Run(modem, regs)) && Distinct(Run(modem, regs))
  {
    CodesDistinct(modem, regs);
    if regs != [] {
      var rest, it := regs[..|regs| - 1], regs[|regs| - 1];
      assert regs == rest + [it];
      RunAgrees(modem, rest);
      CodesNext(modem, rest, it);
      StepAgrees(modem, rest, it, Run(modem, rest));
    }
  }

  /** A request runs its winner exactly when its code was among the first 256 accepted;
      otherwise nothing runs. */
  lemma Dispatch<K>(modem: int, regs: seq<Item<K>>, key: K)
    ensures key in Kept(modem, regs) ==> Winner(modem, regs, key).Some?
    ensures HandlerOf(Run(modem, regs), key) ==
            if key in Kept(modem, regs) then Winner(modem, regs, key).value.handler else 0
  {
    hide Winner, Run, Codes;
    RunAgrees(modem, regs);
    CodesIff(modem, regs, key);
    var t, c := Run(modem, regs), Codes(modem, regs);
    var k := Find(t, key);
    if k == |t| {
      assert forall i :: 0 <= i < |t| ==> c[i] == t[i].key && t[i].key != key;
    } else {
      assert t[k].key == c[k] == key;
    }
  }

  function Kept<K(==)>(modem: int, regs: seq<Item<K>>): seq<K> {
    var c := Codes(modem, regs);
    if |c| <= CAPACITY then c else c[..CAPACITY]
  }

  /** The first prefix of `s`, in order of first registration. */
  function FirstPrefix(c: seq<Option<string>>, s: string): (i: nat)
    ensures i <= |c|
  {
    if c == [] || (c[0].Some? && c[0].value <= s) then 0 else 1 + FirstPrefix(c[1..], s)
  }

  lemma {:induction false} MatchByPrefix(t: seq<Item<Option<string>>>, c: seq<Option<string>>, s: string)
    requires |t| == |c| && forall i :: 0 <= i < |t| ==> t[i].key == c[i]
    ensures var i := FirstPrefix(c, s); FirstMatch(t, s) == if i < |t| then t[i].handler else 0
    decreases |t|
  {
    if t != [] && !Matches(t[0], s) { MatchByPrefix(t[1..], c[1..], s); }
  }

  /** An unsolicited line runs the winner of the prefix that was registered first. */
  lemma UnsolicitedDispatch(modem: int, regs: seq<Item<Option<string>>>, s: string)
    ensures var c := Kept(modem, regs);
            var i := FirstPrefix(c, s);
            i < |c| ==> Winner(modem, regs, c[i]).Some?
    ensures var c := Kept(modem, regs);
            var i := FirstPrefix(c, s);
            FirstMatch(Run(modem, regs), s) == if i < |c| then Winner(modem, regs, c[i]).value.handler else 0
  {
    hide Winner, Run, Codes;
    RunAgrees(modem, regs);
    MatchByPrefix(Run(modem, regs), Kept(modem, regs), s);
  }

  /** The registrations of one kind, in order. */
  function Only<K>(modem: int, regs: seq<Item<K>>, specific: bool): seq<Item<K>> {
    if regs == [] then []
    else
      var rest, it := Only(modem, regs[..|regs| - 1], specific), regs[|regs| - 1];
      if Accepted(modem, it) && (it.vidPid != GENERIC) == specific then rest + [it] else rest
  }

  lemma {:induction false} WinnerByKind<K>(modem: int, regs: seq<Item<K>>, key: K)
    ensures FirstSpecific(modem, regs, key) == FirstSpecific(modem, Only(modem, regs, true), key)
    ensures LastGeneric(regs, key) == LastGeneric(Only(modem, regs, false), key)
  {
    if regs != [] {
      var rest, it := regs[..|regs| - 1], regs[|regs| - 1];
      WinnerByKind(modem, rest, key);
      assert regs == rest + [it];
      FirstSpecificNext(modem, rest, it, key);
      FirstSpecificNext(modem, Only(modem, rest, true), it, key);
    }
  }

  /** While the table has room only the order within the generic and within the specific
      registrations matters, not how the two interleave. */
  lemma InterleavingIrrelevant<K>(modem: int, a: seq<Item<K>>, b: seq<Item<K>>, key: K)
    requires Only(modem, a, true) == Only(modem, b, true) && Only(modem, a, false) == Only(modem, b, false)
    requires |Codes(modem, a)| <= CAPACITY && |Codes(modem, b)| <= CAPACITY
    ensures HandlerOf(Run(modem, a), key) == HandlerOf(Run(modem, b), key)
  {
    hide Run, Codes, HandlerOf, Only, FirstSpecific, LastGeneric;
    WinnerByKind(modem, a, key);
    WinnerByKind(modem, b, key);
    Dispatch(modem, a, key);
    Dispatch(modem, b, key);
    CodesIff(modem, a, key);
    CodesIff(modem, b, key);
  }

  // ----- one code too many

  /** Generic registrations of the codes 1 to `n`. */
  function Ascending(n: nat): (regs: seq<Item<int>>)
    ensures |regs| == n
  {
    seq(n, i requires 0 <= i < n => Item(i + 1, 1, -1))
  }

  lemma {:induction false} CodesAscend(modem: int, n: nat)
    ensures var c := Codes(modem, Ascending(n));
            |c| == n && forall i :: 0 <= i < n ==> c[i] == i + 1
  {
    if n > 0 {
      CodesAscend(modem, n - 1);
      assert Ascending(n)[..n - 1] == Ascending(n - 1);
    }
  }

  /** The 257th code has no handler, the 256th has. */
  lemma OneTooMany(modem: int)
    ensures HandlerOf(Run(modem, Ascending(257)), 257) == 0 && 257 in Codes(modem, Ascending(257))
  {
    hide Run, HandlerOf, Winner, Codes;
    CodesAscend(modem, 257);
    Dispatch(modem, Ascending(257), 257);
    var c := Codes(modem, Ascending(257));
    assert c[256] == 257;
    assert forall i :: 0 <= i < 256 ==> c[..256][i] == i + 1;
  }
}
