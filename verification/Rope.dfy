/** The growable byte buffer of helper/gsm.c: with no storage it only measures,
    with storage it writes, growing when it must. */
module Rope {
  import opened Basics
  import opened Bits

  const INLINE := 16

  class GsmRope {
    var data: array?<byte>
    var max: nat
    var pos: nat
    var error: bool
    const data0: array<byte>

    /** Bytes past the inline buffer are never the rope's own; `max` is what `data` holds. */
    ghost predicate Valid()
      reads this
    {
      && data0.Length == INLINE
      && (data != null ==> data.Length == max && (!error ==> pos <= max))
    }

    constructor ()
      ensures Valid() && data == null && pos == 0 && !error && fresh(data0)
    {
      data0 := new byte[INLINE];
      data := null;
      pos, max, error := 0, 0, false;
    }

    /** gsm_rope_init: no storage, so the rope measures. */
    method Init()
      requires data0.Length == INLINE
      modifies this
      ensures Valid() && data == null && pos == 0 && !error
    {
      data := null;
      pos := 0;
      max := 0;
      error := false;
    }

    /** gsm_rope_init_alloc; the allocation is taken to succeed. */
    method InitAlloc(count: nat)
      requires data0.Length == INLINE
      modifies this
      ensures Valid() && data != null && pos == 0 && !error
      ensures count == 0 ==> data == data0
      ensures count > 0 ==> fresh(data) && data.Length == count && forall k :: 0 <= k < count ==> data[k] == 0
    {
      data := data0;
      pos := 0;
      max := INLINE;
      error := false;
      if count > 0 {
        data := new byte[count](_ => 0);
        max := count;
      }
    }

    /** gsm_rope_ensure: realloc copies the old heap block, but nothing out of
        the inline buffer. */
    method Ensure(newCount: nat)
      requires Valid()
      modifies this
      ensures Valid()
      ensures pos == old(pos) && error == old(error) && newCount <= max
      ensures old(data) == null ==> data == null && max == newCount
      ensures old(data) != null ==> fresh(data) && data.Length == max
      ensures old(data) != null && old(data) != data0 ==>
                forall k :: 0 <= k < old(max) && k < max ==> data[k] == old(data[k])
    {
      if data != null {
        var oldMax, oldData := max, data;
        var newMax := oldMax;
        while newMax < newCount
          invariant oldMax <= newMax
          decreases newCount - newMax
        {
          newMax := newMax + newMax / 2 + 4;
        }
        var newData := new byte[newMax];
        if oldData != data0 {
          forall k | 0 <= k < oldMax {
            newData[k] := oldData[k];
          }
        }
        data := newData;
        max := newMax;
      } else {
        max := newCount;
      }
    }

    method CanGrow(count: nat) returns (ok: bool)
      requires Valid()
      modifies this
      ensures Valid() && pos == old(pos) && error == old(error)
      ensures ok == (old(data) != null && !error)
      ensures ok ==> data != null && pos + count <= max
      ensures ok && old(pos) + count > old(max) ==> fresh(data)
      ensures ok && old(pos) + count > old(max) && old(data) != data0 ==> data[..pos] == old(data[..pos])
      ensures !ok || old(pos) + count <= old(max) ==> data == old(data) && max == old(max)
    {
      if data == null || error {
        return false;
      }
      if pos + count > max {
        Ensure(pos + count);
      }
      return true;
    }

    /** What appending `bs` does: measuring only counts, a fitting write stores in
        place, and a growing write keeps what a heap block held. */
    twostate predicate Appended(bs: seq<byte>)
      requires old(Valid()) && Valid()
      reads this, data
    {
      && pos == old(pos) + |bs| && error == old(error)
      && (old(data) == null ==> data == null && max == old(max))
      && (old(data) != null && !old(error) ==> data != null)
      && (old(data) != null && !old(error) && old(pos) + |bs| <= old(max) ==>
            data == old(data) && max == old(max) && data[..] == Splice(old(data[..]), old(pos), bs))
      && (old(data) != null && !old(error) && old(pos) + |bs| > old(max) ==>
            && fresh(data) && data[old(pos)..pos] == bs
            && (old(data) != data0 ==> data[..old(pos)] == old(data[..pos])))
    }

    method Add(buf: seq<byte>)
      requires Valid()
      modifies this, data
      ensures Valid() && Appended(buf)
    {
      var ok := CanGrow(|buf|);
      if ok {
        forall k | 0 <= k < |buf| {
          data[pos + k] := buf[k];
        }
      }
      pos := pos + |buf|;
    }

    method AddC(c: byte)
      requires Valid()
      modifies this, data
      ensures Valid() && Appended([c])
    {
      var ok := CanGrow(1);
      if ok {
        data[pos] := c;
      }
      pos := pos + 1;
    }

    /** gsm_rope_reserve: where the caller may write, if anywhere. */
    method Reserve(count: nat) returns (at: int)
      requires Valid()
      modifies this
      ensures Valid() && pos == old(pos) + count && error == old(error)
      ensures at == if old(data) != null && !error then old(pos) else -1
      ensures at == -1 || old(pos) + count <= old(max) ==> data == old(data) && max == old(max)
      ensures at >= 0 ==> data != null
      ensures at >= 0 && old(pos) + count > old(max) ==> fresh(data)
      ensures at >= 0 && old(pos) + count > old(max) && old(data) != data0 ==>
                data[..old(pos)] == old(data[..pos])
    {
      at := -1;
      var ok := CanGrow(count);
      if ok {
        at := pos;
      }
      pos := pos + count;
    }
  }
}
