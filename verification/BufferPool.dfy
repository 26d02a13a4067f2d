/**
  The pool of data buffers a CManager keeps: buffers are lent out by reference count and lent again, and
  buffers whose memory belongs to a transport are handed back to it when their last holder is done.
 */
module BufferPool {
  import opened Bytes
  import opened Collections

  class Buffer {
    var size: nat
    var refCount: int
    const callback: bool     // whether it came with a return_callback
    ghost var fired: nat     // how often that callback has run

    constructor (size: nat, callback: bool)
      ensures this.size == size && refCount == 1 && this.callback == callback && fired == 0
    {
      this.size, refCount, this.callback, fired := size, 1, callback, 0;
    }

    predicate Free()
      reads this`refCount
    {
      refCount <= 0
    }

    /** Big enough for `length`, but not too big. */
    predicate Fits(length: nat)
      reads this`size
    {
      Suits(size, length)
    }

    /** The callback gives the memory back, after which nobody may use it. */
    method Fire()
      requires callback && refCount == 0 && fired == 0
      modifies this`fired
      ensures fired == 1
    {
      fired := 1;
    }
  }

  /** Not too small, and less than about ten times too big. */
  predicate Suits(size: nat, length: nat) {
    size >= length && size / 10 < length
  }

  lemma SuitsMeans(size: nat, length: nat)
    ensures Suits(size, length) ==> size >= length && size / 10 < length
  {
  }

  lemma OneMore(list: seq<Buffer>, b: Buffer)
    requires Distinct(list) && b !in list
    ensures Distinct([b] + list)
    ensures forall other :: other in [b] + list <==> other == b || other in list
  {
  }

  class Pool {
    var list: seq<Buffer>             // cm_buffer_list
    ghost var plain: set<Buffer>      // those without a callback
    ghost var held: set<Buffer>       // those of them that someone holds
    ghost var peak: nat               // the most that were ever held at once
    ghost var gone: set<Buffer>       // those given back through their callbacks

    /**
      The pool never has more buffers of its own than were held at once at some time, and a buffer with a
      callback is in the list as long as it is held; then its callback has run once.
     */
    ghost predicate Valid()
      reads this, list, gone
    {
      ValidBut({})
    }

    /** `ending`: a buffer with a callback whose last holder has just returned it. */
    ghost predicate ValidBut(ending: set<Buffer>)
      reads this, list, gone
    {
      && Distinct(list)
      && (forall b <- list :: b in plain <==> !b.callback)
      && (forall b <- list :: b in held <==> !b.callback && b.refCount > 0)
      && (forall b <- plain :: b in list)
      && held <= plain
      && |held| <= peak && |plain| <= peak
      && (forall b <- list :: b.fired == 0 && b !in gone && (b.callback && b !in ending ==> b.refCount > 0))
      && (forall b <- gone :: b.callback && b.fired == 1 && b.refCount == 0)
    }

    constructor ()
      ensures Valid() && list == [] && peak == 0 && gone == {}
    {
      list, plain, held, peak, gone := [], {}, {}, 0, {};
    }

    /** create_data_and_link_buffer: memory that comes with a callback. */
    method Link(size: nat) returns (b: Buffer)
      requires Valid()
      modifies this`list
      ensures Valid() && fresh(b) && b.callback && b.refCount == 1 && b.size == size
      ensures list == [b] + old(list)
    {
      hide Distinct;
      b := new Buffer(size, true);
      OneMore(list, b);
      list := [b] + list;
    }

    /** The first free buffer that fits. */
    method FindFitting(length: nat) returns (at: nat)
      ensures at <= |list|
      ensures at < |list| ==> list[at].Free() && list[at].Fits(length)
      ensures forall i :: 0 <= i < at ==> !(list[i].Free() && list[i].Fits(length))
    {
      at := 0;
      while at < |list| && !(list[at].refCount <= 0 && list[at].size >= length && list[at].size / 10 < length)
        invariant at <= |list|
        invariant forall i :: 0 <= i < at ==> !(list[i].Free() && list[i].Fits(length))
      {
        at := at + 1;
      }
    }

    /** The first free buffer at least, or at most, as big as asked for. */
    method FindToResize(length: nat, down: bool) returns (at: nat)
      ensures at <= |list|
      ensures at < |list| ==> list[at].Free() && if down then list[at].size >= length else list[at].size <= length
      ensures forall i :: 0 <= i < at ==>
        !(list[i].Free() && if down then list[i].size >= length else list[i].size <= length)
    {
      at := 0;
      while at < |list| &&
          !(list[at].refCount <= 0 && if down then list[at].size >= length else list[at].size <= length)
        invariant at <= |list|
        invariant forall i :: 0 <= i < at ==>
          !(list[i].Free() && if down then list[i].size >= length else list[i].size <= length)
      {
        at := at + 1;
      }
    }

    /**
      The three searches: a free buffer that fits, one that is way too big, one that is too small.  They fail
      only when no buffer is free.
     */
    method FindReusable(length: nat) returns (at: nat, size: nat)
      requires length > 0
      ensures at <= |list|
      ensures at < |list| ==> list[at].Free() && Suits(size, length)
      ensures at == |list| ==> forall b <- list :: !b.Free()
      ensures at < |list| && (exists b <- list :: b.Free() && b.Fits(length)) ==> list[at].Fits(length) && size == list[at].size
      ensures (forall b <- list :: !(b.Free() && b.Fits(length))) ==> size == length
    {
      at := FindFitting(length);
      if at < |list| {
        return at, list[at].size;
      }
      size := length;
      at := FindToResize(length, true);
      if at == |list| {
        at := FindToResize(length, false);
      }
    }

    /** Give out a free buffer. */
    method Lend(b: Buffer, size: nat)
      requires Valid() && b in list && b.Free()
      modifies b`size, b`refCount, this`held, this`peak
      ensures Valid() && b.size == size && b.refCount == 1 && !b.callback
      ensures held == old(held) + {b} && peak == Max(old(peak), |held|)
    {
      b.size := size;
      b.refCount := 1;
      held := held + {b};
      peak := Max(peak, |held|);
    }

    /**
      cm_get_data_buf.  A free buffer is used again whenever there is one; `memory` says whether a realloc
      succeeds.  No other buffer changes.
     */
    method Get(length: nat, memory: bool) returns (buf: Option<Buffer>)
      requires Valid() && length > 0
      modifies this`list, this`plain, this`held, this`peak, list
      ensures Valid() && gone == old(gone)
      ensures buf.Some? ==>
        var b := buf.value;
        && b in list && !b.callback && b.refCount == 1 && b.size >= length && b.size / 10 < length
        && held == old(held) + {b} && peak == Max(old(peak), |held|)
      ensures old(exists b <- list :: b.Free() && b.Fits(length)) ==>
        buf.Some? && !fresh(buf.value) && buf.value.size == old(buf.value.size)
      ensures buf.Some? && !fresh(buf.value) ==> list == old(list) && old(allocated(buf.value) && buf.value.Free())
      ensures buf.Some? && fresh(buf.value) ==> list == [buf.value] + old(list) && old(forall other <- list :: !other.Free())
      ensures buf.None? ==> !memory && !old(forall other <- list :: !other.Free())
      ensures buf.None? ==> list == old(list) && held == old(held) && peak == old(peak)
      ensures forall b <- old(list) :: Some(b) != buf ==> b.size == old(b.size) && b.refCount == old(b.refCount)
    {
      hide Valid, Suits, Max;
      var at, size := FindReusable(length);
      SuitsMeans(size, length);
      SuitsMeans(length, length);
      if at == |list| {
        var b := Fresh(length);
        return Some(b);
      }
      var b := list[at];
      if size != b.size && !memory {
        return None;
      }
      Lend(b, size);
      buf := Some(b);
    }

    /** A buffer is made only when all the pool has are held. */
    method Fresh(length: nat) returns (b: Buffer)
      requires Valid() && length > 0 && forall b <- list :: !b.Free()
      modifies this`list, this`plain, this`held, this`peak
      ensures Valid() && fresh(b) && !b.callback && b.refCount == 1 && b.size == length && Suits(length, length)
      ensures list == [b] + old(list)
      ensures held == old(held) + {b} && peak == Max(old(peak), |held|)
    {
      b := new Buffer(length, false);
      Adopt(b);
    }

    method Adopt(b: Buffer)
      requires Valid() && (forall other <- list :: !other.Free()) && b !in list && b !in plain && b !in gone
      requires !b.callback && b.refCount == 1 && b.fired == 0
      modifies this`list, this`plain, this`held, this`peak
      ensures Valid() && list == [b] + old(list)
      ensures held == old(held) + {b} && peak == Max(old(peak), |held|)
    {
      hide Distinct;
      assert held == plain;
      OneMore(list, b);
      list := [b] + list;
      plain, held := plain + {b}, held + {b};
      peak := Max(peak, |held|);
    }

    /** cm_extend_data_buf, on a buffer that is held. */
    method Extend(b: Buffer, length: nat, memory: bool) returns (ok: bool)
      requires Valid() && b in list && b.refCount > 0
      modifies b`size
      ensures Valid() && ok == (old(b.size) >= length || memory)
      ensures b.size == if ok then Max(old(b.size), length) else old(b.size)
    {
      if b.size < length {
        if !memory {
          return false;
        }
        b.size := length;
      }
      ok := true;
    }

    /** INT_CMtake_buffer, by a handler that the buffer's data was passed to. */
    method Take(b: Buffer)
      requires Valid() && b in list && b.refCount > 0
      modifies b`refCount
      ensures Valid() && b.refCount == old(b.refCount) + 1
    {
      b.refCount := b.refCount + 1;
    }

    /** cm_return_data_buf, by a holder. */
    method Return(b: Buffer)
      requires Valid() && b in list && b.refCount > 0
      modifies this`list, this`held, this`gone, b`refCount, b`fired
      ensures Valid() && b.refCount == old(b.refCount) - 1
      ensures var back := b.callback && b.refCount == 0;
        && gone == (if back then old(gone) + {b} else old(gone))
        && b.fired == (if back then 1 else 0)
        && (back ==> b !in list && |list| == |old(list)| - 1) && (!back ==> list == old(list))
      ensures forall other <- old(list) :: other != b ==> other in list
      ensures held == if b.refCount == 0 then old(held) - {b} else old(held)
    {
      hide Distinct;
      b.refCount := b.refCount - 1;
      if b.refCount == 0 && b.callback {
        assert ValidBut({b});
        hide ValidBut, Valid;
        GiveBack(b);
      } else if b.refCount == 0 {
        held := held - {b};
      }
    }

    method GiveBack(b: Buffer)
      requires ValidBut({b}) && b in list && b.callback && b.refCount == 0
      modifies this`list, this`gone, b`fired
      ensures Valid() && b !in held && b !in list
      ensures b.fired == 1 && gone == old(gone) + {b} && |list| == |old(list)| - 1
      ensures forall other :: other in list <==> other in old(list) && other != b
    {
      hide Distinct;
      Unlink(b);
      b.Fire();
      gone := gone + {b};
    }

    method Unlink(b: Buffer)
      requires b in list
      requires Distinct(list)
      modifies this`list
      ensures Distinct(list)
      ensures |list| == |old(list)| - 1
      ensures forall other :: other in list <==> other in old(list) && other != b
    {
      var at := 0;
      while at < |list| && list[at] != b
        invariant at <= |list| && b !in list[..at]
      {
        at := at + 1;
      }
      ghost var was := list;
      list := list[..at] + list[at + 1..];
      forall other | other in was && other != b ensures other in list {
        var i :| 0 <= i < |was| && was[i] == other;
        assert list[if i < at then i else i - 1] == other;
      }
    }
  }
}
