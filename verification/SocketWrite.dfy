/** Blocking vector writes of the socket transport. */
module SocketWrite {

  const IOV_MAX: nat := 1024
  const MAX_RW_COUNT: nat := 0x7fff_f000
  const TRAIL_BUFFER: nat := 1024

  /** A buffer by its address; a byte is identified by where it lies. */
  datatype Iovec = Iovec(base: nat, len: nat)

  function Range(base: nat, len: nat): (r: seq<nat>)
    ensures |r| == len
  {
    seq(len, i => base + i)
  }

  function Total(iov: seq<Iovec>): nat {
    if iov == [] then 0 else Total(iov[..|iov| - 1]) + iov[|iov| - 1].len
  }

  /** The addresses a vector covers, in order: the message it stands for. */
  function Addresses(iov: seq<Iovec>): (r: seq<nat>)
    ensures |r| == Total(iov)
  {
    if iov == [] then []
    else Addresses(iov[..|iov| - 1]) + Range(iov[|iov| - 1].base, iov[|iov| - 1].len)
  }

  lemma {:induction false} AddressesAppend(a: seq<Iovec>, b: seq<Iovec>)
    ensures Addresses(a + b) == Addresses(a) + Addresses(b)
    ensures Total(a + b) == Total(a) + Total(b)
    decreases |b|
  {
    if b == [] {
      assert a + b == a;
    } else {
      var front, v := b[..|b| - 1], b[|b| - 1];
      assert (a + b)[..|a + b| - 1] == a + front && (a + b)[|a + b| - 1] == v;
      AddressesAppend(a, front);
      assert Addresses(a) + Addresses(front) + Range(v.base, v.len) == Addresses(a) + (Addresses(front) + Range(v.base, v.len));
    }
  }

  lemma AddressesOne(v: Iovec)
    ensures Addresses([v]) == Range(v.base, v.len) && Total([v]) == v.len
  {
    assert [v][..0] == [];
    assert Addresses([]) + Range(v.base, v.len) == Range(v.base, v.len);
  }

  /** Splitting a vector at an entry. */
  lemma AddressesAt(iov: seq<Iovec>, i: nat)
    requires i < |iov|
    ensures Addresses(iov[i..]) == Range(iov[i].base, iov[i].len) + Addresses(iov[i + 1..])
    ensures Addresses(iov[..i + 1]) == Addresses(iov[..i]) + Range(iov[i].base, iov[i].len)
    ensures Total(iov[..i + 1]) == Total(iov[..i]) + iov[i].len && Total(iov[i..]) == iov[i].len + Total(iov[i + 1..])
  {
    AddressesOne(iov[i]);
    assert iov[i..] == [iov[i]] + iov[i + 1..] && iov[..i + 1] == iov[..i] + [iov[i]];
    AddressesAppend([iov[i]], iov[i + 1..]);
    AddressesAppend(iov[..i], [iov[i]]);
  }

  lemma TotalAt(iov: seq<Iovec>, i: nat)
    requires i < |iov|
    ensures Total(iov[..i + 1]) == Total(iov[..i]) + iov[i].len
  {
    AddressesAt(iov, i);
  }

  lemma AddressesSplit(iov: seq<Iovec>, i: nat)
    requires i <= |iov|
    ensures Addresses(iov) == Addresses(iov[..i]) + Addresses(iov[i..])
    ensures Total(iov) == Total(iov[..i]) + Total(iov[i..])
  {
    hide Addresses, Total;
    assert iov == iov[..i] + iov[i..];
    AddressesAppend(iov[..i], iov[i..]);
  }

  /** The entry past its first `n` bytes. */
  function Advance(v: Iovec, n: nat): Iovec
    requires n <= v.len
  {
    Iovec(v.base + n, v.len - n)
  }

  lemma RangeAdvance(v: Iovec, n: nat)
    requires n <= v.len
    ensures Range(v.base, n) + Range(v.base + n, v.len - n) == Range(v.base, v.len)
    ensures Range(v.base, v.len)[n..] == Range(v.base + n, v.len - n)
    ensures Range(v.base, v.len)[..n] == Range(v.base, n)
  {
  }

  // ---------- Where a write got to ----------

  /** `n` bytes of the vector are out: entry `i` is the first that may not be, and `n` falls inside it. */
  predicate At(iov: seq<Iovec>, n: nat, i: nat) {
    i < |iov| && Total(iov[..i]) <= n && (n == Total(iov[..i]) || n < Total(iov[..i]) + iov[i].len)
  }

  /** What a vector still has to send, as the write loop leaves it: entry `i` advanced, the rest untouched. */
  predicate Unsent(iov: seq<Iovec>, left: seq<Iovec>, n: nat, i: nat) {
    && i <= |iov| && |left| == |iov| - i
    && (i == |iov| ==> n == Total(iov))
    && (i < |iov| ==> At(iov, n, i) && left == [Advance(iov[i], n - Total(iov[..i]))] + iov[i + 1..])
  }

  lemma UnsentAddresses(iov: seq<Iovec>, left: seq<Iovec>, n: nat, i: nat)
    requires Unsent(iov, left, n, i)
    ensures n <= Total(iov) && Addresses(left) == Addresses(iov)[n..]
  {
    hide Addresses, Range, Total;
    if i < |iov| {
      var k := n - Total(iov[..i]);
      AddressesSplit(iov, i);
      AddressesAt(iov, i);
      RangeAdvance(iov[i], k);
      AddressesOne(Advance(iov[i], k));
      AddressesAppend([Advance(iov[i], k)], iov[i + 1..]);
      DropFront(Addresses(iov[..i]), Range(iov[i].base, iov[i].len), Addresses(iov[i + 1..]), k);
    } else {
      assert left == [] && |Addresses(iov)[n..]| == 0;
      EmptyAddresses();
    }
  }

  lemma EmptyAddresses()
    ensures Addresses([]) == [] && Total([]) == 0
  {
  }

  lemma DropFront<T>(a: seq<T>, b: seq<T>, c: seq<T>, k: nat)
    requires k <= |b|
    ensures (a + (b + c))[|a| + k..] == b[k..] + c
  {
  }

  /** Writing on from what is left composes. */
  lemma UnsentStep(iov: seq<Iovec>, left: seq<Iovec>, n: nat, i: nat, got: nat, j: nat)
    requires Unsent(iov, left, n, i) && At(left, got, j)
    ensures Unsent(iov, [Advance(left[j], got - Total(left[..j]))] + left[j + 1..], n + got, i + j)
    ensures i + j < |iov| && At(iov, n + got, i + j)
  {
    hide Total;
    if j == 0 {
      EmptyAddresses();
      assert left[..0] == [];
      assert Advance(left[0], got) == Advance(iov[i], n - Total(iov[..i]) + got);
    } else {
      TotalOfRest(iov, left, n, i, j);
      assert left[j] == iov[i + j] && left[j + 1..] == iov[i + j + 1..];
    }
  }

  lemma TotalOfRest(iov: seq<Iovec>, left: seq<Iovec>, n: nat, i: nat, j: nat)
    requires Unsent(iov, left, n, i) && 0 < j <= |left|
    ensures Total(iov[..i + j]) == n + Total(left[..j])
  {
    hide Total;
    var k, mid := n - Total(iov[..i]), iov[i + 1..i + j];
    assert left[..j] == [Advance(iov[i], k)] + mid;
    AddressesOne(Advance(iov[i], k));
    AddressesAppend([Advance(iov[i], k)], mid);
    AddressesAt(iov, i);
    assert iov[..i + j] == iov[..i + 1] + mid;
    AddressesAppend(iov[..i + 1], mid);
  }

  // ---------- Empty vectors ----------

  predicate AllEmpty(iov: seq<Iovec>, i: nat, n: nat)
    requires i + n <= |iov|
  {
    forall k :: i <= k < i + n ==> iov[k].len == 0
  }

  /** No IOV_MAX empty vectors in a row in front of one that is not: else a chunk of nothing would be written for ever. */
  predicate NoStall(iov: seq<Iovec>) {
    forall i, j {:trigger AllEmpty(iov, i, IOV_MAX), iov[j]} ::
      0 <= i && i + IOV_MAX <= j < |iov| && AllEmpty(iov, i, IOV_MAX) ==> iov[j].len == 0
  }

  lemma {:induction false} EmptyTotal(iov: seq<Iovec>)
    ensures Total(iov) == 0 <==> AllEmpty(iov, 0, |iov|)
  {
    if iov != [] {
      EmptyTotal(iov[..|iov| - 1]);
    }
  }

  /** An entry with nothing left in front of unsent bytes was empty to begin with. */
  lemma FirstIsWhole(iov: seq<Iovec>, left: seq<Iovec>, n: nat, i: nat)
    requires Unsent(iov, left, n, i) && i < |iov| && left[0].len == 0
    ensures left[0] == iov[i]
  {
  }

  lemma NoStallInRest(iov: seq<Iovec>, left: seq<Iovec>, n: nat, i: nat)
    requires NoStall(iov) && Unsent(iov, left, n, i)
    ensures NoStall(left)
  {
    hide Total, Unsent;
    assert |left| == |iov| - i && (forall k :: 0 < k < |left| ==> left[k] == iov[i + k]) by { RestIsSuffix(iov, left, n, i); }
    forall m, j | 0 <= m && m + IOV_MAX <= j < |left| && AllEmpty(left, m, IOV_MAX) ensures left[j].len == 0 {
      assert left[m].len == 0;
      if m == 0 {
        FirstIsWhole(iov, left, n, i);
      }
      forall k | i + m <= k < i + m + IOV_MAX ensures iov[k].len == 0 {
        assert iov[k] == left[k - i];
      }
      assert AllEmpty(iov, i + m, IOV_MAX);
      assert left[j] == iov[i + j];
    }
  }

  lemma RestIsSuffix(iov: seq<Iovec>, left: seq<Iovec>, n: nat, i: nat)
    requires Unsent(iov, left, n, i)
    ensures |left| == |iov| - i && (forall k :: 0 < k < |left| ==> left[k] == iov[i + k])
  {
  }

  lemma StalledIsEmpty(iov: seq<Iovec>)
    requires NoStall(iov) && |iov| > IOV_MAX && Total(iov[..IOV_MAX]) == 0
    ensures Total(iov) == 0
  {
    hide Total;
    EmptyTotal(iov[..IOV_MAX]);
    EmptyTotal(iov);
    forall k | 0 <= k < IOV_MAX ensures iov[k].len == 0 {
      assert iov[..IOV_MAX][k] == iov[k];
    }
    assert AllEmpty(iov, 0, IOV_MAX);
  }

  /** While there are bytes left, the next chunk has some. */
  lemma ChunkHasBytes(iov: seq<Iovec>, left: seq<Iovec>, n: nat, i: nat, count: nat)
    requires NoStall(iov) && Unsent(iov, left, n, i) && n < Total(iov)
    requires count == if |left| > IOV_MAX then IOV_MAX else |left|
    ensures Total(left[..count]) > 0
  {
    hide Total;
    UnsentAddresses(iov, left, n, i);
    NoStallInRest(iov, left, n, i);
    if |left| > IOV_MAX && Total(left[..IOV_MAX]) == 0 {
      StalledIsEmpty(left);
    }
    assert left[..|left|] == left;
  }

  // ---------- The kernel's schedule ----------

  /** What one call of writev(2) does: it takes up to so many bytes, would block, or fails for good. */
  datatype Take = Accept(count: nat) | Block | Fail

  /** The bytes the next call takes of `size` that it is offered; a kernel with no plan takes them all. */
  function Got(plan: seq<Take>, size: nat): (got: nat)
    ensures got <= size
  {
    if plan == [] then size
    else if plan[0].Accept? && plan[0].count <= size then plan[0].count
    else if plan[0].Accept? then size
    else 0
  }

  function Later(plan: seq<Take>): seq<Take> {
    if plan == [] then [] else plan[1..]
  }

  predicate Fails(plan: seq<Take>) {
    plan != [] && plan[0].Fail?
  }

  /** The first entry that is not out when `n` bytes are, looking from entry `i` on. */
  function EntryFrom(iov: seq<Iovec>, n: nat, i: nat): (e: nat)
    requires i <= |iov|
    ensures i <= e <= |iov|
    decreases |iov| - i
  {
    if i < |iov| && Total(iov[..i]) < n && Total(iov[..i]) + iov[i].len <= n then EntryFrom(iov, n, i + 1) else i
  }

  /** Entry `i` is the first at which a write that got to `n` may be. */
  predicate Least(iov: seq<Iovec>, n: nat, i: nat) {
    0 < i <= |iov| ==> Total(iov[..i - 1]) < n
  }

  lemma {:induction false} TotalGrows(iov: seq<Iovec>, i: nat, j: nat)
    requires i <= j <= |iov|
    ensures Total(iov[..i]) <= Total(iov[..j]) <= Total(iov)
  {
    hide Total;
    AddressesSplit(iov, j);
    AddressesSplit(iov[..j], i);
    assert iov[..j][..i] == iov[..i];
  }

  lemma {:induction false} EntryIs(iov: seq<Iovec>, n: nat, i: nat, k: nat)
    requires At(iov, n, i) && Least(iov, n, i) && k <= i
    ensures EntryFrom(iov, n, k) == i
    decreases i - k
  {
    hide Total;
    if k < i {
      TotalGrows(iov, k, i - 1);
      TotalGrows(iov, k + 1, i);
      TotalAt(iov, k);
      EntryIs(iov, n, i, k + 1);
    }
  }

  lemma {:induction false} EntryIsThere(iov: seq<Iovec>, n: nat, i: nat)
    requires i <= |iov| && Total(iov[..i]) <= n < Total(iov)
    ensures At(iov, n, EntryFrom(iov, n, i))
    decreases |iov| - i
  {
    hide Total;
    assert iov[..|iov|] == iov;
    TotalAt(iov, i);
    if Total(iov[..i]) < n && Total(iov[..i]) + iov[i].len <= n {
      EntryIsThere(iov, n, i + 1);
    }
  }

  /** The bytes of the next call's vectors, at most IOV_MAX of them, when `n` bytes are out. */
  function Offer(iov: seq<Iovec>, n: nat): nat {
    var i := EntryFrom(iov, n, 0);
    var end := if |iov| - i > IOV_MAX then i + IOV_MAX else |iov|;
    if Total(iov[..end]) < n then 0 else Total(iov[..end]) - n
  }

  /** The offer is what the vectors at hand add up to. */
  lemma OfferIs(iov: seq<Iovec>, left: seq<Iovec>, n: nat, i: nat, count: nat)
    requires Unsent(iov, left, n, i) && Least(iov, n, i) && n < Total(iov)
    requires count == if |left| > IOV_MAX then IOV_MAX else |left|
    ensures Offer(iov, n) == Total(left[..count]) <= Total(iov) - n
  {
    hide Total, EntryFrom;
    EntryIs(iov, n, i, 0);
    TotalOfRest(iov, left, n, i, count);
    TotalGrows(iov, i + count, |iov|);
    assert iov[..|iov|] == iov;
  }

  lemma OfferHasBytes(iov: seq<Iovec>, n: nat)
    requires NoStall(iov) && n < Total(iov)
    ensures 0 < Offer(iov, n) <= Total(iov) - n
  {
    hide Total, NoStall, EntryFrom;
    EmptyAddresses();
    assert iov[..0] == [];
    EntryIsThere(iov, n, 0);
    var i := EntryFrom(iov, n, 0);
    var left := [Advance(iov[i], n - Total(iov[..i]))] + iov[i + 1..];
    var count := if |left| > IOV_MAX then IOV_MAX else |left|;
    ChunkHasBytes(iov, left, n, i, count);
    TotalOfRest(iov, left, n, i, count);
    TotalGrows(iov, i + count, |iov|);
    assert iov[..|iov|] == iov;
  }

  /** How a write went: the bytes that are out, where calls ended that did not end the write, the plan left over. */
  datatype Ending = Ending(out: nat, stops: seq<nat>, plan: seq<Take>, failed: bool)

  /** The write loop under a schedule, from the point where `n` bytes are out. */
  function WriteRun(iov: seq<Iovec>, n: nat, plan: seq<Take>): (e: Ending)
    requires NoStall(iov) && n <= Total(iov)
    ensures n <= e.out <= Total(iov) && (!e.failed <==> e.out == Total(iov))
    ensures forall p <- e.stops :: n <= p <= e.out && p < Total(iov)
    decreases Total(iov) - n, |plan|
  {
    if n == Total(iov) then Ending(n, [], plan, false)
    else if Fails(plan) then Ending(n, [], Later(plan), true)
    else
      OfferHasBytes(iov, n);
      var next := n + Got(plan, Offer(iov, n));
      if next == Total(iov) then Ending(next, [], Later(plan), false)
      else
        var e := WriteRun(iov, next, Later(plan));
        e.(stops := [next] + e.stops)
  }

  /** A kernel that reports no error takes everything; one that the write fails under does report one. */
  lemma {:induction false} FailsOnlyOnError(iov: seq<Iovec>, n: nat, plan: seq<Take>)
    requires NoStall(iov) && n <= Total(iov)
    ensures WriteRun(iov, n, plan).failed ==> Fail in plan
    ensures WriteRun(iov, n, plan).failed <==> WriteRun(iov, n, plan).out < Total(iov)
    decreases Total(iov) - n, |plan|
  {
    hide Total, NoStall, Offer;
    if n < Total(iov) && !Fails(plan) {
      OfferHasBytes(iov, n);
      var next := n + Got(plan, Offer(iov, n));
      if next < Total(iov) {
        FailsOnlyOnError(iov, next, Later(plan));
      }
    }
  }

  /** The last place where a call ended short of the end. */
  function LastStop(stops: seq<nat>): nat {
    if stops == [] then 0 else stops[|stops| - 1]
  }

  // ---------- The write loop ----------

  class Socket {
    var sent: seq<nat>        // addresses of the bytes written, in order
    var plan: seq<Take>       // what the kernel will do

    constructor (plan: seq<Take>)
      ensures sent == [] && this.plan == plan
    {
      this.sent, this.plan := [], plan;
    }

    /** writev(2). */
    method Writev(iov: array<Iovec>, at: nat, count: nat) returns (iget: int, wouldBlock: bool)
      requires at + count <= iov.Length
      modifies this
      ensures plan == Later(old(plan))
      ensures iget == -1 <==> old(plan) != [] && !old(plan)[0].Accept?
      ensures iget != -1 ==> iget == Got(old(plan), Total(iov[at..at + count]))
      ensures iget == -1 ==> (wouldBlock <==> !Fails(old(plan)))
      ensures sent == old(sent) + Addresses(iov[at..at + count])[..Got(old(plan), Total(iov[at..at + count]))]
    {
      var chunk := iov[at..at + count];
      var got := Got(plan, Total(chunk));
      wouldBlock := plan != [] && plan[0].Block?;
      iget := if plan != [] && !plan[0].Accept? then -1 else got;
      sent := sent + Addresses(chunk)[..got];
      plan := Later(plan);
    }
  }

  /** Drops the vectors that `got` bytes cover from the count and advances the one they end in. */
  method Consume(iov: array<Iovec>, end: nat, iovleft: nat, got: nat) returns (rest: nat)
    requires iovleft <= end <= iov.Length
    requires got < Total(iov[end - iovleft..end])
    modifies iov
    ensures rest <= iovleft
    ensures var left := old(iov[end - iovleft..end]);
      var j := iovleft - rest;
      At(left, got, j) && Least(left, got, j) && iov[end - rest..end] == [Advance(left[j], got - Total(left[..j]))] + left[j + 1..]
    ensures forall k :: 0 <= k < iov.Length && !(end - iovleft <= k < end) ==> iov[k] == old(iov[k])
  {
    hide Total, Addresses;
    ghost var left := iov[end - iovleft..end];
    rest := iovleft;
    var iget: int := got;
    EmptyAddresses();
    assert left[..0] == [];
    while iget > 0
      invariant rest <= iovleft
      invariant iget == got - Total(left[..iovleft - rest])
      invariant rest < iovleft ==> got > Total(left[..iovleft - rest - 1])
      invariant iov[..] == old(iov[..])
      decreases rest
    {
      ghost var j := iovleft - rest;
      assert rest > 0 by { assert left[..|left|] == left; }
      TotalAt(left, j);
      assert iov[end - rest] == left[j];
      iget := iget - iov[end - rest].len;
      rest := rest - 1;
    }
    if iget < 0 {
      rest := rest + 1;
      ghost var j := iovleft - rest;
      TotalAt(left, j);
      assert iov[end - rest] == left[j];
      iget := iget + iov[end - rest].len;
      iov[end - rest] := Iovec(iov[end - rest].base + iget, iov[end - rest].len - iget);
      if j > 0 {
        TotalGrows(left, j - 1, j);
      }
    } else {
      assert rest > 0 by { assert left[..|left|] == left; }
    }
  }

  /** `n` bytes went out behind `before`; `ret` complete vectors, or all of them. */
  predicate Wrote(iov: seq<Iovec>, before: seq<nat>, after: seq<nat>, ret: nat, n: nat) {
    && n <= Total(iov) && after == before + Addresses(iov)[..n]
    && ret <= |iov|
    && (ret == |iov| ==> n == Total(iov))
    && (ret < |iov| ==> n < Total(iov) && At(iov, n, ret))
  }

  lemma SentMore(iov: seq<Iovec>, before: seq<nat>, sent: seq<nat>, n: nat, chunk: seq<nat>, got: nat)
    requires n + got <= Total(iov) && sent == before + Addresses(iov)[..n]
    requires got <= |chunk| && chunk <= Addresses(iov)[n..]
    ensures sent + chunk[..got] == before + Addresses(iov)[..n + got]
  {
    hide Addresses, Total;
    assert chunk[..got] == Addresses(iov)[n..][..got] == Addresses(iov)[n..n + got];
    assert Addresses(iov)[..n] + Addresses(iov)[n..n + got] == Addresses(iov)[..n + got];
  }

  lemma ChunkIsPrefix(iov: seq<Iovec>, left: seq<Iovec>, n: nat, i: nat, count: nat)
    requires Unsent(iov, left, n, i) && count <= |left|
    ensures Total(left[..count]) <= Total(left) == Total(iov) - n
    ensures Addresses(left[..count]) <= Addresses(iov)[n..]
  {
    hide Addresses, Total, Unsent;
    UnsentAddresses(iov, left, n, i);
    AddressesSplit(left, count);
    assert |Addresses(iov)[n..]| == Total(left);
  }

  /** One kernel call of the write loop. */
  method WriteChunk(socket: Socket, iov: array<Iovec>, end: nat, iovleft: nat, ghost message: seq<Iovec>,
                    ghost before: seq<nat>, ghost n: nat)
    returns (iget: int, wouldBlock: bool)
    requires iovleft <= end <= iov.Length && iovleft <= |message| && NoStall(message)
    requires Unsent(message, iov[end - iovleft..end], n, |message| - iovleft) && n < Total(message)
    requires Least(message, n, |message| - iovleft)
    requires socket.sent == before + Addresses(message)[..n]
    modifies socket
    ensures var got := Got(old(socket.plan), Offer(message, n));
      && 0 < Offer(message, n) && n + got <= Total(message)
      && (if iget == -1 then got == 0 && (wouldBlock <==> !Fails(old(socket.plan))) else iget == got && !Fails(old(socket.plan)))
      && socket.sent == before + Addresses(message)[..n + got]
    ensures socket.plan == Later(old(socket.plan)) && -1 <= iget
  {
    hide Addresses, Total, NoStall, Unsent, Offer;
    ghost var rest := iov[end - iovleft..end];
    var writeCount := if iovleft > IOV_MAX then IOV_MAX else iovleft;
    UnsentLength(message, rest, n, |message| - iovleft);
    OfferHasBytes(message, n);
    OfferIs(message, rest, n, |message| - iovleft, writeCount);
    ChunkIsPrefix(message, rest, n, |message| - iovleft, writeCount);
    assert rest[..writeCount] == iov[end - iovleft..end - iovleft + writeCount];
    iget, wouldBlock := socket.Writev(iov, end - iovleft, writeCount);
    SentMore(message, before, old(socket.sent), n, Addresses(rest[..writeCount]), Got(old(socket.plan), Offer(message, n)));
  }

  lemma UnsentLength(iov: seq<Iovec>, left: seq<Iovec>, n: nat, i: nat)
    requires Unsent(iov, left, n, i)
    ensures |left| == |iov| - i && (n < Total(iov) ==> left != [])
  {
  }

  /** The vectors after a call that took `got` bytes, short of all that were left. */
  method MoveOn(iov: array<Iovec>, end: nat, iovleft: nat, got: nat, ghost message: seq<Iovec>, ghost n: nat)
    returns (rest: nat)
    requires iovleft <= end <= iov.Length && iovleft <= |message| && n + got < Total(message)
    requires Unsent(message, iov[end - iovleft..end], n, |message| - iovleft) && Least(message, n, |message| - iovleft)
    modifies iov
    ensures rest <= iovleft
    ensures Unsent(message, iov[end - rest..end], n + got, |message| - rest) && Least(message, n + got, |message| - rest)
    ensures forall k :: 0 <= k < iov.Length && !(end - iovleft <= k < end) ==> iov[k] == old(iov[k])
  {
    hide Addresses, Total, Unsent, At, Least;
    ghost var left, i := iov[end - iovleft..end], |message| - iovleft;
    UnsentAddresses(message, left, n, i);
    rest := Consume(iov, end, iovleft, got);
    UnsentStep(message, left, n, i, got, iovleft - rest);
    LeastStep(message, left, n, i, got, iovleft - rest);
  }

  lemma SliceLast(iov: seq<Iovec>, from: nat, to: nat)
    requires from < to <= |iov|
    ensures |iov[from..to]| == to - from && iov[from..to][to - from - 1] == iov[to - 1]
  {
  }

  /** By how much the last entry's base has moved when the write ends. */
  function Past(iov: seq<Iovec>, stop: nat): nat
    requires iov != []
  {
    var front := Total(iov[..|iov| - 1]);
    if stop > front then stop - front else 0
  }

  /**
    The loop of libcmsockets_LTX_writev_func for messages that fit in one kernel call.  It does what its
    specification does under the kernel's schedule; a write that completes leaves the last entry where the
    last call before the final one had got to.
   */
  method WriteLoop(socket: Socket, iov: array<Iovec>, first: nat, count: nat, length: nat) returns (ret: nat)
    requires first + count <= iov.Length && NoStall(iov[first..first + count])
    requires length == Total(iov[first..first + count])
    modifies socket, iov
    ensures var message, e := old(iov[first..first + count]), WriteRun(old(iov[first..first + count]), 0, old(socket.plan));
      && Wrote(message, old(socket.sent), socket.sent, ret, e.out)
      && socket.plan == e.plan && (ret < count <==> e.failed)
      && (ret == count > 0 ==> iov[first + count - 1].base == message[count - 1].base + Past(message, LastStop(e.stops)))
    ensures forall k :: 0 <= k < iov.Length && !(first <= k < first + count) ==> iov[k] == old(iov[k])
  {
    hide Addresses, Total, NoStall, Unsent, At, Offer, Least, WriteRun, Resumes, Past, LastStop, Wrote;
    ghost var message := iov[first..first + count];
    ghost var n: nat, stops: seq<nat> := 0, [];
    var left: int, iovleft: nat := length, count;
    StartUnsent(message);
    ResumesFromStart(message, socket.plan);
    assert socket.sent == old(socket.sent) + Addresses(message)[..0];
    while left > 0
      invariant iovleft <= count && left == Total(message) - n && n <= Total(message)
      invariant Unsent(message, iov[first + count - iovleft..first + count], n, count - iovleft)
      invariant Least(message, n, count - iovleft)
      invariant socket.sent == old(socket.sent) + Addresses(message)[..n]
      invariant Resumes(message, old(socket.plan), n, stops, socket.plan) && LastStop(stops) == n
      invariant left > 0 || (n == 0 && stops == [] && iov[..] == old(iov[..]))
      invariant forall k :: 0 <= k < iov.Length && !(first <= k < first + count) ==> iov[k] == old(iov[k])
      decreases left, |socket.plan|
    {
      ghost var rest, plan := iov[first + count - iovleft..first + count], socket.plan;
      if iovleft > 0 {
        SliceLast(iov[..], first + count - iovleft, first + count);
      }
      var iget, wouldBlock := WriteChunk(socket, iov, first + count, iovleft, message, old(socket.sent), n);
      if iget == -1 {
        if !wouldBlock {
          ret := count - iovleft;
          StoppedAt(message, rest, n, ret, old(socket.sent));
          ResumesToFailure(message, old(socket.plan), n, stops, plan);
          return;
        }
        iget := 0;
      }
      if iget == left {
        LastEntryLeft(message, rest, n, count - iovleft);
        ResumesToEnd(message, old(socket.plan), n, stops, plan);
        AllOut(message, old(socket.sent));
        return count;
      }
      left := left - iget;
      iovleft := MoveOn(iov, first + count, iovleft, iget, message, n);
      ResumesPast(message, old(socket.plan), n, stops, plan);
      n := n + iget;
      stops := stops + [n];
    }
    ret := count;
    if count > 0 {
      LastEntryLeft(message, message, 0, 0);
    }
    ResumesAtEnd(message, old(socket.plan), n, stops, socket.plan);
    AllOut(message, old(socket.sent));
  }

  /** The specification from the start is that from here on, behind the stops made so far. */
  ghost predicate Resumes(iov: seq<Iovec>, start: seq<Take>, n: nat, stops: seq<nat>, plan: seq<Take>)
    requires NoStall(iov) && n <= Total(iov)
  {
    var e := WriteRun(iov, n, plan);
    WriteRun(iov, 0, start) == e.(stops := stops + e.stops)
  }

  /** The last entry of what is left, when a call takes all of it. */
  lemma LastEntryLeft(iov: seq<Iovec>, left: seq<Iovec>, n: nat, i: nat)
    requires Unsent(iov, left, n, i) && (n < Total(iov) || i < |iov|)
    ensures left != [] && left[|left| - 1].base == iov[|iov| - 1].base + Past(iov, n)
  {
    hide Total;
    var last := |iov| - 1;
    if i < last {
      TotalAt(iov, i);
      TotalGrows(iov, i, last);
      TotalGrows(iov, i + 1, last);
      assert left[|left| - 1] == iov[i + 1..][|left| - 2] == iov[last];
    }
  }

  lemma LeastStep(iov: seq<Iovec>, left: seq<Iovec>, n: nat, i: nat, got: nat, j: nat)
    requires Unsent(iov, left, n, i) && Least(iov, n, i) && At(left, got, j) && Least(left, got, j)
    ensures Least(iov, n + got, i + j)
  {
    hide Total;
    EmptyAddresses();
    assert left[..0] == [];
    if j > 1 {
      TotalOfRest(iov, left, n, i, j - 1);
    }
  }

  lemma ResumesFromStart(iov: seq<Iovec>, plan: seq<Take>)
    requires NoStall(iov)
    ensures Resumes(iov, plan, 0, [], plan) && LastStop([]) == 0
  {
    var e := WriteRun(iov, 0, plan);
    assert e.(stops := [] + e.stops) == e;
  }

  lemma ResumesPast(iov: seq<Iovec>, start: seq<Take>, n: nat, stops: seq<nat>, plan: seq<Take>)
    requires NoStall(iov) && n < Total(iov) && Resumes(iov, start, n, stops, plan) && !Fails(plan)
    requires 0 < Offer(iov, n) && n + Got(plan, Offer(iov, n)) < Total(iov)
    ensures var next := n + Got(plan, Offer(iov, n));
      Resumes(iov, start, next, stops + [next], Later(plan)) && LastStop(stops + [next]) == next
  {
    hide Offer, Total, NoStall;
    var next := n + Got(plan, Offer(iov, n));
    var e := WriteRun(iov, next, Later(plan));
    assert stops + ([next] + e.stops) == stops + [next] + e.stops;
  }

  lemma ResumesToFailure(iov: seq<Iovec>, start: seq<Take>, n: nat, stops: seq<nat>, plan: seq<Take>)
    requires NoStall(iov) && n < Total(iov) && Resumes(iov, start, n, stops, plan) && Fails(plan)
    ensures WriteRun(iov, 0, start) == Ending(n, stops, Later(plan), true)
  {
    assert stops + [] == stops;
  }

  lemma ResumesToEnd(iov: seq<Iovec>, start: seq<Take>, n: nat, stops: seq<nat>, plan: seq<Take>)
    requires NoStall(iov) && n < Total(iov) && Resumes(iov, start, n, stops, plan) && !Fails(plan)
    requires 0 < Offer(iov, n) && n + Got(plan, Offer(iov, n)) == Total(iov)
    ensures WriteRun(iov, 0, start) == Ending(Total(iov), stops, Later(plan), false)
  {
    assert stops + [] == stops;
  }

  lemma ResumesAtEnd(iov: seq<Iovec>, start: seq<Take>, n: nat, stops: seq<nat>, plan: seq<Take>)
    requires NoStall(iov) && n == Total(iov) && Resumes(iov, start, n, stops, plan)
    ensures WriteRun(iov, 0, start) == Ending(Total(iov), stops, plan, false)
  {
    assert stops + [] == stops;
  }

  lemma AllOut(iov: seq<Iovec>, before: seq<nat>)
    ensures Wrote(iov, before, before + Addresses(iov), |iov|, Total(iov))
    ensures Addresses(iov)[..Total(iov)] == Addresses(iov)
  {
    hide Addresses, Total;
    assert Addresses(iov)[..Total(iov)] == Addresses(iov);
  }

  lemma StoppedAt(iov: seq<Iovec>, left: seq<Iovec>, n: nat, i: nat, before: seq<nat>)
    requires Unsent(iov, left, n, i) && n < Total(iov)
    ensures i < |iov| && Wrote(iov, before, before + Addresses(iov)[..n], i, n)
  {
  }

  lemma StartUnsent(iov: seq<Iovec>)
    ensures Unsent(iov, iov, 0, 0) && Least(iov, 0, 0)
  {
    assert iov[..0] == [];
    if iov != [] {
      assert iov == [iov[0]] + iov[1..];
    }
  }
}
