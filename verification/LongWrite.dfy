/**
  Writes of more bytes than one system call may carry: long_writev, which cuts a message into sub-writes in
  the middle of its buffers.
 */
module LongWrite {
  import opened Bytes
  import opened Collections
  import opened SocketWrite

  /** What every sub-write but the last carries. */
  const SUB_WRITE: nat := MAX_RW_COUNT - TRAIL_BUFFER

  // ---------- Where a message is cut ----------

  /** The sub-vector of a split: `count` entries, the last cut down to `cut` bytes. */
  function Truncated(left: seq<Iovec>, count: nat, cut: nat): seq<Iovec>
    requires 1 <= count <= |left|
  {
    left[..count - 1] + [Iovec(left[count - 1].base, cut)]
  }

  lemma TruncatedTotal(left: seq<Iovec>, count: nat, cut: nat)
    requires 1 <= count <= |left|
    ensures Total(Truncated(left, count, cut)) == Total(left[..count - 1]) + cut
    ensures Addresses(Truncated(left, count, cut)) == Addresses(left[..count - 1]) + Range(left[count - 1].base, cut)
    ensures |Truncated(left, count, cut)| == count
  {
    AddressesOne(Iovec(left[count - 1].base, cut));
    AddressesAppend(left[..count - 1], [Iovec(left[count - 1].base, cut)]);
  }

  /** The number of entries, counted on from `c`, with which a sub-write would become too big. */
  function Over(rest: seq<Iovec>, c: nat): (count: nat)
    requires c <= |rest| && Total(rest[..c]) <= SUB_WRITE < Total(rest)
    ensures c < count <= |rest|
    ensures Total(rest[..count - 1]) <= SUB_WRITE < Total(rest[..count])
    decreases |rest| - c
  {
    assert rest[..|rest|] == rest;
    if Total(rest[..c + 1]) > SUB_WRITE then c + 1 else Over(rest, c + 1)
  }

  predicate TooBig(rest: seq<Iovec>) {
    Total(rest) > SUB_WRITE
  }

  /** Counted from the start. */
  function CutCount(rest: seq<Iovec>): (count: nat)
    requires TooBig(rest)
    ensures 0 < count <= |rest|
    ensures Total(rest[..count - 1]) <= SUB_WRITE < Total(rest[..count])
  {
    assert rest[..0] == [];
    Over(rest, 0)
  }

  /** How much of the last of these entries the sub-write takes. */
  function CutLength(rest: seq<Iovec>): nat
    requires TooBig(rest)
  {
    SUB_WRITE - Total(rest[..CutCount(rest) - 1])
  }

  function SubVector(rest: seq<Iovec>): seq<Iovec>
    requires TooBig(rest)
  {
    Truncated(rest, CutCount(rest), CutLength(rest))
  }

  /** What is left of a vector behind a sub-write. */
  function Behind(rest: seq<Iovec>): seq<Iovec>
    requires TooBig(rest)
  {
    var count := CutCount(rest);
    TotalAt(rest, count - 1);
    [Advance(rest[count - 1], CutLength(rest))] + rest[count..]
  }

  lemma CutFacts(rest: seq<Iovec>)
    requires TooBig(rest)
    ensures var count, cut := CutCount(rest), CutLength(rest);
      && cut < rest[count - 1].len && (count == 1 ==> cut > 0)
      && Total(rest[..count - 1]) + cut == SUB_WRITE == Total(SubVector(rest))
      && |SubVector(rest)| == count && SubVector(rest)[..count - 1] == rest[..count - 1]
      && Total(Behind(rest)) == Total(rest) - SUB_WRITE
      && |Behind(rest)| == |rest| - count + 1
  {
    hide Total, Addresses;
    var count, cut := CutCount(rest), CutLength(rest);
    TotalAt(rest, count - 1);
    EmptyAddresses();
    assert rest[..0] == [];
    TruncatedTotal(rest, count, cut);
    NextLengths(rest, Behind(rest), count, cut);
  }

  lemma NextLengths(rest: seq<Iovec>, next: seq<Iovec>, count: nat, cut: nat)
    requires 1 <= count <= |rest| && cut <= rest[count - 1].len && |next| == |rest| - count + 1
    requires next[0].len == rest[count - 1].len - cut
    requires next[1..] == rest[count..]
    ensures Total(next) == Total(rest) - Total(rest[..count - 1]) - cut
  {
    hide Total, Addresses;
    AddressesSplit(rest, count - 1);
    AddressesAt(rest, count - 1);
    AddressesAt(next, 0);
    assert next[0..] == next;
  }

  lemma NoStallOfLengths(a: seq<Iovec>, b: seq<Iovec>)
    requires NoStall(a) && |b| <= |a|
    requires forall k :: 0 <= k < |b| - 1 ==> b[k].len == a[k].len
    requires b != [] ==> b[|b| - 1].len <= a[|b| - 1].len
    ensures NoStall(b)
  {
    forall m, j | 0 <= m && m + IOV_MAX <= j < |b| && AllEmpty(b, m, IOV_MAX) ensures b[j].len == 0 {
      forall k | m <= k < m + IOV_MAX ensures a[k].len == 0 {
        assert b[k].len == 0;
      }
      assert AllEmpty(a, m, IOV_MAX);
    }
  }

  lemma NoStallBehind(rest: seq<Iovec>)
    requires NoStall(rest) && TooBig(rest)
    ensures NoStall(SubVector(rest)) && NoStall(Behind(rest))
  {
    hide Total, NoStall, AllEmpty;
    CutFacts(rest);
    var count, cut := CutCount(rest), CutLength(rest);
    NoStallOfLengths(rest, SubVector(rest));
    NoStallInRest(rest, Behind(rest), SUB_WRITE, count - 1) by {
      assert At(rest, SUB_WRITE, count - 1);
    }
  }

  /** The part of a cut entry that goes out before it is taken up again, as positions in the message. */
  datatype Split = Split(from: nat, to: nat)

  function SplitsFrom(rest: seq<Iovec>, out: nat): (splits: seq<Split>)
    decreases Total(rest)
  {
    if !TooBig(rest) then []
    else
      CutFacts(rest);
      [Split(out + SUB_WRITE - CutLength(rest), out + SUB_WRITE)] + SplitsFrom(Behind(rest), out + SUB_WRITE)
  }

  function Splits(iov: seq<Iovec>): seq<Split> {
    SplitsFrom(iov, 0)
  }

  lemma {:induction false} SplitsInOrder(rest: seq<Iovec>, out: nat)
    ensures forall s <- SplitsFrom(rest, out) ::
      out <= s.from <= s.to && out + SUB_WRITE <= s.to < out + Total(rest)
    decreases Total(rest)
  {
    hide Total;
    if TooBig(rest) {
      CutFacts(rest);
      SplitsInOrder(Behind(rest), out + SUB_WRITE);
    }
  }

  // ---------- A write under a schedule ----------

  /** How far a write has come: the bytes out, the sub-writes made, where calls ended short of a sub-write's end. */
  datatype Sofar = Sofar(out: nat, sizes: seq<nat>, stops: seq<nat>, lost: Option<nat>)

  /** `lost`: the first place behind which bytes are taken from the wrong addresses, if there is one. */
  datatype LongEnding = LongEnding(at: Sofar, plan: seq<Take>, failed: bool)

  function Beginning(): Sofar {
    Sofar(0, [], [], None)
  }

  function Shifted(stops: seq<nat>, offset: nat): (shifted: seq<nat>)
    ensures |shifted| == |stops| && forall i :: 0 <= i < |stops| ==> shifted[i] == stops[i] + offset
  {
    seq(|stops|, i requires 0 <= i < |stops| => stops[i] + offset)
  }

  /** One more sub-write of the given size, as far as it came. */
  function Further(so: Sofar, size: nat, e: Ending): Sofar {
    so.(out := so.out + e.out, sizes := so.sizes + [size], stops := so.stops + Shifted(e.stops, so.out))
  }

  /** After a whole sub-write: its last entry's base moved if a call ended inside it, and its bytes from there on are lost. */
  function TakenUp(so: Sofar, sub: seq<Iovec>, e: Ending): Sofar
    requires sub != []
  {
    var next := Further(so, Total(sub), e);
    if so.lost.None? && Past(sub, LastStop(e.stops)) > 0 then next.(lost := Some(next.out)) else next
  }

  /** long_writev as it is written, on what is left of the message. */
  function LongRun(rest: seq<Iovec>, plan: seq<Take>, so: Sofar): LongEnding
    requires NoStall(rest)
    decreases Total(rest)
  {
    if !TooBig(rest) then
      var e := WriteRun(rest, 0, plan);
      LongEnding(Further(so, Total(rest), e), e.plan, e.failed)
    else
      CutFacts(rest);
      NoStallBehind(rest);
      var sub := SubVector(rest);
      var e := WriteRun(sub, 0, plan);
      if e.failed then LongEnding(Further(so, Total(sub), e), e.plan, true)
      else LongRun(Behind(rest), e.plan, TakenUp(so, sub, e))
  }

  /** libcmsockets_LTX_writev_func as it is written. */
  function WritevRun(iov: seq<Iovec>, plan: seq<Take>): LongEnding
    requires NoStall(iov)
  {
    if Total(iov) > MAX_RW_COUNT then LongRun(iov, plan, Beginning())
    else
      var e := WriteRun(iov, 0, plan);
      LongEnding(Further(Beginning(), Total(iov), e), e.plan, e.failed)
  }

  lemma {:induction false} PlanShrinks(iov: seq<Iovec>, n: nat, plan: seq<Take>)
    requires NoStall(iov) && n <= Total(iov)
    ensures forall t <- WriteRun(iov, n, plan).plan :: t in plan
    decreases Total(iov) - n, |plan|
  {
    hide Total, NoStall, Offer;
    if n < Total(iov) && !Fails(plan) {
      OfferHasBytes(iov, n);
      var next := n + Got(plan, Offer(iov, n));
      if next < Total(iov) {
        PlanShrinks(iov, next, Later(plan));
      }
    }
  }

  lemma {:induction false} LongRunBounds(rest: seq<Iovec>, plan: seq<Take>, so: Sofar)
    requires NoStall(rest)
    ensures var e := LongRun(rest, plan, so);
      && so.out <= e.at.out <= so.out + Total(rest) && (!e.failed <==> e.at.out == so.out + Total(rest))
      && so.sizes <= e.at.sizes && (forall i :: |so.sizes| <= i < |e.at.sizes| ==> e.at.sizes[i] <= SUB_WRITE)
      && (forall i :: |so.sizes| <= i < |e.at.sizes| - 1 ==> e.at.sizes[i] == SUB_WRITE)
      && (e.failed ==> Fail in plan)
      && so.stops <= e.at.stops && (forall i :: |so.stops| <= i < |e.at.stops| ==> e.at.stops[i] >= so.out)
    decreases Total(rest)
  {
    hide Total, NoStall, WriteRun, Past, LastStop;
    if !TooBig(rest) {
      FailsOnlyOnError(rest, 0, plan);
    } else {
      CutFacts(rest);
      NoStallBehind(rest);
      var e := WriteRun(SubVector(rest), 0, plan);
      FailsOnlyOnError(SubVector(rest), 0, plan);
      PlanShrinks(SubVector(rest), 0, plan);
      if !e.failed {
        LongRunBounds(Behind(rest), e.plan, TakenUp(so, SubVector(rest), e));
      }
    }
  }

  // ---------- When it is right ----------

  /** Bytes have gone out from wrong addresses. */
  predicate Wrong(at: Sofar) {
    at.lost.Some? && at.lost.value < at.out
  }

  predicate StopsInside(stops: seq<nat>, s: Split) {
    exists p <- stops :: s.from < p < s.to
  }

  /** Some call ended inside a cut entry, and later bytes of the message are out. */
  predicate SplitWasEntered(at: Sofar, splits: seq<Split>) {
    exists s <- splits :: s.to < at.out && StopsInside(at.stops, s)
  }

  lemma {:induction false} StopsAscend(iov: seq<Iovec>, n: nat, plan: seq<Take>)
    requires NoStall(iov) && n <= Total(iov)
    ensures forall p <- WriteRun(iov, n, plan).stops :: p <= LastStop(WriteRun(iov, n, plan).stops)
    decreases Total(iov) - n, |plan|
  {
    hide Total, NoStall, Offer;
    if n < Total(iov) && !Fails(plan) {
      OfferHasBytes(iov, n);
      var next := n + Got(plan, Offer(iov, n));
      if next < Total(iov) {
        StopsAscend(iov, next, Later(plan));
        var others := WriteRun(iov, next, Later(plan)).stops;
        assert others != [] ==> others[|others| - 1] in others;
        assert WriteRun(iov, n, plan).stops == [next] + others;
      }
    }
  }

  /** The base of a sub-write's last entry moves exactly if one of its calls ended inside that entry. */
  lemma MovedIff(rest: seq<Iovec>, plan: seq<Take>, out: nat)
    requires NoStall(rest) && TooBig(rest) && NoStall(SubVector(rest))
    ensures var sub := SubVector(rest); var e := WriteRun(sub, 0, plan);
      && sub != []
      && (Past(sub, LastStop(e.stops)) > 0 <==>
            StopsInside(Shifted(e.stops, out), Split(out + SUB_WRITE - CutLength(rest), out + SUB_WRITE)))
  {
    hide Total, NoStall;
    CutFacts(rest);
    var sub := SubVector(rest);
    var e := WriteRun(sub, 0, plan);
    StopsAscend(sub, 0, plan);
    hide WriteRun;
    var shifted, s := Shifted(e.stops, out), Split(out + SUB_WRITE - CutLength(rest), out + SUB_WRITE);
    if Past(sub, LastStop(e.stops)) > 0 {
      var p := shifted[|shifted| - 1];
      assert p in shifted && e.stops[|e.stops| - 1] in e.stops;
    }
    if StopsInside(shifted, s) {
      var p :| p in shifted && s.from < p < s.to;
      var i :| 0 <= i < |shifted| && shifted[i] == p;
      assert e.stops[i] in e.stops;
    }
  }

  lemma EnteredSplits(at: Sofar, first: Split, later: seq<Split>)
    ensures SplitWasEntered(at, [first] + later) <==>
      (first.to < at.out && StopsInside(at.stops, first)) || SplitWasEntered(at, later)
  {
    hide StopsInside;
    var all := [first] + later;
    assert forall s :: s in all <==> s == first || s in later;
  }

  /** Only the calls of a sub-write itself can end inside it. */
  lemma OnlyThese(all: seq<nat>, before: seq<nat>, these: seq<nat>, s: Split)
    requires before + these <= all
    requires (forall p <- before :: p <= s.from) && (forall i :: |before + these| <= i < |all| ==> all[i] >= s.to)
    ensures StopsInside(all, s) <==> StopsInside(these, s)
  {
    if StopsInside(all, s) {
      var p :| p in all && s.from < p < s.to;
      var i :| 0 <= i < |all| && all[i] == p;
      var both := before + these;
      assert i < |both| && both[i] == p;
      assert p in both && p !in before;
      assert p in these;
    }
    if StopsInside(these, s) {
      var p :| p in these && s.from < p < s.to;
      var i :| 0 <= i < |these| && these[i] == p;
      assert (before + these)[|before| + i] == p;
      assert all[|before| + i] == p;
      assert p in all;
    }
  }

  lemma StopsSofar(so: Sofar, sub: seq<Iovec>, plan: seq<Take>)
    requires NoStall(sub) && sub != [] && forall p <- so.stops :: p <= so.out
    ensures var next := TakenUp(so, sub, WriteRun(sub, 0, plan));
      && (forall p <- next.stops :: p <= next.out) && next.stops == so.stops + Shifted(WriteRun(sub, 0, plan).stops, so.out)
  {
    hide Total, NoStall, Past, LastStop;
    var e := WriteRun(sub, 0, plan);
    hide WriteRun;
    var shifted := Shifted(e.stops, so.out);
    forall p | p in shifted ensures p <= so.out + e.out {
      var i :| 0 <= i < |shifted| && shifted[i] == p;
      assert e.stops[i] in e.stops;
    }
  }

  lemma {:induction false} WrongIffEntered(rest: seq<Iovec>, plan: seq<Take>, so: Sofar)
    requires NoStall(rest)
    requires (forall p <- so.stops :: p <= so.out) && (so.lost.Some? ==> so.lost.value <= so.out)
    ensures var e := LongRun(rest, plan, so);
      Wrong(e.at) <==> (so.lost.Some? && so.lost.value < e.at.out) || SplitWasEntered(e.at, SplitsFrom(rest, so.out))
    decreases Total(rest)
  {
    hide Total, NoStall, WriteRun, Past, LastStop, StopsInside;
    var all := LongRun(rest, plan, so);
    if TooBig(rest) {
      CutFacts(rest);
      NoStallBehind(rest);
      var sub := SubVector(rest);
      var e := WriteRun(sub, 0, plan);
      var first := Split(so.out + SUB_WRITE - CutLength(rest), so.out + SUB_WRITE);
      var later := SplitsFrom(Behind(rest), so.out + SUB_WRITE);
      assert SplitsFrom(rest, so.out) == [first] + later;
      SplitsInOrder(rest, so.out);
      if !e.failed {
        var next := TakenUp(so, sub, e);
        MovedIff(rest, plan, so.out);
        StopsSofar(so, sub, plan);
        WrongIffEntered(Behind(rest), e.plan, next);
        LongRunBounds(Behind(rest), e.plan, next);
        EnteredSplits(all.at, first, later);
        OnlyThese(all.at.stops, so.stops, Shifted(e.stops, so.out), first);
      }
    }
  }

  /**
    For every schedule: as it is written, a write takes bytes from wrong addresses if and only if a call ended
    strictly inside an entry that was cut, and bytes from behind the cut went out.
   */
  lemma WrongIffSplitEntered(iov: seq<Iovec>, plan: seq<Take>)
    requires NoStall(iov)
    ensures var e := WritevRun(iov, plan);
      Wrong(e.at) <==> Total(iov) > MAX_RW_COUNT && SplitWasEntered(e.at, Splits(iov))
  {
    WrongIffEntered(iov, plan, Beginning());
  }

  /** A write that completes: wrong exactly if some call ended inside a cut entry. */
  lemma WholeWrongIff(iov: seq<Iovec>, plan: seq<Take>)
    requires NoStall(iov) && Total(iov) > MAX_RW_COUNT && !WritevRun(iov, plan).failed
    ensures var e := WritevRun(iov, plan);
      Wrong(e.at) <==> exists s <- Splits(iov) :: StopsInside(e.at.stops, s)
  {
    hide StopsInside, LongRun, SplitsFrom;
    WrongIffSplitEntered(iov, plan);
    LongRunBounds(iov, plan, Beginning());
    SplitsInOrder(iov, 0);
  }

  // ---------- Which messages are safe ----------

  /** A kernel that takes a byte at a time for the first `k` calls, and then all it is offered. */
  function Ones(k: nat): (plan: seq<Take>)
    ensures |plan| == k && forall i :: 0 <= i < k ==> plan[i] == Accept(1)
  {
    seq(k, i => Accept(1))
  }

  lemma OnesLater(k: nat)
    requires k > 0
    ensures Later(Ones(k)) == Ones(k - 1) && !Fails(Ones(k)) && forall size: nat :: size > 0 ==> Got(Ones(k), size) == 1
  {
  }

  lemma NoOnes()
    ensures Ones(0) == [] && Later(Ones(0)) == Ones(0) && !Fails(Ones(0)) && forall size: nat :: Got(Ones(0), size) == size
  {
  }

  lemma WriteRunGoesOn(iov: seq<Iovec>, n: nat, plan: seq<Take>, got: nat)
    requires NoStall(iov) && n < Total(iov) && !Fails(plan) && got == Got(plan, Offer(iov, n)) && n + got <= Total(iov)
    ensures n + got == Total(iov) ==> WriteRun(iov, n, plan) == Ending(Total(iov), [], Later(plan), false)
    ensures n + got < Total(iov) ==>
      var e := WriteRun(iov, n + got, Later(plan));
      WriteRun(iov, n, plan) == e.(stops := [n + got] + e.stops)
  {
    hide Total, NoStall, Offer, Got, Later, Fails;
  }

  lemma {:induction false} OnesRun(iov: seq<Iovec>, n: nat, k: nat)
    requires NoStall(iov) && n <= Total(iov)
    ensures var e := WriteRun(iov, n, Ones(k));
      && !e.failed && e.plan == Ones(if k > Total(iov) - n then k - (Total(iov) - n) else 0)
      && (0 < k && n + k < Total(iov) ==> n + k in e.stops)
    decreases Total(iov) - n
  {
    hide *;
    if n == Total(iov) {
      WriteRunEnd(iov, Ones(k));
    } else {
      OfferHasBytes(iov, n);
      if k > 0 {
        OnesLater(k);
      } else {
        NoOnes();
      }
      var next := n + Got(Ones(k), Offer(iov, n));
      WriteRunGoesOn(iov, n, Ones(k), next - n);
      if next < Total(iov) {
        OnesRun(iov, next, if k > 0 then k - 1 else 0);
      }
    }
  }

  lemma WriteRunEnd(iov: seq<Iovec>, plan: seq<Take>)
    requires NoStall(iov)
    ensures WriteRun(iov, Total(iov), plan) == Ending(Total(iov), [], plan, false)
  {
    hide Total, NoStall;
  }

  /** Such a kernel's first calls end at every byte they reach. */
  lemma {:induction false} OnesReach(rest: seq<Iovec>, so: Sofar, s: Split, k: nat)
    requires NoStall(rest) && s in SplitsFrom(rest, so.out) && s.to - s.from >= 2 && so.out + k == s.from + 1
    ensures var e := LongRun(rest, Ones(k), so);
      !e.failed && s.from + 1 in e.at.stops
    decreases Total(rest)
  {
    hide Total, NoStall, WriteRun, Past, LastStop, Ones;
    if TooBig(rest) {
      CutFacts(rest);
      NoStallBehind(rest);
      var sub := SubVector(rest);
      OnesRun(sub, 0, k);
      var e := WriteRun(sub, 0, Ones(k));
      var next := TakenUp(so, sub, e);
      var first := Split(so.out + SUB_WRITE - CutLength(rest), so.out + SUB_WRITE);
      SplitsInOrder(Behind(rest), next.out);
      if s == first {
        StopIsKept(e.stops, so.out, k, next.stops, so.stops);
        LongRunBounds(Behind(rest), e.plan, next);
        OnesEnd(Behind(rest), next);
        var all := LongRun(Behind(rest), e.plan, next).at.stops;
        var i :| 0 <= i < |next.stops| && next.stops[i] == s.from + 1;
        assert all[i] == s.from + 1;
      } else {
        OnesReach(Behind(rest), next, s, k - SUB_WRITE);
      }
    }
  }

  lemma StopIsKept(stops: seq<nat>, offset: nat, k: nat, next: seq<nat>, before: seq<nat>)
    requires k in stops && next == before + Shifted(stops, offset)
    ensures offset + k in next
  {
    var i :| 0 <= i < |stops| && stops[i] == k;
    assert next[|before| + i] == offset + k;
  }

  lemma {:induction false} OnesEnd(rest: seq<Iovec>, so: Sofar)
    requires NoStall(rest)
    ensures !LongRun(rest, Ones(0), so).failed
    decreases Total(rest)
  {
    hide Total, NoStall, WriteRun, Past, LastStop, Ones;
    if TooBig(rest) {
      CutFacts(rest);
      NoStallBehind(rest);
      OnesRun(SubVector(rest), 0, 0);
      OnesEnd(Behind(rest), TakenUp(so, SubVector(rest), WriteRun(SubVector(rest), 0, Ones(0))));
    } else {
      OnesRun(rest, 0, 0);
    }
  }

  predicate Safe(iov: seq<Iovec>, plan: seq<Take>)
    requires NoStall(iov)
  {
    !Wrong(WritevRun(iov, plan).at)
  }

  /**
    In a caller's terms: a message is safe under every schedule if and only if it fits in one call, or all its
    cuts leave less than two bytes of an entry on their near side.
   */
  lemma AlwaysSafeIff(iov: seq<Iovec>)
    requires NoStall(iov)
    ensures (forall plan :: Safe(iov, plan)) <==>
      Total(iov) <= MAX_RW_COUNT || forall s <- Splits(iov) :: s.to - s.from < 2
  {
    hide LongRun, SplitsFrom, NoStall, WriteRun;
    if Total(iov) <= MAX_RW_COUNT || forall s <- Splits(iov) :: s.to - s.from < 2 {
      forall plan ensures Safe(iov, plan) {
        WrongIffSplitEntered(iov, plan);
      }
    } else {
      var s :| s in Splits(iov) && s.to - s.from >= 2;
      var plan := Ones(s.from + 1);
      OnesReach(iov, Beginning(), s, s.from + 1);
      WholeWrongIff(iov, plan);
      assert !Safe(iov, plan);
    }
  }

  /** A single buffer of 2 GiB, and a kernel whose first call takes one byte. */
  lemma TwoGigabytesLost()
    ensures var iov := [Iovec(0, 0x8000_0000)];
      && NoStall(iov) && Splits(iov) == [Split(0, SUB_WRITE)]
      && var e := WritevRun(iov, [Accept(1)]);
      && !e.failed && e.at.out == 0x8000_0000 && e.at.lost == Some(SUB_WRITE) && Wrong(e.at)
  {
    var v, sub, behind := Iovec(0, 0x8000_0000), Iovec(0, SUB_WRITE), Iovec(SUB_WRITE, 0x8000_0000 - SUB_WRITE);
    OneEntry(v);
    OneEntry(sub);
    OneEntry(behind);
    hide Total, NoStall, Offer, WriteRun;
    EmptyAddresses();
    assert [v][..0] == [] && [v][..1] == [v] && [v][1..] == [] && [sub][..0] == [];
    CutCountIs([v], 1);
    hide CutCount, CutLength;
    assert SubVector([v]) == [sub] && Behind([v]) == [behind];
    TakesOneThenAll(sub);
    TakesAll(behind);
    var e := WriteRun([sub], 0, [Accept(1)]);
    assert LongRun([behind], [], TakenUp(Beginning(), [sub], e)).at.lost == Some(SUB_WRITE);
    assert SplitsFrom([behind], SUB_WRITE) == [];
  }

  lemma OneEntry(v: Iovec)
    requires v.len > 0
    ensures Total([v]) == v.len && NoStall([v])
    ensures forall n: nat :: n < v.len ==> Offer([v], n) == v.len - n
  {
    hide Total;
    AddressesOne(v);
    EmptyAddresses();
    assert [v][..0] == [] && [v][..1] == [v];
  }

  lemma TakesAll(v: Iovec)
    requires v.len > 0 && Total([v]) == v.len && NoStall([v]) && Offer([v], 0) == v.len
    ensures WriteRun([v], 0, []) == Ending(v.len, [], [], false)
  {
    hide Total, NoStall, Offer;
  }

  lemma TakesOneThenAll(v: Iovec)
    requires v.len > 1 && Total([v]) == v.len && NoStall([v]) && Offer([v], 0) == v.len && Offer([v], 1) == v.len - 1
    ensures WriteRun([v], 0, [Accept(1)]) == Ending(v.len, [1], [], false)
  {
    hide Total, NoStall, Offer;
    assert Later([Accept(1)]) == [];
    assert WriteRun([v], 1, []) == Ending(v.len, [], [], false);
  }

  // ---------- The vectors that long_writev leaves behind ----------

  /** The unsent rest of a vector of which `n` bytes are out, `i` entries among them whole. */
  function Rest(iov: seq<Iovec>, n: nat, i: nat): seq<Iovec> {
    if At(iov, n, i) then [Advance(iov[i], n - Total(iov[..i]))] + iov[i + 1..] else []
  }

  lemma RestIsUnsent(iov: seq<Iovec>, n: nat, i: nat)
    requires (i == |iov| && n == Total(iov)) || At(iov, n, i)
    ensures Unsent(iov, Rest(iov, n, i), n, i)
    ensures n <= Total(iov) && Addresses(Rest(iov, n, i)) == Addresses(iov)[n..]
  {
    hide Total, Addresses;
    UnsentAddresses(iov, Rest(iov, n, i), n, i);
  }

  /** Vectors that agree in everything but the base of their first entry. */
  predicate SameButFirstBase(a: seq<Iovec>, b: seq<Iovec>) {
    |a| == |b| && (a != [] ==> a[0].len == b[0].len && a[1..] == b[1..])
  }

  /** `out` is the message as far as it goes, but that it takes a wrong byte at `lost`. */
  predicate RightUpTo(out: seq<nat>, message: seq<nat>, lost: Option<nat>) {
    && |out| <= |message|
    && match lost
       case None => out == message[..|out|]
       case Some(at) => at <= |out| && out[..at] == message[..at] && (at < |out| ==> out[at] != message[at])
  }

  /** Bytes are right exactly if they end where the first is lost. */
  lemma RightIff(out: seq<nat>, message: seq<nat>, lost: Option<nat>)
    requires RightUpTo(out, message, lost)
    ensures out == message[..|out|] <==> lost.None? || |out| <= lost.value
  {
    if lost.Some? && lost.value < |out| {
      assert message[..|out|][lost.value] == message[lost.value];
    }
  }

  /**
    The state between two sub-writes of an oversize message: `out` has been written and `left` is what the
    vector still holds.  Where bytes were lost last, its first entry starts at a wrong address.
   */
  ghost predicate Coherent(iov: seq<Iovec>, left: seq<Iovec>, out: seq<nat>, i: nat, lost: Option<nat>) {
    && ((i == |iov| && |out| == Total(iov)) || At(iov, |out|, i))
    && var ideal := Rest(iov, |out|, i);
    && SameButFirstBase(left, ideal)
    && RightUpTo(out, Addresses(iov), lost)
    && (lost.None? ==> left == ideal)
    && (lost == Some(|out|) ==> left != [] && left[0].len > 0 && left[0].base != ideal[0].base)
  }

  predicate SameLengths(a: seq<Iovec>, b: seq<Iovec>) {
    |a| == |b| && forall k :: 0 <= k < |a| ==> a[k].len == b[k].len
  }

  lemma {:induction false} SameTotals(a: seq<Iovec>, b: seq<Iovec>)
    requires SameLengths(a, b)
    ensures Total(a) == Total(b)
  {
    if a != [] {
      SameTotals(a[..|a| - 1], b[..|b| - 1]);
    }
  }

  lemma SamePrefixTotals(a: seq<Iovec>, b: seq<Iovec>)
    requires SameLengths(a, b)
    ensures Total(a) == Total(b) && forall k :: 0 <= k <= |a| ==> Total(a[..k]) == Total(b[..k])
  {
    hide Total;
    forall k | 0 <= k <= |a| ensures Total(a[..k]) == Total(b[..k]) {
      SameTotals(a[..k], b[..k]);
    }
    SameTotals(a, b);
  }

  lemma SameButFirstLengths(a: seq<Iovec>, b: seq<Iovec>)
    requires SameButFirstBase(a, b)
    ensures SameLengths(a, b)
    ensures forall j :: 0 < j < |a| ==> a[j] == b[j]
  {
    forall j | 0 <= j < |a| ensures a[j].len == b[j].len && (j > 0 ==> a[j] == b[j]) {
      assert j > 0 ==> a[1..][j - 1] == b[1..][j - 1];
    }
  }

  lemma {:induction false} SameEntry(a: seq<Iovec>, b: seq<Iovec>, n: nat, i: nat)
    requires SameLengths(a, b) && i <= |a|
    requires forall k :: 0 <= k <= |a| ==> Total(a[..k]) == Total(b[..k])
    ensures EntryFrom(a, n, i) == EntryFrom(b, n, i)
    decreases |a| - i
  {
    hide Total;
    if i < |a| {
      SameEntry(a, b, n, i + 1);
    }
  }

  lemma SameOffer(a: seq<Iovec>, b: seq<Iovec>, n: nat)
    requires SameLengths(a, b)
    ensures Offer(a, n) == Offer(b, n)
  {
    hide Total, EntryFrom;
    SamePrefixTotals(a, b);
    SameEntry(a, b, n, 0);
  }

  /** How a write goes depends on the lengths of the vectors alone. */
  lemma {:induction false} SameRun(a: seq<Iovec>, b: seq<Iovec>, n: nat, plan: seq<Take>)
    requires SameLengths(a, b) && NoStall(a) && NoStall(b) && n <= Total(a) == Total(b)
    ensures WriteRun(a, n, plan) == WriteRun(b, n, plan)
    decreases Total(a) - n, |plan|
  {
    hide Total, NoStall, Offer;
    if n < Total(a) && !Fails(plan) {
      SameOffer(a, b, n);
      OfferHasBytes(a, n);
      var next := n + Got(plan, Offer(a, n));
      if next < Total(a) {
        SameRun(a, b, next, Later(plan));
      }
    }
  }

  lemma CutCountIs(rest: seq<Iovec>, c: nat)
    requires 0 < c <= |rest| && Total(rest[..c - 1]) <= SUB_WRITE < Total(rest[..c])
    ensures TooBig(rest) && CutCount(rest) == c && CutLength(rest) == SUB_WRITE - Total(rest[..c - 1])
  {
    hide Total, Over;
    TotalGrows(rest, c, c);
    var count := CutCount(rest);
    if count < c {
      TotalGrows(rest, count, c - 1);
    } else if c < count {
      TotalGrows(rest, c, count - 1);
    }
  }

  /** Vectors of the same lengths are cut alike. */
  lemma SameCut(a: seq<Iovec>, b: seq<Iovec>, plan: seq<Take>)
    requires SameLengths(a, b) && TooBig(a) && NoStall(b)
    ensures TooBig(b) && CutCount(a) == CutCount(b) && CutLength(a) == CutLength(b)
    ensures SameLengths(SubVector(a), SubVector(b))
    ensures NoStall(SubVector(a)) && NoStall(SubVector(b))
    ensures WriteRun(SubVector(a), 0, plan) == WriteRun(SubVector(b), 0, plan)
    ensures forall so, e :: TakenUp(so, SubVector(a), e) == TakenUp(so, SubVector(b), e)
  {
    hide Total, NoStall, WriteRun, CutCount, CutLength;
    SamePrefixTotals(a, b);
    CutFacts(a);
    CutCountIs(b, CutCount(a)) by {
      TotalAt(a, CutCount(a) - 1);
    }
    CutFacts(b);
    NoStallBehind(b);
    var p, q := SubVector(a), SubVector(b);
    assert SameLengths(p, q);
    NoStallOfLengths(q, p);
    SameRun(p, q, 0, plan);
    SamePrefixTotals(p, q);
  }

  lemma FirstAddress(iov: seq<Iovec>)
    requires iov != [] && iov[0].len > 0
    ensures Addresses(iov) != [] && Addresses(iov)[0] == iov[0].base
  {
    AddressesAt(iov, 0);
    assert iov[0..] == iov;
    assert Range(iov[0].base, iov[0].len)[0] == iov[0].base;
  }

  /** The bytes a truncated vector covers are the front of what the whole one covers. */
  lemma TruncatedIsPrefix(left: seq<Iovec>, count: nat, cut: nat)
    requires 1 <= count <= |left| && cut <= left[count - 1].len
    ensures Total(left[..count - 1]) + cut <= Total(left)
    ensures Addresses(Truncated(left, count, cut)) == Addresses(left)[..Total(left[..count - 1]) + cut]
  {
    hide Addresses, Total, Range, Truncated;
    TruncatedTotal(left, count, cut);
    AddressesSplit(left, count - 1);
    AddressesAt(left, count - 1);
    RangeAdvance(left[count - 1], cut);
    TakeFront(Addresses(left[..count - 1]), Range(left[count - 1].base, left[count - 1].len), Addresses(left[count..]), cut);
  }

  lemma TakeFront<T>(a: seq<T>, b: seq<T>, c: seq<T>, k: nat)
    requires k <= |b|
    ensures (a + (b + c))[..|a| + k] == a + b[..k]
  {
  }

  /** Where a split leaves the ideal rest of the message. */
  lemma IdealSplit(iov: seq<Iovec>, ideal: seq<Iovec>, n: nat, i: nat, count: nat, cut: nat)
    requires Unsent(iov, ideal, n, i) && 1 <= count <= |ideal| && cut < ideal[count - 1].len
    ensures var got := Total(ideal[..count - 1]) + cut;
      && n + got <= Total(iov) && At(iov, n + got, i + count - 1)
      && Rest(iov, n + got, i + count - 1) == [Advance(ideal[count - 1], cut)] + ideal[count..]
  {
    hide Total, Addresses;
    var got := Total(ideal[..count - 1]) + cut;
    UnsentStep(iov, ideal, n, i, got, count - 1);
    var next := [Advance(ideal[count - 1], cut)] + ideal[count..];
    UnsentAddresses(iov, next, n + got, i + count - 1);
  }

  lemma JoinPrefixes<T>(s: seq<T>, m: nat, n: nat)
    requires m + n <= |s|
    ensures s[..m] + s[m..][..n] == s[..m + n]
  {
  }

  lemma StoppedInTruncated(left: seq<Iovec>, count: nat, cut: nat, r: nat, m: nat)
    requires 1 <= count <= |left| && cut <= left[count - 1].len
    requires var sub := Truncated(left, count, cut); At(sub, m, r) && m < Total(sub)
    ensures At(left, m, r) && m < Total(left)
    ensures m <= |Addresses(Truncated(left, count, cut))|
    ensures Addresses(Truncated(left, count, cut))[..m] == Addresses(left)[..m]
  {
    hide Total, Addresses, Range;
    assert Truncated(left, count, cut)[..r] == left[..r];
    TruncatedTotal(left, count, cut);
    TruncatedIsPrefix(left, count, cut);
  }

  /** `m` more bytes, taken from a vector that starts where `left` does. */
  lemma MoreOut(iov: seq<Iovec>, left: seq<Iovec>, out: seq<nat>, i: nat, lost: Option<nat>, sub: seq<Iovec>, m: nat)
    requires Coherent(iov, left, out, i, lost) && left != []
    requires sub != [] && sub[0].base == left[0].base && m <= Total(sub) && |out| + m <= Total(iov)
    requires lost == Some(|out|) && m > 0 ==> sub[0].len > 0
    requires lost.None? ==> m <= Total(left) && Addresses(sub)[..m] == Addresses(left)[..m]
    ensures RightUpTo(out + Addresses(sub)[..m], Addresses(iov), lost)
  {
    hide Total, Addresses, At;
    var ideal := Rest(iov, |out|, i);
    RestIsUnsent(iov, |out|, i);
    if lost.None? {
      JoinPrefixes(Addresses(iov), |out|, m);
    } else if lost.value == |out| && m > 0 {
      FirstAddress(ideal);
      FirstAddress(sub);
      assert Addresses(iov)[|out|] == Addresses(iov)[|out|..][0] == ideal[0].base;
      assert (out + Addresses(sub)[..m])[|out|] == sub[0].base;
      assert (out + Addresses(sub)[..m])[..lost.value] == out;
    } else {
      assert (out + Addresses(sub)[..m])[..lost.value] == out[..lost.value];
    }
  }

  lemma AfterSplitShape(iov: seq<Iovec>, left: seq<Iovec>, out: seq<nat>, i: nat, lost: Option<nat>,
                        count: nat, cut: nat, base: nat, next: seq<Iovec>)
    requires Coherent(iov, left, out, i, lost) && 1 <= count <= |left| && cut < left[count - 1].len
    requires next == [Iovec(base, left[count - 1].len - cut)] + left[count..]
    ensures var now := out + Addresses(Truncated(left, count, cut));
      var ideal := Rest(iov, |out|, i);
      && |left| == |ideal| && left[count - 1].len == ideal[count - 1].len
      && |now| == |out| + Total(ideal[..count - 1]) + cut <= Total(iov) && At(iov, |now|, i + count - 1)
      && Rest(iov, |now|, i + count - 1) == [Advance(ideal[count - 1], cut)] + ideal[count..]
      && SameButFirstBase(next, Rest(iov, |now|, i + count - 1))
  {
    hide Total, Addresses, At, Range;
    var ideal := Rest(iov, |out|, i);
    RestIsUnsent(iov, |out|, i);
    SameButFirstLengths(left, ideal);
    SamePrefixTotals(left, ideal);
    IdealSplit(iov, ideal, |out|, i, count, cut);
    TruncatedTotal(left, count, cut);
    assert |Addresses(Truncated(left, count, cut))| == Total(left[..count - 1]) + cut;
    assert next[1..] == left[count..] == ideal[count..];
  }

  /** A sub-write that went out whole, and the entry it was cut in taken up again at `base`. */
  lemma AfterSplit(iov: seq<Iovec>, left: seq<Iovec>, out: seq<nat>, i: nat, lost: Option<nat>,
                   count: nat, cut: nat, base: nat, next: seq<Iovec>)
    requires Coherent(iov, left, out, i, lost) && 1 <= count <= |left|
    requires cut < left[count - 1].len && Total(left[..count - 1]) + cut > 0
    requires next == [Iovec(base, left[count - 1].len - cut)] + left[count..]
    ensures var now := out + Addresses(Truncated(left, count, cut));
      Coherent(iov, next, now, i + count - 1,
               if lost.None? && base != left[count - 1].base + cut then Some(|now|) else lost)
  {
    hide Total, Addresses, At, Rest, RightUpTo;
    var sub := Truncated(left, count, cut);
    var now := out + Addresses(sub);
    AfterSplitShape(iov, left, out, i, lost, count, cut, base, next);
    TruncatedTotal(left, count, cut);
    TruncatedIsPrefix(left, count, cut);
    EmptyAddresses();
    assert left[..0] == [];
    assert sub[0].base == left[0].base && (count > 1 ==> sub[0] == left[0]);
    assert Addresses(sub)[..Total(sub)] == Addresses(sub);
    MoreOut(iov, left, out, i, lost, sub, Total(sub));
    SplitLoses(Addresses(iov), out, now, lost);
  }

  /** Past the place where bytes were lost, no entry is at the wrong address for the first time. */
  lemma SplitLoses(message: seq<nat>, out: seq<nat>, now: seq<nat>, lost: Option<nat>)
    requires RightUpTo(out, message, lost) && RightUpTo(now, message, lost) && |out| < |now|
    ensures lost.None? ==> RightUpTo(now, message, Some(|now|))
    ensures lost != Some(|now|)
  {
  }

  // ---------- The methods ----------

  /** The place of the first loss, when a split entry's base is restored and when it is not. */
  function Actual(lost: Option<nat>, keepSaved: bool): Option<nat> {
    if keepSaved then None else lost
  }

  /**
    How a write ended: so many bytes, right up to the place where the specification says they are lost; and
    the number of complete vectors, or all.
   */
  ghost predicate Finished(iov: seq<Iovec>, before: seq<nat>, after: seq<nat>, ret: nat, e: LongEnding, keepSaved: bool) {
    && before <= after && |after| == |before| + e.at.out
    && RightUpTo(after[|before|..], Addresses(iov), Actual(e.at.lost, keepSaved))
    && ret <= |iov| && (ret == |iov| <==> !e.failed) && (ret == |iov| ==> e.at.out == Total(iov))
    && (ret < |iov| ==> e.at.out < Total(iov) && At(iov, e.at.out, ret))
  }

  /**
    What a finished write says of the bytes on the wire: as it is written they are the message's, as far as
    they go, exactly unless some call ended inside a cut entry and bytes from behind the cut went out; with the
    saved base put back they are so always.
   */
  lemma BytesRightIff(iov: seq<Iovec>, plan: seq<Take>, before: seq<nat>, after: seq<nat>, ret: nat, keepSaved: bool)
    requires NoStall(iov) && Finished(iov, before, after, ret, WritevRun(iov, plan), keepSaved)
    ensures var at := WritevRun(iov, plan).at;
      && at.out <= Total(iov)
      && (after == before + Addresses(iov)[..at.out] <==>
            keepSaved || Total(iov) <= MAX_RW_COUNT || !SplitWasEntered(at, Splits(iov)))
  {
    hide WritevRun, SplitWasEntered, Splits, Total, Addresses, RightUpTo, Finished, NoStall;
    var e := WritevRun(iov, plan);
    WrongIffSplitEntered(iov, plan);
    FinishedHas(iov, before, after, ret, e, keepSaved);
    RightIff(after[|before|..], Addresses(iov), Actual(e.at.lost, keepSaved));
    assert after == before + after[|before|..];
  }

  lemma FinishedHas(iov: seq<Iovec>, before: seq<nat>, after: seq<nat>, ret: nat, e: LongEnding, keepSaved: bool)
    requires Finished(iov, before, after, ret, e, keepSaved)
    ensures before <= after && |after| == |before| + e.at.out
    ensures RightUpTo(after[|before|..], Addresses(iov), Actual(e.at.lost, keepSaved))
    ensures e.at.out <= Total(iov)
  {
    hide RightUpTo, Total, Addresses, At;
  }

  /** Between two sub-writes: what is left is to be written as the specification says for the plan that is left. */
  ghost predicate Underway(iov: seq<Iovec>, left: seq<Iovec>, out: seq<nat>, i: nat,
                           start: seq<Take>, plan: seq<Take>, so: Sofar, keepSaved: bool)
    requires NoStall(iov)
  {
    && Coherent(iov, left, out, i, Actual(so.lost, keepSaved)) && so.out == |out|
    && NoStall(Rest(iov, |out|, i)) && NoStall(left)
    && LongRun(iov, start, Beginning()) == LongRun(Rest(iov, |out|, i), plan, so)
  }

  lemma StartUnderway(iov: seq<Iovec>, plan: seq<Take>, keepSaved: bool)
    requires NoStall(iov)
    ensures Underway(iov, iov, [], 0, plan, plan, Beginning(), keepSaved)
  {
    hide Addresses, Total;
    StartUnsent(iov);
    EmptyAddresses();
    assert Addresses(iov)[..0] == [];
    assert iov != [] ==> iov == [iov[0]] + iov[1..];
  }

  /** A sub-write whose last entry is cut. */
  ghost predicate CutHere(left: seq<Iovec>, count: nat, cut: nat) {
    && 1 <= count <= |left| && cut < left[count - 1].len
    && Total(left[..count - 1]) + cut == SUB_WRITE
  }

  lemma CutHereIs(left: seq<Iovec>, count: nat, cut: nat)
    requires CutHere(left, count, cut)
    ensures TooBig(left) && CutCount(left) == count && CutLength(left) == cut && SubVector(left) == Truncated(left, count, cut)
    ensures Total(Truncated(left, count, cut)) == SUB_WRITE && (count == 1 ==> cut > 0)
    ensures |Truncated(left, count, cut)| == count
  {
    hide Total;
    TotalAt(left, count - 1);
    CutCountIs(left, count);
    CutFacts(left);
  }

  /** A cut sub-write that went out whole. */
  lemma Onward(iov: seq<Iovec>, left: seq<Iovec>, out: seq<nat>, i: nat, start: seq<Take>, plan: seq<Take>, so: Sofar,
               keepSaved: bool, count: nat, cut: nat, next: seq<Iovec>)
    requires NoStall(iov) && Underway(iov, left, out, i, start, plan, so, keepSaved) && CutHere(left, count, cut)
    requires var sub := Truncated(left, count, cut);
      && NoStall(sub) && var e := WriteRun(sub, 0, plan);
      && !e.failed
      && next == [Iovec(left[count - 1].base + (if keepSaved then 0 else Past(sub, LastStop(e.stops))) + cut,
                        left[count - 1].len - cut)] + left[count..]
    ensures var sub := Truncated(left, count, cut); var e := WriteRun(sub, 0, plan);
      Underway(iov, next, out + Addresses(sub), i + count - 1, start, e.plan, TakenUp(so, sub, e), keepSaved)
  {
    hide *;
    CutHereHas(left, count, cut);
    var sub := Truncated(left, count, cut);
    var now := out + Addresses(sub);
    UnderwayHas(iov, left, out, i, start, plan, so, keepSaved);
    CutHereIs(left, count, cut);
    OnwardCoherent(iov, left, out, i, so, keepSaved, count, cut, WriteRun(sub, 0, plan), next);
    OnwardRun(iov, left, out, i, Actual(so.lost, keepSaved), plan, so, count, cut, next);
    UnderwayIs(iov, next, now, i + count - 1, start, WriteRun(sub, 0, plan).plan,
               TakenUp(so, sub, WriteRun(sub, 0, plan)), keepSaved);
  }

  lemma UnderwayHas(iov: seq<Iovec>, left: seq<Iovec>, out: seq<nat>, i: nat,
                    start: seq<Take>, plan: seq<Take>, so: Sofar, keepSaved: bool)
    requires NoStall(iov) && Underway(iov, left, out, i, start, plan, so, keepSaved)
    ensures Coherent(iov, left, out, i, Actual(so.lost, keepSaved)) && so.out == |out|
    ensures NoStall(Rest(iov, |out|, i)) && NoStall(left)
    ensures LongRun(iov, start, Beginning()) == LongRun(Rest(iov, |out|, i), plan, so)
  {
    hide Coherent, Rest, NoStall, LongRun;
  }

  lemma UnderwayIs(iov: seq<Iovec>, left: seq<Iovec>, out: seq<nat>, i: nat,
                   start: seq<Take>, plan: seq<Take>, so: Sofar, keepSaved: bool)
    requires NoStall(iov)
    requires Coherent(iov, left, out, i, Actual(so.lost, keepSaved)) && so.out == |out|
    requires NoStall(Rest(iov, |out|, i)) && NoStall(left)
    requires LongRun(iov, start, Beginning()) == LongRun(Rest(iov, |out|, i), plan, so)
    ensures Underway(iov, left, out, i, start, plan, so, keepSaved)
  {
    hide Coherent, Rest, NoStall, LongRun;
  }

  lemma CutHereHas(left: seq<Iovec>, count: nat, cut: nat)
    requires CutHere(left, count, cut)
    ensures 1 <= count <= |left| && cut < left[count - 1].len && Total(left[..count - 1]) + cut == SUB_WRITE > 0
    ensures Truncated(left, count, cut) != []
  {
  }

  lemma OnwardCoherent(iov: seq<Iovec>, left: seq<Iovec>, out: seq<nat>, i: nat, so: Sofar,
                       keepSaved: bool, count: nat, cut: nat, e: Ending, next: seq<Iovec>)
    requires Coherent(iov, left, out, i, Actual(so.lost, keepSaved)) && so.out == |out|
    requires 1 <= count <= |left| && cut < left[count - 1].len && Total(left[..count - 1]) + cut > 0
    requires e.out == Total(Truncated(left, count, cut))
    requires next == [Iovec(left[count - 1].base + (if keepSaved then 0 else Past(Truncated(left, count, cut), LastStop(e.stops))) + cut,
                            left[count - 1].len - cut)] + left[count..]
    ensures var sub := Truncated(left, count, cut);
      && Coherent(iov, next, out + Addresses(sub), i + count - 1, Actual(TakenUp(so, sub, e).lost, keepSaved))
      && TakenUp(so, sub, e).out == |out + Addresses(sub)|
  {
    hide Coherent, Total, Addresses, Past, LastStop;
    AfterSplit(iov, left, out, i, Actual(so.lost, keepSaved), count, cut, next[0].base, next);
    assert |Addresses(Truncated(left, count, cut))| == e.out;
  }

  lemma OnwardRun(iov: seq<Iovec>, left: seq<Iovec>, out: seq<nat>, i: nat, lost: Option<nat>,
                  plan: seq<Take>, so: Sofar, count: nat, cut: nat, next: seq<Iovec>)
    requires Coherent(iov, left, out, i, lost) && NoStall(left) && NoStall(Rest(iov, |out|, i))
    requires CutHere(left, count, cut) && next != [] && next[0].len == left[count - 1].len - cut && next[1..] == left[count..]
    requires NoStall(Truncated(left, count, cut)) && !WriteRun(Truncated(left, count, cut), 0, plan).failed
    ensures var sub := Truncated(left, count, cut);
      var e, now := WriteRun(sub, 0, plan), out + Addresses(sub);
      && NoStall(Rest(iov, |now|, i + count - 1)) && NoStall(next)
      && LongRun(Rest(iov, |out|, i), plan, so) == LongRun(Rest(iov, |now|, i + count - 1), e.plan, TakenUp(so, sub, e))
  {
    hide Total, Addresses, At, NoStall, WriteRun, TakenUp, RightUpTo;
    CutHereIs(left, count, cut);
    var ideal := Rest(iov, |out|, i);
    var base := next[0].base;
    assert next == [Iovec(base, left[count - 1].len - cut)] + left[count..];
    AfterSplitShape(iov, left, out, i, lost, count, cut, base, next);
    SameButFirstLengths(left, ideal);
    SameCut(left, ideal, plan);
    NoStallBehind(ideal);
    assert Rest(iov, |out + Addresses(Truncated(left, count, cut))|, i + count - 1) == Behind(ideal);
    SameButFirstLengths(next, Behind(ideal));
    NoStallOfLengths(Behind(ideal), next);
  }

  /** A sub-write that stopped short. */
  lemma StoppedShort(iov: seq<Iovec>, left: seq<Iovec>, out: seq<nat>, i: nat, start: seq<Take>, plan: seq<Take>, so: Sofar,
                     keepSaved: bool, before: seq<nat>, after: seq<nat>, r: nat, count: nat, cut: nat)
    requires NoStall(iov) && Underway(iov, left, out, i, start, plan, so, keepSaved) && CutHere(left, count, cut)
    requires var sub := Truncated(left, count, cut);
      && NoStall(sub) && var e := WriteRun(sub, 0, plan);
      && e.failed && Wrote(sub, before + out, after, r, e.out) && r < count
    ensures var e := WriteRun(Truncated(left, count, cut), 0, plan);
      && Finished(iov, before, after, i + r, LongRun(iov, start, Beginning()), keepSaved)
      && LongRun(iov, start, Beginning()).plan == e.plan
      && LongRun(iov, start, Beginning()).at.sizes == so.sizes + [SUB_WRITE]
      && i + r < |iov|
  {
    hide *;
    CutHereHas(left, count, cut);
    UnderwayHas(iov, left, out, i, start, plan, so, keepSaved);
    CutHereIs(left, count, cut);
    ShortRun(iov, left, out, i, Actual(so.lost, keepSaved), plan, so, count, cut);
    var e := WriteRun(Truncated(left, count, cut), 0, plan);
    ShortBytes(iov, left, out, i, Actual(so.lost, keepSaved), before, after, r, count, cut, e.out);
    FinishedShort(iov, before, after, i + r, so, SUB_WRITE, e, keepSaved);
  }

  lemma FinishedShort(iov: seq<Iovec>, before: seq<nat>, after: seq<nat>, ret: nat, so: Sofar, size: nat, e: Ending, keepSaved: bool)
    requires before <= after && |after| == |before| + so.out + e.out
    requires RightUpTo(after[|before|..], Addresses(iov), Actual(so.lost, keepSaved))
    requires ret < |iov| && so.out + e.out < Total(iov) && At(iov, so.out + e.out, ret)
    ensures Finished(iov, before, after, ret, LongEnding(Further(so, size, e), e.plan, true), keepSaved)
    ensures Further(so, size, e).sizes == so.sizes + [size]
  {
    hide RightUpTo, Addresses, Total, At;
  }

  lemma SameAt(a: seq<Iovec>, b: seq<Iovec>, n: nat, i: nat)
    requires SameLengths(a, b)
    ensures At(a, n, i) <==> At(b, n, i)
    ensures Total(a) == Total(b)
  {
    hide Total;
    SamePrefixTotals(a, b);
  }

  lemma ShortRun(iov: seq<Iovec>, left: seq<Iovec>, out: seq<nat>, i: nat, lost: Option<nat>,
                 plan: seq<Take>, so: Sofar, count: nat, cut: nat)
    requires Coherent(iov, left, out, i, lost) && NoStall(left) && NoStall(Rest(iov, |out|, i)) && CutHere(left, count, cut)
    requires NoStall(Truncated(left, count, cut)) && WriteRun(Truncated(left, count, cut), 0, plan).failed
    ensures var e := WriteRun(Truncated(left, count, cut), 0, plan);
      LongRun(Rest(iov, |out|, i), plan, so) == LongEnding(Further(so, SUB_WRITE, e), e.plan, true)
  {
    hide Total, Addresses, At, NoStall, WriteRun, RightUpTo;
    CutHereIs(left, count, cut);
    var ideal := Rest(iov, |out|, i);
    SameButFirstLengths(left, ideal);
    SameCut(left, ideal, plan);
    CutFacts(ideal);
  }

  lemma ShortBytes(iov: seq<Iovec>, left: seq<Iovec>, out: seq<nat>, i: nat, lost: Option<nat>,
                   before: seq<nat>, after: seq<nat>, r: nat, count: nat, cut: nat, m: nat)
    requires Coherent(iov, left, out, i, lost)
    requires 1 <= count <= |left| && cut <= left[count - 1].len && (count == 1 ==> cut > 0 || cut == left[0].len)
    requires r < count && Wrote(Truncated(left, count, cut), before + out, after, r, m) && |Truncated(left, count, cut)| == count
    ensures before <= after && |after| == |before| + |out| + m
    ensures RightUpTo(after[|before|..], Addresses(iov), lost)
    ensures i + r < |iov| && |out| + m < Total(iov) && At(iov, |out| + m, i + r)
  {
    hide Total, Addresses, At, RightUpTo, Coherent;
    var sub := Truncated(left, count, cut);
    ShortPlace(iov, left, out, i, lost, r, count, cut, m);
    TruncatedIsPrefix(left, count, cut);
    CoherentPrefix(iov, left, out, i, lost);
    assert left[..0] == [];
    EmptyAddresses();
    assert sub[0].base == left[0].base && (count > 1 ==> sub[0] == left[0]);
    PrefixOfPrefix(Addresses(left), Addresses(sub), m);
    MoreOut(iov, left, out, i, lost, sub, m);
    assert after == before + (out + Addresses(sub)[..m]);
    assert after[|before|..] == out + Addresses(sub)[..m];
  }

  lemma CoherentPrefix(iov: seq<Iovec>, left: seq<Iovec>, out: seq<nat>, i: nat, lost: Option<nat>)
    requires Coherent(iov, left, out, i, lost)
    ensures lost == Some(|out|) ==> left != [] && left[0].len > 0
  {
  }

  lemma TruncatedAlike(a: seq<Iovec>, b: seq<Iovec>, count: nat, cut: nat)
    requires SameLengths(a, b) && 1 <= count <= |a|
    ensures SameLengths(Truncated(a, count, cut), Truncated(b, count, cut))
  {
  }

  lemma ShortPlace(iov: seq<Iovec>, left: seq<Iovec>, out: seq<nat>, i: nat, lost: Option<nat>, r: nat, count: nat, cut: nat, m: nat)
    requires Coherent(iov, left, out, i, lost)
    requires 1 <= count <= |left| && cut <= left[count - 1].len
    requires var sub := Truncated(left, count, cut); At(sub, m, r) && m < Total(sub)
    ensures i + r < |iov| && |out| + m < Total(iov) && At(iov, |out| + m, i + r)
  {
    hide *;
    CoherentWhole(iov, left, out, i, lost);
    var ideal := Rest(iov, |out|, i);
    TruncatedAlike(left, ideal, count, cut);
    SameAt(Truncated(left, count, cut), Truncated(ideal, count, cut), m, r);
    StoppedInTruncated(ideal, count, cut, r, m);
    UnsentStep(iov, ideal, |out|, i, m, r);
    SameAt(left, ideal, 0, 0);
  }

  lemma PrefixOfPrefix(a: seq<nat>, b: seq<nat>, m: nat)
    requires m <= |b| <= |a| && b == a[..|b|]
    ensures a[..m] == b[..m]
  {
  }

  /** The final sub-write. */
  lemma LastOut(iov: seq<Iovec>, left: seq<Iovec>, out: seq<nat>, i: nat, start: seq<Take>, plan: seq<Take>, so: Sofar,
                keepSaved: bool, before: seq<nat>, after: seq<nat>, r: nat)
    requires NoStall(iov) && Underway(iov, left, out, i, start, plan, so, keepSaved)
    requires left != [] && !TooBig(left) && NoStall(left)
    requires var e := WriteRun(left, 0, plan);
      Wrote(left, before + out, after, r, e.out) && r <= |left| && (r < |left| <==> e.failed)
    ensures var e := LongRun(iov, start, Beginning());
      && Finished(iov, before, after, i + r, e, keepSaved)
      && e.plan == WriteRun(left, 0, plan).plan && e.at.sizes == so.sizes + [Total(left)]
  {
    hide *;
    UnderwayHas(iov, left, out, i, start, plan, so, keepSaved);
    var e := WriteRun(left, 0, plan);
    LastRun(iov, left, out, i, Actual(so.lost, keepSaved), plan, so);
    if r < |left| {
      WholeIsTruncated(left);
      ShortBytes(iov, left, out, i, Actual(so.lost, keepSaved), before, after, r, |left|, left[|left| - 1].len, e.out);
      FinishedShort(iov, before, after, i + r, so, Total(left), e, keepSaved);
    } else {
      FinishedWhole(iov, left, out, i, so, keepSaved, before, after, r, e);
    }
  }

  lemma WholeIsTruncated(left: seq<Iovec>)
    requires left != []
    ensures Truncated(left, |left|, left[|left| - 1].len) == left
  {
  }

  lemma LastRun(iov: seq<Iovec>, left: seq<Iovec>, out: seq<nat>, i: nat, lost: Option<nat>, plan: seq<Take>, so: Sofar)
    requires Coherent(iov, left, out, i, lost) && NoStall(left) && NoStall(Rest(iov, |out|, i)) && !TooBig(left)
    ensures var e := WriteRun(left, 0, plan);
      LongRun(Rest(iov, |out|, i), plan, so) == LongEnding(Further(so, Total(left), e), e.plan, e.failed)
  {
    hide Total, Addresses, At, NoStall, WriteRun, RightUpTo;
    var ideal := Rest(iov, |out|, i);
    SameButFirstLengths(left, ideal);
    SamePrefixTotals(left, ideal);
    SameRun(left, ideal, 0, plan);
  }

  lemma FinishedWhole(iov: seq<Iovec>, left: seq<Iovec>, out: seq<nat>, i: nat, so: Sofar, keepSaved: bool,
                      before: seq<nat>, after: seq<nat>, r: nat, e: Ending)
    requires Coherent(iov, left, out, i, Actual(so.lost, keepSaved)) && so.out == |out| && left != []
    requires Wrote(left, before + out, after, r, e.out) && r == |left| && !e.failed
    ensures Finished(iov, before, after, i + r, LongEnding(Further(so, Total(left), e), e.plan, e.failed), keepSaved)
    ensures Further(so, Total(left), e).sizes == so.sizes + [Total(left)]
  {
    hide Total, Addresses, At, RightUpTo, Coherent;
    CoherentWhole(iov, left, out, i, Actual(so.lost, keepSaved));
    CoherentPrefix(iov, left, out, i, Actual(so.lost, keepSaved));
    assert Addresses(left)[..Total(left)] == Addresses(left);
    MoreOut(iov, left, out, i, Actual(so.lost, keepSaved), left, Total(left));
    assert after == before + (out + Addresses(left));
    assert after[|before|..] == out + Addresses(left);
  }

  lemma CoherentWhole(iov: seq<Iovec>, left: seq<Iovec>, out: seq<nat>, i: nat, lost: Option<nat>)
    requires Coherent(iov, left, out, i, lost)
    ensures |out| + Total(left) == Total(iov) && i + |left| == |iov|
    ensures Unsent(iov, Rest(iov, |out|, i), |out|, i) && SameLengths(left, Rest(iov, |out|, i))
    ensures |left| == |Rest(iov, |out|, i)| && forall k :: 0 <= k < |left| ==> left[k].len == Rest(iov, |out|, i)[k].len
  {
    hide Total, Addresses, RightUpTo;
    var ideal := Rest(iov, |out|, i);
    RestIsUnsent(iov, |out|, i);
    SameButFirstLengths(left, ideal);
    SamePrefixTotals(left, ideal);
  }

  /**
    One intermediate sub-write of long_writev: entry `count - 1` is cut down to `cut` bytes and taken up again,
    from its saved base or from where the callee left it.
   */
  method SplitWrite(socket: Socket, iov: array<Iovec>, first: nat, count: nat, cut: nat, keepSaved: bool)
    returns (ret: nat, ghost sizes: seq<nat>, ghost nested: nat)
    requires 1 <= count && first + count <= iov.Length && cut < iov[first + count - 1].len
    requires NoStall(Truncated(iov[first..first + count], count, cut))
    requires Total(Truncated(iov[first..first + count], count, cut)) == SUB_WRITE
    modifies socket, iov
    ensures var sub, saved := Truncated(old(iov[first..first + count]), count, cut), old(iov[first + count - 1]);
      var e := WriteRun(sub, 0, old(socket.plan));
      && Wrote(sub, old(socket.sent), socket.sent, ret, e.out)
      && socket.plan == e.plan && (ret < count <==> e.failed) && ret <= count
      && sub != [] && (ret == count ==> iov[first + count - 1].len == saved.len - cut)
      && var moved := if keepSaved then 0 else Past(sub, LastStop(e.stops));
      ret == count ==> iov[first + count - 1].base == saved.base + moved + cut
    ensures sizes == [SUB_WRITE] && nested == 0
    ensures forall k :: 0 <= k < iov.Length && !(first <= k < first + count) ==> iov[k] == old(iov[k])
    decreases Total(Truncated(iov[first..first + count], count, cut)), 3
  {
    hide Total, Addresses, NoStall, At, Past, LastStop, WriteRun, WritevRun, Finished, Wrote;
    var k := first + count - 1;
    var saved := iov[k];
    ghost var sub := Truncated(iov[first..first + count], count, cut);
    iov[k] := Iovec(saved.base, cut);
    assert iov[first..first + count] == sub;
    ret, sizes, nested := WritevFunc(socket, iov, first, count, keepSaved);
    if ret == count {
      assert sub[count - 1].base == saved.base;
      var base := if keepSaved then saved.base else iov[k].base;
      iov[k] := Iovec(base + cut, saved.len - cut);
    }
  }

  /**
    libcmsockets_LTX_writev_func.  It does what its specification does under the kernel's schedule; `sizes`
    are the sub-writes it makes, and `nested` is how deep calls of long_writev nest.
   */
  method WritevFunc(socket: Socket, iov: array<Iovec>, first: nat, count: nat, keepSaved: bool)
    returns (ret: nat, ghost sizes: seq<nat>, ghost nested: nat)
    requires first + count <= iov.Length && NoStall(iov[first..first + count])
    modifies socket, iov
    ensures var message := old(iov[first..first + count]); var e := WritevRun(message, old(socket.plan));
      && Finished(message, old(socket.sent), socket.sent, ret, e, keepSaved)
      && socket.plan == e.plan && sizes == e.at.sizes && ret <= count
    ensures var message := old(iov[first..first + count]); var e := WriteRun(message, 0, old(socket.plan));
      Total(message) <= MAX_RW_COUNT ==> (
        && Wrote(message, old(socket.sent), socket.sent, ret, e.out) && (ret < count <==> e.failed)
        && socket.plan == e.plan && sizes == [Total(message)]
        && (ret == count > 0 ==> iov[first + count - 1].base == message[count - 1].base + Past(message, LastStop(e.stops))))
    ensures nested == if Total(old(iov[first..first + count])) > MAX_RW_COUNT then 1 else 0
    ensures forall k :: 0 <= k < iov.Length && !(first <= k < first + count) ==> iov[k] == old(iov[k])
    decreases Total(iov[first..first + count]), 2
  {
    hide Total, Addresses, NoStall, At, Past, LastStop, WriteRun, LongRun, Finished;
    var left := SumLengths(iov, first, count);
    if left > MAX_RW_COUNT {
      ret, sizes, nested := LongWritev(socket, iov, first, count, left, keepSaved);
    } else {
      ghost var message, plan, before := iov[first..first + count], socket.plan, socket.sent;
      ret := WriteLoop(socket, iov, first, count, left);
      sizes, nested := [left], 0;
      ShortFinished(message, plan, before, socket.sent, ret, keepSaved);
    }
  }

  lemma ShortFinished(iov: seq<Iovec>, plan: seq<Take>, before: seq<nat>, after: seq<nat>, ret: nat, keepSaved: bool)
    requires NoStall(iov) && Total(iov) <= MAX_RW_COUNT
    requires var e := WriteRun(iov, 0, plan);
      Wrote(iov, before, after, ret, e.out) && (ret < |iov| <==> e.failed)
    ensures Finished(iov, before, after, ret, WritevRun(iov, plan), keepSaved)
    ensures WritevRun(iov, plan).plan == WriteRun(iov, 0, plan).plan && WritevRun(iov, plan).at.sizes == [Total(iov)]
  {
    hide Total, Addresses, NoStall, At, WriteRun;
    var e := WriteRun(iov, 0, plan);
    assert after[|before|..] == Addresses(iov)[..e.out];
  }

  /** The summing loop of libcmsockets_LTX_writev_func. */
  method SumLengths(iov: array<Iovec>, first: nat, count: nat) returns (left: nat)
    requires first + count <= iov.Length
    ensures left == Total(iov[first..first + count])
  {
    ghost var src := iov[first..first + count];
    left := 0;
    var i := 0;
    while i < count
      invariant i <= count && left == Total(src[..i])
    {
      TotalAt(src, i);
      left := left + iov[first + i].len;
      i := i + 1;
    }
    assert src[..i] == src;
  }

  /** The branch of long_writev that cuts entry `curCnt - 1` behind `curBase` and goes on in the middle of it. */
  method CutAndGoOn(socket: Socket, iov: array<Iovec>, first: nat, count: nat, curBase: nat, curCnt: nat, cut: nat,
                    keepSaved: bool, ghost message: seq<Iovec>, ghost before: seq<nat>, ghost out: seq<nat>,
                    ghost start: seq<Take>, ghost so: Sofar)
    returns (r: nat, ghost sizes: seq<nat>, ghost nested: nat, ghost out': seq<nat>, ghost so': Sofar)
    requires first + count <= iov.Length && NoStall(message) && 1 <= curCnt <= count - curBase
    requires Underway(message, iov[first + curBase..first + count], out, curBase, start, socket.plan, so, keepSaved)
    requires socket.sent == before + out && CutHere(iov[first + curBase..first + count], curCnt, cut)
    requires Total(iov[first + curBase..first + curBase + curCnt - 1]) + cut == SUB_WRITE
    modifies socket, iov
    ensures r <= curCnt && sizes == [SUB_WRITE] && nested == 0
    ensures var e := LongRun(message, start, Beginning());
      r < curCnt ==> (
        && curBase + r < |message| && Finished(message, before, socket.sent, curBase + r, e, keepSaved)
        && socket.plan == e.plan && e.at.sizes == so.sizes + sizes)
    ensures r == curCnt ==>
      && Underway(message, iov[first + curBase + curCnt - 1..first + count], out', curBase + curCnt - 1, start, socket.plan, so', keepSaved)
      && socket.sent == before + out' && so'.sizes == so.sizes + sizes
      && Total(iov[first + curBase + curCnt - 1..first + count]) == Total(old(iov[first + curBase..first + count])) - SUB_WRITE
    ensures forall k :: 0 <= k < iov.Length && !(first <= k < first + count) ==> iov[k] == old(iov[k])
    decreases Total(iov[first + curBase..first + curBase + curCnt - 1]) + cut, 4
  {
    hide *;
    ghost var rest, plan := iov[first + curBase..first + count], socket.plan;
    ghost var front := iov[first + curBase..first + curBase + curCnt];
    assert rest[..curCnt] == front && rest[..curCnt - 1] == iov[first + curBase..first + curBase + curCnt - 1];
    CutHereHas(rest, curCnt, cut);
    CutHereIs(rest, curCnt, cut);
    SameTruncated(rest, front, curCnt, cut);
    UnderwayHas(message, rest, out, curBase, start, plan, so, keepSaved);
    NoStallBehind(rest);
    ghost var sub := Truncated(rest, curCnt, cut);
    ghost var tail, at := iov[first + curBase + curCnt..first + count], first + curBase + curCnt;
    assert tail == rest[curCnt..] && rest[curCnt - 1] == iov[at - 1];
    r, sizes, nested := SplitWrite(socket, iov, first + curBase, curCnt, cut, keepSaved);
    ghost var e := WriteRun(sub, 0, plan);
    WriteRunEnds(sub, plan);
    if r < curCnt {
      out', so' := out, so;
      StoppedShort(message, rest, out, curBase, start, plan, so, keepSaved, before, socket.sent, r, curCnt, cut);
    } else {
      out', so' := out + Addresses(sub), TakenUp(so, sub, e);
      ghost var next := [iov[at - 1]] + tail;
      forall k | 0 <= k < |tail| ensures iov[at + k] == tail[k] {
        assert tail[k] == old(iov[at + k]);
      }
      assert next == iov[at - 1..first + count];
      AfterCut(message, rest, out, curBase, start, plan, so, keepSaved, curCnt, cut, next, before, socket.sent, r);
    }
  }

  lemma AfterCut(iov: seq<Iovec>, left: seq<Iovec>, out: seq<nat>, i: nat, start: seq<Take>, plan: seq<Take>, so: Sofar,
                 keepSaved: bool, count: nat, cut: nat, next: seq<Iovec>, before: seq<nat>, after: seq<nat>, r: nat)
    requires NoStall(iov) && Underway(iov, left, out, i, start, plan, so, keepSaved) && CutHere(left, count, cut)
    requires 1 <= count <= |left| && NoStall(Truncated(left, count, cut)) && Truncated(left, count, cut) != []
    requires var sub := Truncated(left, count, cut); var e := WriteRun(sub, 0, plan);
      && !e.failed && Wrote(sub, before + out, after, r, e.out) && r == |sub|
      && next != [] && next[1..] == left[count..] && next[0].len == left[count - 1].len - cut
      && var moved := if keepSaved then 0 else Past(sub, LastStop(e.stops));
      next[0].base == left[count - 1].base + moved + cut
    ensures var sub := Truncated(left, count, cut); var e := WriteRun(sub, 0, plan);
      && Underway(iov, next, out + Addresses(sub), i + count - 1, start, e.plan, TakenUp(so, sub, e), keepSaved)
      && after == before + (out + Addresses(sub)) && TakenUp(so, sub, e).sizes == so.sizes + [SUB_WRITE]
      && Total(next) == Total(left) - SUB_WRITE
  {
    hide *;
    CutHereHas(left, count, cut);
    CutHereIs(left, count, cut);
    var sub := Truncated(left, count, cut);
    var e := WriteRun(sub, 0, plan);
    var moved := if keepSaved then 0 else Past(sub, LastStop(e.stops));
    assert next == [Iovec(left[count - 1].base + moved + cut, left[count - 1].len - cut)] + left[count..];
    Onward(iov, left, out, i, start, plan, so, keepSaved, count, cut, next);
    WroteAll(sub, before + out, after, r, e.out);
    assert before + out + Addresses(sub) == before + (out + Addresses(sub));
    NextLengths(left, next, count, cut);
    TakenUpSizes(so, sub, e);
  }

  lemma WroteAll(iov: seq<Iovec>, before: seq<nat>, after: seq<nat>, ret: nat, n: nat)
    requires Wrote(iov, before, after, ret, n) && ret == |iov|
    ensures after == before + Addresses(iov)
  {
    hide Addresses, Total, At;
    assert Addresses(iov)[..Total(iov)] == Addresses(iov);
  }

  lemma TakenUpSizes(so: Sofar, sub: seq<Iovec>, e: Ending)
    requires sub != []
    ensures TakenUp(so, sub, e).sizes == so.sizes + [Total(sub)]
  {
  }

  lemma WriteRunEnds(iov: seq<Iovec>, plan: seq<Take>)
    requires NoStall(iov)
    ensures !WriteRun(iov, 0, plan).failed <==> WriteRun(iov, 0, plan).out == Total(iov)
  {
  }

  lemma SameTruncated(a: seq<Iovec>, b: seq<Iovec>, count: nat, cut: nat)
    requires 1 <= count == |b| <= |a| && a[..count] == b
    ensures Truncated(a, count, cut) == Truncated(b, count, cut)
  {
    assert a[..count][..count - 1] == a[..count - 1];
  }

  /**
    One turn of long_writev's outer loop: sub-writes of SUB_WRITE bytes until what is left fits in one, and that
    one.
   */
  method LongPass(socket: Socket, iov: array<Iovec>, first: nat, count: nat, left: nat, keepSaved: bool)
    returns (ret: nat, left': int, ghost sizes: seq<nat>, ghost nested: nat)
    requires first + count <= iov.Length && NoStall(iov[first..first + count])
    requires left == Total(iov[first..first + count]) > MAX_RW_COUNT
    modifies socket, iov
    ensures var message := old(iov[first..first + count]); var e := LongRun(message, old(socket.plan), Beginning());
      && Finished(message, old(socket.sent), socket.sent, ret, e, keepSaved)
      && socket.plan == e.plan && sizes == e.at.sizes
    ensures ret <= count && (ret == count ==> left' == 0) && nested == 0
    ensures forall k :: 0 <= k < iov.Length && !(first <= k < first + count) ==> iov[k] == old(iov[k])
    decreases left, 0
  {
    hide Total, Addresses, NoStall, At, Underway, LongRun, Finished, CutHere, Beginning;
    ghost var message, before, start := iov[first..first + count], socket.sent, socket.plan;
    ghost var out: seq<nat>, so: Sofar, deepest: nat := [], Beginning(), 0;
    var curBase: nat, curCnt: nat, writeSize: nat := 0, 0, 0;
    left' := left;
    sizes, nested := [], 0;
    StartUnderway(message, start, keepSaved);
    EmptyAddresses();
    assert iov[first..first + count][..0] == [] && socket.sent == before + [];
    BeginningSizes();
    while curCnt + curBase < count
      invariant curCnt + curBase <= count && (curBase < count || count == 0)
      invariant Underway(message, iov[first + curBase..first + count], out, curBase, start, socket.plan, so, keepSaved)
      invariant socket.sent == before + out && sizes == so.sizes && nested == 0
      invariant writeSize == Total(iov[first + curBase..first + count][..curCnt]) <= SUB_WRITE
      invariant left' == Total(iov[first + curBase..first + count])
      invariant forall k :: 0 <= k < iov.Length && !(first <= k < first + count) ==> iov[k] == old(iov[k])
      decreases count - curBase, left', count - curCnt
    {
      ghost var rest := iov[first + curBase..first + count];
      curCnt := curCnt + 1;
      var k := first + curCnt + curBase - 1;
      TotalAt(rest, curCnt - 1);
      if writeSize + iov[k].len + TRAIL_BUFFER > MAX_RW_COUNT {
        var cut := MAX_RW_COUNT - writeSize - TRAIL_BUFFER;
        SliceFront(iov[..], first + curBase, first + count, curCnt - 1);
        IsCutHere(rest, curCnt, cut);
        TotalGrows(rest, curCnt, |rest|);
        var r;
        ghost var more;
        r, more, deepest, out, so := CutAndGoOn(socket, iov, first, count, curBase, curCnt, cut, keepSaved, message, before, out, start, so);
        sizes, nested := sizes + more, Max(deepest, nested);
        if r != curCnt {
          ret := r + curBase;
          return;
        }
        left' := left' - (writeSize + cut);
        curBase, curCnt, writeSize := curBase + (curCnt - 1), 0, 0;
        assert iov[first + curBase..first + count][..0] == [];
      } else {
        writeSize := writeSize + iov[k].len;
      }
    }
    ghost var rest := iov[first + curBase..first + count];
    assert rest[..curCnt] == rest;
    var r;
    ghost var more;
    r, more, deepest := LastWrite(socket, iov, first, count, curBase, curCnt, keepSaved, message, before, out, start, so);
    sizes, nested := sizes + more, Max(deepest, nested);
    ret := r + curBase;
    left' := left' - writeSize;
  }

  lemma SliceFront(iov: seq<Iovec>, from: nat, to: nat, n: nat)
    requires from + n <= to <= |iov|
    ensures iov[from..to][..n] == iov[from..from + n]
  {
  }

  lemma BeginningSizes()
    ensures Beginning().sizes == []
  {
  }

  lemma IsCutHere(left: seq<Iovec>, count: nat, cut: nat)
    requires 1 <= count <= |left| && cut < left[count - 1].len && Total(left[..count - 1]) + cut == SUB_WRITE
    ensures CutHere(left, count, cut)
  {
  }

  /** The final sub-write of long_writev. */
  method LastWrite(socket: Socket, iov: array<Iovec>, first: nat, count: nat, curBase: nat, curCnt: nat,
                   keepSaved: bool, ghost message: seq<Iovec>, ghost before: seq<nat>, ghost out: seq<nat>,
                   ghost start: seq<Take>, ghost so: Sofar)
    returns (r: nat, ghost sizes: seq<nat>, ghost nested: nat)
    requires first + count <= iov.Length && NoStall(message) && curBase + curCnt == count && |message| == count
    requires Underway(message, iov[first + curBase..first + count], out, curBase, start, socket.plan, so, keepSaved)
    requires socket.sent == before + out && curCnt > 0
    requires Total(iov[first + curBase..first + count]) <= SUB_WRITE
    modifies socket, iov
    ensures var e := LongRun(message, start, Beginning());
      && Finished(message, before, socket.sent, r + curBase, e, keepSaved)
      && socket.plan == e.plan && e.at.sizes == so.sizes + sizes
    ensures r <= curCnt && nested == 0
    ensures forall k :: 0 <= k < iov.Length && !(first <= k < first + count) ==> iov[k] == old(iov[k])
    decreases Total(iov[first + curBase..first + count]), 3
  {
    hide Total, Addresses, NoStall, At, Underway, LongRun, Finished, WriteRun, Coherent, Rest;
    ghost var rest, plan := iov[first + curBase..first + count], socket.plan;
    UnderwayHas(message, rest, out, curBase, start, plan, so, keepSaved);
    r, sizes, nested := WritevFunc(socket, iov, first + curBase, curCnt, keepSaved);
    LastOut(message, rest, out, curBase, start, plan, so, keepSaved, before, socket.sent, r);
  }

  /**
    long_writev: it does what its specification does under the kernel's schedule, in sub-writes of at most
    SUB_WRITE bytes none of which is oversize itself.  With the saved base put back, every byte that goes out
    is the message's; as it is written, those are right up to where the specification says they are lost.
   */
  method LongWritev(socket: Socket, iov: array<Iovec>, first: nat, count: nat, length: nat, keepSaved: bool)
    returns (ret: nat, ghost sizes: seq<nat>, ghost nested: nat)
    requires first + count <= iov.Length && NoStall(iov[first..first + count])
    requires length == Total(iov[first..first + count]) > MAX_RW_COUNT
    modifies socket, iov
    ensures var message := old(iov[first..first + count]); var e := LongRun(message, old(socket.plan), Beginning());
      && Finished(message, old(socket.sent), socket.sent, ret, e, keepSaved)
      && socket.plan == e.plan && sizes == e.at.sizes
    ensures ret <= count && nested == 1 && forall size <- sizes :: size <= SUB_WRITE
    ensures forall k :: 0 <= k < iov.Length && !(first <= k < first + count) ==> iov[k] == old(iov[k])
    decreases length, 1
  {
    hide Total, Addresses, NoStall, At, LongRun, Finished, Beginning;
    ghost var message, start := iov[first..first + count], socket.plan;
    var left: int := length;
    ret, sizes, nested := count, [], 1;
    while left > 0
      invariant left == length || left == 0
      invariant left > 0 ==> socket.sent == old(socket.sent) && socket.plan == start && iov[..] == old(iov[..])
      invariant left == 0 ==>
        var e := LongRun(message, start, Beginning());
        && ret == count && Finished(message, old(socket.sent), socket.sent, ret, e, keepSaved)
        && socket.plan == e.plan && sizes == e.at.sizes
      invariant nested == 1
      invariant forall k :: 0 <= k < iov.Length && !(first <= k < first + count) ==> iov[k] == old(iov[k])
    {
      assert iov[first..first + count] == message;
      ghost var within;
      ret, left, sizes, within := LongPass(socket, iov, first, count, left, keepSaved);
      nested := 1 + within;
      if ret != count {
        SmallSizes(message, start);
        return;
      }
    }
    SmallSizes(message, start);
  }

  lemma SmallSizes(iov: seq<Iovec>, plan: seq<Take>)
    requires NoStall(iov)
    ensures forall size <- LongRun(iov, plan, Beginning()).at.sizes :: size <= SUB_WRITE
  {
    hide LongRun;
    LongRunBounds(iov, plan, Beginning());
  }
}
