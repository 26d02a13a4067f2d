/** Short non-blocking writes: queueing what is left of a message, and draining the queue. */
module WriteQueue {
  import opened Bytes
  import opened Vectors

  const REM_HEADER_SIZE: nat := 32

  // ---------- The queue as a value ----------

  /** queued_data_rec: what is left of a header, of an attribute block and of the data. */
  datatype Queue = Queue(header: seq<Byte>, attr: seq<Byte>, data: seq<Byte>) {
    function Pending(): seq<Byte> {
      header + attr + data
    }

    /** At most one of the three sections holds bytes. */
    predicate OneSection() {
      (header == [] && attr == []) || (header == [] && data == []) || (attr == [] && data == [])
    }
  }

  /**
    The queue after a call of CMWriteQueuedData in which the transport takes `k` bytes in all, fewer than
    are pending.  cm.c leaves the lengths of finished sections as they are; `clearing` zeroes them.
   */
  function Blocked(q: Queue, clearing: bool, k: nat): Queue
    requires k < |q.Pending()|
  {
    var h, a := |q.header|, |q.attr|;
    if k < h then q.(header := q.header[k..])
    else
      var header := if clearing then [] else q.header;
      if k < h + a then Queue(header, q.attr[k - h..], q.data)
      else Queue(header, if clearing then [] else q.attr, q.data[k - h - a..])
  }

  /** Bytes on the wire and the queue left behind; `None` once write_pending has been cleared. */
  datatype Progress = Progress(sent: seq<Byte>, queue: Option<Queue>) {
    function Total(): seq<Byte> {
      if queue.Some? then sent + queue.value.Pending() else sent
    }
  }

  /** One call: the transport takes `k` bytes, or everything if that is less. */
  function Drain(q: Queue, clearing: bool, k: nat): Progress {
    if k < |q.Pending()| then Progress(q.Pending()[..k], Some(Blocked(q, clearing, k)))
    else Progress(q.Pending(), None)
  }

  /** Calls until the schedule is used up or nothing is pending. */
  function DrainAll(q: Queue, clearing: bool, ks: seq<nat>): Progress
    decreases |ks|
  {
    if ks == [] then Progress([], Some(q))
    else
      var first := Drain(q, clearing, ks[0]);
      if first.queue.None? then first
      else
        var others := DrainAll(first.queue.value, clearing, ks[1..]);
        Progress(first.sent + others.sent, others.queue)
  }

  /** With every finished section cleared, what is left is what was not sent. */
  lemma ClearedLeavesRest(q: Queue, k: nat)
    requires k < |q.Pending()|
    ensures Blocked(q, true, k).Pending() == q.Pending()[k..]
  {
  }

  /** Finished sections that keep their length are pending a second time. */
  lemma KeptSectionsStay(q: Queue, k: nat)
    requires k < |q.Pending()|
    ensures var kept := (if k < |q.header| then 0 else |q.header|)
                      + (if k < |q.header| + |q.attr| then 0 else |q.attr|);
      |Blocked(q, false, k).Pending()| == |q.Pending()| - k + kept
    ensures var finished := (if k < |q.header| then [] else q.header)
                          + (if k < |q.header| + |q.attr| then [] else q.attr);
      finished == [] ==> Blocked(q, false, k) == Blocked(q, true, k)
  {
  }

  /** A call that blocks conserves the queue exactly when it leaves no finished section behind with a length. */
  lemma BlockedConserves(q: Queue, clearing: bool, k: nat)
    requires k < |q.Pending()|
    ensures q.Pending()[..k] + Blocked(q, clearing, k).Pending() == q.Pending() <==>
            clearing || k < |q.header| || (q.header == [] && (k < |q.attr| || q.attr == []))
  {
    ClearedLeavesRest(q, k);
    KeptSectionsStay(q, k);
    hide Blocked;
    var all := q.Pending();
    assert all[..k] + all[k..] == all;
    assert |all[..k] + Blocked(q, clearing, k).Pending()| == k + |Blocked(q, clearing, k).Pending()|;
  }

  lemma SentBefore(sent: seq<Byte>, others: Progress)
    ensures Progress(sent + others.sent, others.queue).Total() == sent + others.Total()
  {
    if others.queue.Some? {
      var pending := others.queue.value.Pending();
      assert sent + others.sent + pending == sent + (others.sent + pending);
    }
  }

  /** With finished sections cleared, every schedule sends the queued bytes once and in order. */
  lemma {:induction false} ClearingDrainConserves(q: Queue, ks: seq<nat>)
    ensures DrainAll(q, true, ks).Total() == q.Pending()
    ensures DrainAll(q, true, ks).queue.None? ==> DrainAll(q, true, ks).sent == q.Pending()
    decreases |ks|
  {
    if ks != [] && ks[0] < |q.Pending()| {
      var next := Blocked(q, true, ks[0]);
      BlockedConserves(q, true, ks[0]);
      ClearingDrainConserves(next, ks[1..]);
      hide Blocked;
      SentBefore(q.Pending()[..ks[0]], DrainAll(next, true, ks[1..]));
    }
  }

  lemma {:induction false} OneSectionDrainConserves(q: Queue, ks: seq<nat>)
    requires q.OneSection()
    ensures DrainAll(q, false, ks).Total() == q.Pending()
    decreases |ks|
  {
    if ks != [] && ks[0] < |q.Pending()| {
      var next := Blocked(q, false, ks[0]);
      BlockedConserves(q, false, ks[0]);
      OneSectionDrainConserves(next, ks[1..]);
      hide Blocked;
      SentBefore(q.Pending()[..ks[0]], DrainAll(next, false, ks[1..]));
    }
  }

  predicate Conserves(q: Queue, ks: seq<nat>) {
    DrainAll(q, false, ks).Total() == q.Pending()
  }

  /** As cm.c stands, a queue survives every schedule exactly when at most one of its sections holds bytes. */
  lemma DrainConservesIffOneSection(q: Queue)
    ensures (forall ks :: Conserves(q, ks)) <==> q.OneSection()
  {
    if q.OneSection() {
      forall ks ensures Conserves(q, ks) {
        OneSectionDrainConserves(q, ks);
      }
    } else {
      var k := if q.header != [] then |q.header| else |q.attr|;
      BlockedConserves(q, false, k);
      OneCall(q, false, k);
      assert !Conserves(q, [k]);
    }
  }

  lemma OneCall(q: Queue, clearing: bool, k: nat)
    requires k < |q.Pending()|
    ensures DrainAll(q, clearing, [k]) == Progress(q.Pending()[..k], Some(Blocked(q, clearing, k)))
  {
    var next := Blocked(q, clearing, k);
    assert [k][1..] == [] && DrainAll(next, clearing, []) == Progress([], Some(next));
    assert q.Pending()[..k] + [] == q.Pending()[..k];
  }

  /** A concrete run: two header bytes and one data byte; the socket takes two, then the rest.  The header goes out twice. */
  lemma DrainRepeatsHeader()
    ensures DrainAll(Queue([1, 2], [], [3]), false, [2, 9]) == Progress([1, 2, 1, 2, 3], None)
    ensures DrainAll(Queue([1, 2], [], [3]), true, [2, 9]) == Progress([1, 2, 3], None)
  {
    var q := Queue([1, 2], [], [3]);
    assert [2 as nat, 9][1..] == [9 as nat];
    assert Blocked(q, false, 2) == q;
    assert Blocked(q, true, 2) == Queue([], [], [3]);
  }

  /** Drain, section by section: where the transport stopped decides what is left. */
  lemma DrainBySection(q: Queue)
    ensures forall n: nat :: n < |q.header| ==>
      Drain(q, false, n) == Progress(q.header[..n], Some(q.(header := q.header[n..])))
    ensures forall n: nat :: n < |q.attr| ==>
      Drain(q, false, |q.header| + n) == Progress(q.header + q.attr[..n], Some(q.(attr := q.attr[n..])))
    ensures forall n: nat :: n < |q.data| ==>
      Drain(q, false, |q.header| + |q.attr| + n)
      == Progress(q.header + q.attr + q.data[..n], Some(q.(data := q.data[n..])))
    ensures Drain(q, false, |q.header| + |q.attr| + |q.data|) == Progress(q.header + q.attr + q.data, None)
  {
  }

  // ---------- queue_remaining_write ----------

  /** A message split after its first `done` bytes: header, attribute block and data behind them. */
  function SplitMessage(header: seq<Byte>, attr: seq<Byte>, data: seq<Byte>, done: nat): Queue {
    var h, a := |header|, |attr|;
    Queue(if done < h then header[done..] else [],
          if done < h then attr else if done < h + a then attr[done - h..] else [],
          if done < h + a then data else if done <= h + a + |data| then data[done - h - a..] else [])
  }

  lemma SplitConserves(header: seq<Byte>, attr: seq<Byte>, data: seq<Byte>, done: nat)
    requires done <= |header + attr + data|
    ensures SplitMessage(header, attr, data, done).Pending() == (header + attr + data)[done..]
  {
  }

  /** The first loop of queue_remaining_write. */
  method TotalBytes(vec: array<Iov>, count: nat) returns (total: nat)
    requires count <= vec.Length && NoNull(vec[..count])
    ensures total == |Gather(vec[..count])|
  {
    total := 0;
    ghost var src := vec[..count];
    var i := 0;
    while i < count
      invariant i <= count && total == |Gather(src[..i])|
    {
      CopyStep(src, i);
      total := total + |vec[i].data|;
      i := i + 1;
    }
    assert src[..i] == src;
  }

  /** A short first write and a clearing drain put the message on the wire once, under every schedule. */
  lemma ShortWriteThenDrain(header: seq<Byte>, attr: seq<Byte>, data: seq<Byte>, done: nat, ks: seq<nat>)
    requires done < |header + attr + data|
    ensures var message := header + attr + data;
      var progress := DrainAll(SplitMessage(header, attr, data, done), true, ks);
      && message[..done] + progress.Total() == message
      && (progress.queue.None? ==> message[..done] + progress.sent == message)
  {
    hide SplitMessage, DrainAll;
    SplitConserves(header, attr, data, done);
    ClearingDrainConserves(SplitMessage(header, attr, data, done), ks);
  }

  /**
    As cm.c stands, a message with data survives every drain schedule exactly when its first, short write
    already got past the header and the attribute block.
   */
  lemma ShortWriteSurvivesIff(header: seq<Byte>, attr: seq<Byte>, data: seq<Byte>, done: nat)
    requires data != [] && done < |header + attr + data|
    ensures (forall ks :: Conserves(SplitMessage(header, attr, data, done), ks)) <==> done >= |header| + |attr|
  {
    hide Conserves;
    var q := SplitMessage(header, attr, data, done);
    DrainConservesIffOneSection(q);
    assert q.OneSection() <==> done >= |header| + |attr|;
  }

  /** Walks over the vectors that are out and trims the one that is not; stops at the first that may be short. */
  method TrimSent(vec: array<Iov>, first: nat, count: nat, written: nat) returns (i: nat, offset: nat)
    requires first + count <= vec.Length && NoNull(vec[first..first + count])
    requires written < |Gather(vec[first..first + count])|
    modifies vec
    ensures i < count && old(vec[first + i]).Iov? && offset <= |old(vec[first + i].data)|
    ensures offset == written - |Gather(old(vec[first..first + i]))|
    ensures i > 0 ==> offset > 0
    ensures vec[..] == old(vec[..])[first + i := Iov(old(vec[first + i].data)[offset..])]
  {
    i := 0;
    var left := written;
    ghost var src := vec[first..first + count];
    while left > |vec[first + i].data|
      invariant i < count && left == written - |Gather(src[..i])|
      invariant i > 0 ==> left > 0
      invariant vec[..] == old(vec[..])
      decreases count - i
    {
      SentVector(src, i);
      left := left - |vec[first + i].data|;
      i := i + 1;
    }
    assert src[..i] == old(vec[first..first + i]);
    assert src[i] == vec[first + i];
    vec[first + i] := Iov(vec[first + i].data[left..]);
    offset := left;
  }

  lemma SentVector(vec: seq<Iov>, i: nat)
    requires i < |vec| && NoNull(vec)
    ensures Gather(vec[..i + 1]) == Gather(vec[..i]) + vec[i].data
    ensures |Gather(vec)| > |Gather(vec[..i + 1])| ==> i + 1 < |vec|
  {
    GatherOne(vec, i);
    assert i + 1 == |vec| ==> vec[..i + 1] == vec;
  }

  /** The parts of a vector that starts with a header and, if `skip` is 2, an attribute block. */
  lemma MessageParts(vec: seq<Iov>, skip: nat)
    requires 1 <= skip <= 2 && skip <= |vec| && NoNull(vec)
    ensures Gather(vec) == vec[0].data + (if skip == 2 then vec[1].data else []) + Gather(vec[skip..])
  {
    hide Gather;
    assert vec[0].Iov? && vec == [Iov(vec[0].data)] + vec[1..];
    GatherCons(vec[0].data, vec[1..]);
    if skip == 1 {
      assert vec[0].data + [] == vec[0].data;
    } else {
      var a, b, rest := vec[0].data, vec[1].data, vec[2..];
      assert vec[1].Iov? && vec[1..] == [Iov(b)] + rest;
      GatherCons(b, rest);
      assert a + (b + Gather(rest)) == a + b + Gather(rest);
    }
  }

  /** Where TrimSent stops, read as a split of the message. */
  lemma SplitAtVector(vec: seq<Iov>, skip: nat, written: nat, i: nat, offset: nat)
    requires 1 <= skip <= 2 && skip <= |vec| && NoNull(vec) && i < |vec|
    requires offset <= |vec[i].data| && offset == written - |Gather(vec[..i])|
    requires i > 0 ==> offset > 0
    ensures var after := vec[i := Iov(vec[i].data[offset..])];
      SplitMessage(vec[0].data, if skip == 2 then vec[1].data else [], Gather(vec[skip..]), written)
      == Queue(if i == 0 then after[0].data else [],
               if skip == 2 && i <= 1 then after[1].data else [],
               Gather(after[if i < skip then skip else i..]))
  {
    if i < skip {
      SplitInFront(vec, skip, written, i, offset);
    } else {
      SplitInData(vec, skip, written, i, offset);
      hide Gather;
      var after := vec[i := Iov(vec[i].data[offset..])];
      MessageParts(vec[..i], skip);
      assert vec[..i][skip..] == vec[skip..i];
    }
  }

  lemma QueueGoal(before: seq<Iov>, after: seq<Iov>, skip: nat, written: nat, i: nat, offset: nat) returns (goal: Queue)
    requires 1 <= skip <= 2 && skip <= |before| && NoNull(before) && i < |before|
    requires offset <= |before[i].data| && offset == written - |Gather(before[..i])| && (i > 0 ==> offset > 0)
    requires after == before[i := Iov(before[i].data[offset..])] && written <= |Gather(before)|
    ensures goal == SplitMessage(before[0].data, if skip == 2 then before[1].data else [], Gather(before[skip..]), written)
    ensures goal == Queue(if i == 0 then after[0].data else [],
                          if skip == 2 && i <= 1 then after[1].data else [],
                          Gather(after[if i < skip then skip else i..]))
    ensures |goal.header| + |goal.attr| + |goal.data| == |Gather(before)| - written
  {
    hide Gather, SplitMessage;
    var attr := if skip == 2 then before[1].data else [];
    goal := SplitMessage(before[0].data, attr, Gather(before[skip..]), written);
    MessageParts(before, skip);
    SplitConserves(before[0].data, attr, Gather(before[skip..]), written);
    SplitAtVector(before, skip, written, i, offset);
  }

  lemma SplitInFront(vec: seq<Iov>, skip: nat, written: nat, i: nat, offset: nat)
    requires 1 <= skip <= 2 && skip <= |vec| && NoNull(vec) && i < skip
    requires offset <= |vec[i].data| && offset == written - |Gather(vec[..i])|
    requires i > 0 ==> offset > 0
    ensures var after := vec[i := Iov(vec[i].data[offset..])];
      SplitMessage(vec[0].data, if skip == 2 then vec[1].data else [], Gather(vec[skip..]), written)
      == Queue(if i == 0 then after[0].data else [], if skip == 2 then after[1].data else [], Gather(after[skip..]))
  {
    var after := vec[i := Iov(vec[i].data[offset..])];
    assert after[skip..] == vec[skip..];
    if i == 0 {
      assert vec[..0] == [];
    } else {
      assert vec[..1] == [vec[0]];
      assert Gather(vec[..1]) == vec[0].data;
    }
  }

  lemma SplitInData(vec: seq<Iov>, skip: nat, written: nat, i: nat, offset: nat)
    requires 1 <= skip <= i < |vec| && NoNull(vec)
    requires offset <= |vec[i].data|
    ensures var after := vec[i := Iov(vec[i].data[offset..])];
      var done := |Gather(vec[skip..i])| + offset;
      done <= |Gather(vec[skip..])| && Gather(vec[skip..])[done..] == Gather(after[i..])
  {
    hide Gather;
    var after, tail := vec[i := Iov(vec[i].data[offset..])], vec[skip..];
    TrimmedRest(tail, i - skip, offset);
    assert tail[..i - skip] == vec[skip..i];
    assert tail[i - skip := Iov(tail[i - skip].data[offset..])][i - skip..] == after[i..];
  }

  /** What is left in a vector that TrimSent has trimmed. */
  lemma TrimmedRest(vec: seq<Iov>, i: nat, offset: nat)
    requires i < |vec| && NoNull(vec[..i + 1]) && offset <= |vec[i].data|
    ensures var after := vec[i := Iov(vec[i].data[offset..])];
      var done := |Gather(vec[..i])| + offset;
      done <= |Gather(vec)| && Gather(vec)[done..] == Gather(after[i..])
  {
    hide Gather;
    var after := vec[i := Iov(vec[i].data[offset..])];
    forall k | 0 <= k < i ensures vec[..i][k].Iov? {
      assert vec[..i][k] == vec[..i + 1][k];
    }
    GatherSplit(vec, i);
    GatherOne(vec, i);
    assert after[i..] == [Iov(vec[i].data[offset..])] + vec[i + 1..];
    GatherCons(vec[i].data[offset..], vec[i + 1..]);
    DropAcross(Gather(vec[..i]), vec[i].data, Gather(vec[i + 1..]), offset);
  }

  lemma DropAcross(a: seq<Byte>, b: seq<Byte>, c: seq<Byte>, offset: nat)
    requires offset <= |b|
    ensures (a + (b + c))[|a| + offset..] == b[offset..] + c
  {
  }

  /** memcpy of one vector into the queue's buffer. */
  method CopyVector(buffer: array<Byte>, at: nat, v: seq<Byte>)
    requires at + |v| <= buffer.Length
    modifies buffer
    ensures buffer[..at + |v|] == old(buffer[..at]) + v
  {
    forall i | 0 <= i < |v| {
      buffer[at + i] := v[i];
    }
  }

  /** The copy loop for data that is not FFS: entries `first` to `count` of the full vector. */
  method CopyCounted(vec: array<Iov>, first: nat, count: nat, length: nat) returns (buffer: array<Byte>)
    requires first <= count <= vec.Length && NoNull(vec[first..count])
    requires length == |Gather(vec[first..count])|
    ensures fresh(buffer) && buffer[..] == Gather(vec[first..count])
  {
    buffer := new Byte[length];
    ghost var src := vec[first..count];
    var at, i := 0, first;
    while i < count
      invariant first <= i <= count
      invariant at == |Gather(src[..i - first])| <= buffer.Length
      invariant buffer[..at] == Gather(src[..i - first])
    {
      CopyStep(src, i - first);
      CopyVector(buffer, at, vec[i].data);
      at := at + |vec[i].data|;
      i := i + 1;
    }
    assert src[..i - first] == src;
  }

  /** The copy loop for FFS data: from entry `first` of the data vector to its NULL. */
  method CopyTerminated(vec: array<Iov>, first: nat, ghost end: nat, length: nat) returns (buffer: array<Byte>)
    requires first <= end < vec.Length && NoNull(vec[first..end]) && vec[end].Null?
    requires length == |Gather(vec[first..end])|
    ensures fresh(buffer) && buffer[..] == Gather(vec[first..end])
  {
    buffer := new Byte[length];
    ghost var src := vec[first..end];
    forall i | first <= i < end ensures vec[i].Iov? {
      assert src[i - first] == vec[i];
    }
    var at, k := 0, first;
    while !vec[k].Null?
      invariant first <= k <= end
      invariant at == |Gather(src[..k - first])| <= buffer.Length
      invariant buffer[..at] == Gather(src[..k - first])
      decreases end - k
    {
      CopyStep(src, k - first);
      assert src[k - first] == vec[k];
      CopyVector(buffer, at, vec[k].data);
      at := at + |vec[k].data|;
      k := k + 1;
    }
    assert src[..k - first] == src;
  }

  lemma CopyStep(src: seq<Iov>, i: nat)
    requires i < |src| && NoNull(src)
    ensures Gather(src[..i + 1]) == Gather(src[..i]) + src[i].data
    ensures |Gather(src[..i])| + |src[i].data| <= |Gather(src)|
  {
    GatherOne(src, i);
    GatherSplit(src, i + 1);
  }

  // ---------- The queue as CM keeps it ----------

  /** A non-blocking socket.  NBwritev_func sends some prefix of what it is given; -1 is a failed connection. */
  class Socket {
    var sent: seq<Byte>
    var refusals: nat      // calls that took less than they were offered
    var errors: nat        // calls that failed

    constructor ()
      ensures sent == [] && refusals == 0 && errors == 0
    {
      sent, refusals, errors := [], 0, 0;
    }

    method NBWritev(vecs: seq<seq<Byte>>) returns (actual: int)
      modifies this
      ensures errors == old(errors) + if actual == -1 then 1 else 0
      ensures refusals == old(refusals) + if 0 <= actual < |Concat(vecs)| then 1 else 0
      ensures -1 <= actual <= |Concat(vecs)|
      ensures actual >= 0 ==> sent == old(sent) + Concat(vecs)[..actual]
      ensures actual == -1 ==> exists k :: 0 <= k <= |Concat(vecs)| && sent == old(sent) + Concat(vecs)[..k]
    {
      actual :| -1 <= actual <= |Concat(vecs)|;
      var k := actual;
      if actual == -1 {
        k :| 0 <= k <= |Concat(vecs)|;
      }
      if actual == -1 {
        errors := errors + 1;
      } else if actual < |Concat(vecs)| {
        refusals := refusals + 1;
      }
      sent := sent + Concat(vecs)[..k];
    }

    /** Whether a run of calls since the given counts ended as `flow` says, for want of room or by an error. */
    ghost predicate Explains(flow: Flow, refusals: nat, errors: nat)
      reads this
    {
      && this.refusals == refusals + (if flow.Stuck? then 1 else 0)
      && this.errors == errors + (if flow.Broken? then 1 else 0)
    }
  }

  /** How a section of the queue fared in one call. */
  datatype Flow = Broken | Stuck(taken: nat) | Through

  /** The writing half of a connection. */
  class Connection {
    const remHeader: array<Byte>       // REM_HEADER_SIZE bytes
    var remHeaderLen: nat
    var remAttr: seq<Byte>             // rem_attr_base and rem_attr_len
    var vectorData: array?<Iov>        // a null-terminated vector, used from vectorStart on
    var vectorStart: nat
    var writePending: bool
    var failed: bool

    constructor ()
      ensures fresh(remHeader) && Valid() && !writePending && !failed && State() == Queue([], [], [])
    {
      remHeader := new Byte[REM_HEADER_SIZE];
      remHeaderLen, remAttr, vectorData, vectorStart := 0, [], null, 0;
      writePending, failed := false, false;
    }

    ghost predicate Valid()
      reads this, remHeader, vectorData
    {
      && remHeader.Length == REM_HEADER_SIZE && remHeaderLen <= REM_HEADER_SIZE
      && (vectorData != null ==> Terminated(vectorData[..], vectorStart))
    }

    ghost function State(): Queue
      reads this, remHeader, vectorData
      requires Valid()
    {
      Queue(remHeader[..remHeaderLen], remAttr, if vectorData == null then [] else Gather(vectorData[vectorStart..]))
    }

    /** A one-entry vector over a buffer of its own, so that later encodings cannot touch the queued data. */
    method HoldData(buffer: array<Byte>)
      modifies this`vectorData, this`vectorStart
      ensures vectorData != null && fresh(vectorData) && vectorStart == 0
      ensures Terminated(vectorData[..], 0) && Gather(vectorData[..]) == buffer[..]
    {
      vectorData, vectorStart := new Iov[2], 0;
      vectorData[0], vectorData[1] := Iov(buffer[..]), Null;
      assert Gather(vectorData[..][1..]) == [];
      assert buffer[..] + [] == buffer[..];
    }

    /** Keeps what is left of the header, if the write got stuck in it. */
    method SaveHeader(tmp: array<Iov>, i: nat)
      requires remHeader.Length == REM_HEADER_SIZE && tmp.Length > 0 && tmp[0].Iov? && |tmp[0].data| <= REM_HEADER_SIZE
      modifies this`remHeaderLen, remHeader
      ensures remHeaderLen <= REM_HEADER_SIZE
      ensures remHeader[..remHeaderLen] == if i == 0 then tmp[0].data else []
    {
      if i == 0 {
        var head := tmp[0].data;
        forall k | 0 <= k < |head| {
          remHeader[k] := head[k];
        }
        remHeaderLen := |head|;
      } else {
        remHeaderLen := 0;
      }
    }

    /** The two copying branches; `i` is the vector the write got stuck in, or the one behind the attributes. */
    static method CopyRest(tmp: array<Iov>, pbio: array?<Iov>, count: nat, i: nat, attrsPresent: bool, length: nat)
      returns (buffer: array<Byte>)
      requires (if attrsPresent then 2 else 1) <= count <= tmp.Length && i <= count && NoNull(tmp[..count])
      requires var skip := if attrsPresent then 2 else 1;
        && (pbio != null ==> count - skip < pbio.Length && pbio[count - skip].Null? && pbio[..count - skip] == tmp[skip..count])
        && length == |Gather(tmp[if i < skip then skip else i..count])|
      ensures fresh(buffer)
      ensures var skip := if attrsPresent then 2 else 1;
        buffer[..] == Gather(tmp[if i < skip then skip else i..count])
    {
      hide Gather;
      ghost var skip := if attrsPresent then 2 else 1;
      ghost var first := if i < skip then skip else i;
      ghost var whole := tmp[..count];
      assert tmp[first..count] == whole[first..];
      assert NoNull(tmp[first..count]);
      if pbio == null {
        var start := i;
        if start == 0 {
          start := 1;
        }
        if attrsPresent && start <= 1 {
          start := 2;
        }
        buffer := CopyCounted(tmp, start, count, length);
      } else {
        var j: int := i - 1;
        if attrsPresent {
          j := j - 1;
        }
        if j < 0 {
          j := 0;
        }
        ghost var data := pbio[..count - skip];
        assert pbio[j..count - skip] == data[j..] == whole[first..];
        buffer := CopyTerminated(pbio, j, count - skip, length);
      }
    }

    /** Trims the full vector to what is unsent, and the data vector with it. */
    static method TrimBoth(tmp: array<Iov>, pbio: array?<Iov>, count: nat, written: nat, attrsPresent: bool)
      returns (i: nat, ghost offset: nat)
      requires pbio != tmp
      requires (if attrsPresent then 2 else 1) <= count <= tmp.Length && NoNull(tmp[..count])
      requires written < |Gather(tmp[..count])|
      requires var skip := if attrsPresent then 2 else 1;
        pbio != null ==> count - skip < pbio.Length && pbio[count - skip].Null? && pbio[..count - skip] == tmp[skip..count]
      modifies tmp
      modifies if pbio == null then {} else {pbio}
      ensures i < count && old(tmp[i]).Iov? && offset <= |old(tmp[i].data)|
      ensures offset == written - |Gather(old(tmp[..count])[..i])| && (i > 0 ==> offset > 0)
      ensures tmp[..count] == old(tmp[..count])[i := Iov(old(tmp[i].data)[offset..])]
      ensures var skip := if attrsPresent then 2 else 1;
        pbio != null ==> pbio[count - skip].Null? && pbio[..count - skip] == tmp[skip..count]
    {
      hide Gather;
      ghost var skip := if attrsPresent then 2 else 1;
      ghost var before := tmp[..count];
      i, offset := TrimSent(tmp, 0, count, written);
      assert old(tmp[0..i]) == before[..i];
      if pbio != null {
        var pi: int := i - 1;
        if attrsPresent {
          pi := pi - 1;
        }
        if pi >= 0 {
          pbio[pi] := tmp[i];
        }
      }
    }

    /**
      queue_remaining_write: `written` bytes of the `count` vectors in `tmp` are out.  The first vector is the
      header, the second the attribute block if there is one; `pbio`, if given, is the data vector on its own.
     */
    method QueueRemainingWrite(tmp: array<Iov>, pbio: array?<Iov>, count: nat, written: nat, attrsPresent: bool)
      requires remHeader.Length == REM_HEADER_SIZE
      requires pbio != tmp && vectorData != tmp
      requires (if attrsPresent then 2 else 1) <= count <= tmp.Length && NoNull(tmp[..count])
      requires written < |Gather(tmp[..count])| && |tmp[0].data| <= REM_HEADER_SIZE
      requires var skip := if attrsPresent then 2 else 1;
        pbio != null ==> count - skip < pbio.Length && pbio[count - skip].Null? && pbio[..count - skip] == tmp[skip..count]
      modifies this`remHeaderLen, this`remAttr, this`vectorData, this`vectorStart, remHeader, tmp
      modifies if pbio == null then {} else {pbio}
      ensures Valid()
      ensures var skip := if attrsPresent then 2 else 1;
        State() == SplitMessage(old(tmp[0].data), if attrsPresent then old(tmp[1].data) else [],
                                Gather(old(tmp[..count])[skip..]), written)
    {
      hide Gather, SplitMessage;
      ghost var before, skip := tmp[..count], if attrsPresent then 2 else 1;
      var total := TotalBytes(tmp, count);
      var remaining := total - written;
      ghost var offset;
      var i;
      i, offset := TrimBoth(tmp, pbio, count, written, attrsPresent);
      ghost var goal := QueueGoal(before, tmp[..count], skip, written, i, offset);
      ghost var first := if i < skip then skip else i;
      SaveHeader(tmp, i);
      if attrsPresent && i <= 1 {
        remAttr := tmp[1].data;
        i := i + 1;
      } else {
        remAttr := [];
      }
      assert remHeader[..remHeaderLen] == goal.header && remAttr == goal.attr;
      assert tmp[..count][first..] == tmp[first..count];
      var buffer := CopyRest(tmp, pbio, count, i, attrsPresent, remaining - |remAttr| - remHeaderLen);
      HoldData(buffer);
    }

    /** The header section of CMWriteQueuedData. */
    method DrainHeader(socket: Socket) returns (flow: Flow)
      requires Valid()
      modifies this`remHeaderLen, remHeader, socket
      ensures Valid() && socket.Explains(flow, old(socket.refusals), old(socket.errors))
      ensures flow.Broken? ==> State() == old(State())
      ensures flow.Stuck? ==>
        && flow.taken < |old(State()).header|
        && socket.sent == old(socket.sent) + old(State()).header[..flow.taken]
        && State() == old(State()).(header := old(State()).header[flow.taken..])
      ensures flow.Through? ==> State() == old(State()) && socket.sent == old(socket.sent) + State().header
    {
      hide Gather;
      if remHeaderLen != 0 {
        var actual := socket.NBWritev([remHeader[..remHeaderLen]]);
        assert Concat([remHeader[..remHeaderLen]]) == remHeader[..remHeaderLen] + Concat<Byte>([]) == remHeader[..remHeaderLen];
        if actual == -1 {
          return Broken;
        }
        if actual < remHeaderLen {
          ghost var header := remHeader[..remHeaderLen];
          remHeaderLen := remHeaderLen - actual;
          forall k | 0 <= k < remHeaderLen {
            remHeader[k] := remHeader[k + actual];
          }
          assert remHeader[..remHeaderLen] == header[actual..];
          assert vectorData != null ==> vectorData[..] == old(vectorData[..]) && vectorData[vectorStart..] == old(vectorData[vectorStart..]);
          return Stuck(actual);
        }
        assert remHeader[..remHeaderLen][..actual] == remHeader[..remHeaderLen];
      } else {
        assert socket.sent + [] == socket.sent;
      }
      flow := Through;
    }

    /** The attribute section. */
    method DrainAttr(socket: Socket) returns (flow: Flow)
      requires Valid()
      modifies this`remAttr, socket
      ensures Valid() && socket.Explains(flow, old(socket.refusals), old(socket.errors))
      ensures flow.Broken? ==> State() == old(State())
      ensures flow.Stuck? ==>
        && flow.taken < |old(State()).attr|
        && socket.sent == old(socket.sent) + old(State()).attr[..flow.taken]
        && State() == old(State()).(attr := old(State()).attr[flow.taken..])
      ensures flow.Through? ==> State() == old(State()) && socket.sent == old(socket.sent) + State().attr
    {
      if remAttr != [] {
        var actual := socket.NBWritev([remAttr]);
        assert Concat([remAttr]) == remAttr + Concat<Byte>([]) == remAttr;
        if actual == -1 {
          return Broken;
        }
        if actual < |remAttr| {
          remAttr := remAttr[actual..];
          return Stuck(actual);
        }
        assert remAttr[..actual] == remAttr;
      } else {
        assert socket.sent + [] == socket.sent;
      }
      flow := Through;
    }

    /** Moves the queued vector past `written` bytes, trimming the entry that is partly out. */
    method TrimQueued(count: nat, written: nat)
      requires Valid() && vectorData != null
      requires vectorStart + count < vectorData.Length && NoNull(vectorData[vectorStart..vectorStart + count])
      requires Gather(vectorData[vectorStart..vectorStart + count]) == State().data && written < |State().data|
      modifies this`vectorStart, vectorData
      ensures Valid() && State() == old(State()).(data := old(State()).data[written..])
    {
      hide Gather;
      ghost var vec, start := vectorData[..], vectorStart;
      var i, offset := TrimSent(vectorData, vectorStart, count, written);
      vectorStart := vectorStart + i;
      TrimmedInPlace(vec, vectorData[..], start, count, written, i, offset);
      assert vectorData[start + i..] == vectorData[..][start + i..];
    }

    /** The vector section. */
    method DrainData(socket: Socket) returns (flow: Flow)
      requires Valid()
      modifies this`vectorStart, socket
      modifies if vectorData == null then {} else {vectorData}
      ensures Valid() && socket.Explains(flow, old(socket.refusals), old(socket.errors))
      ensures flow.Broken? ==> State() == old(State())
      ensures flow.Stuck? ==>
        && flow.taken < |old(State()).data|
        && socket.sent == old(socket.sent) + old(State()).data[..flow.taken]
        && State() == old(State()).(data := old(State()).data[flow.taken..])
      ensures flow.Through? ==> State() == old(State()) && socket.sent == old(socket.sent) + State().data
    {
      hide Gather;
      if vectorData != null {
        var count, vecs := CountVectors(vectorData, vectorStart);
        var length := |Concat(vecs)|;
        var actual := socket.NBWritev(vecs);
        if actual == -1 {
          return Broken;
        }
        if actual < length {
          TrimQueued(count, actual);
          return Stuck(actual);
        }
        assert Concat(vecs)[..actual] == Concat(vecs);
      } else {
        assert socket.sent + [] == socket.sent;
      }
      flow := Through;
    }

    /** The three sections of CMWriteQueuedData in turn; `k` counts the bytes the transport took. */
    method DrainSections(socket: Socket) returns (flow: Flow, ghost k: nat)
      requires Valid()
      modifies this`remHeaderLen, this`remAttr, this`vectorStart, remHeader, socket
      modifies if vectorData == null then {} else {vectorData}
      ensures Valid() && socket.Explains(flow, old(socket.refusals), old(socket.errors))
      ensures !flow.Broken? ==>
        var progress := Drain(old(State()), false, k);
        && socket.sent == old(socket.sent) + progress.sent
        && flow.Stuck? == progress.queue.Some?
        && (flow.Stuck? ==> State() == progress.queue.value)
    {
      hide Drain, State, Valid;
      k := 0;
      ghost var q := State();
      ghost var wire := socket.sent;
      DrainBySection(q);
      flow := DrainHeader(socket);
      if flow.Through? {
        k := |q.header|;
        flow := DrainAttr(socket);
        if flow.Stuck? {
          SameWire(wire, q.header, q.attr[..flow.taken], []);
        }
        if flow.Through? {
          k := k + |q.attr|;
          flow := DrainData(socket);
          if flow.Stuck? {
            SameWire(wire, q.header, q.attr, q.data[..flow.taken]);
          }
          if flow.Through? {
            k := k + |q.data|;
            SameWire(wire, q.header, q.attr, q.data);
          }
        }
      }
      if flow.Stuck? {
        k := k + flow.taken;
      }
    }

    /**
      CMWriteQueuedData.  Unless the connection broke, the queue and the wire are as Drain says for the `k`
      bytes the transport took.  It fails only by an error of the transport, and leaves write_pending set
      exactly if the transport took less than it was offered.
     */
    method WriteQueuedData(socket: Socket) returns (ghost k: nat)
      requires Valid() && writePending && !failed
      modifies this`remHeaderLen, this`remAttr, this`vectorStart, this`writePending, this`failed, remHeader, socket
      modifies if vectorData == null then {} else {vectorData}
      ensures Valid()
      ensures failed <==> socket.errors > old(socket.errors)
      ensures writePending <==> socket.refusals > old(socket.refusals)
      ensures failed ==> !writePending
      ensures !failed ==>
        var progress := Drain(old(State()), false, k);
        && socket.sent == old(socket.sent) + progress.sent
        && writePending == progress.queue.Some?
        && (writePending ==> State() == progress.queue.value)
    {
      hide Drain, Gather, Terminated;
      var flow;
      flow, k := DrainSections(socket);
      if flow.Broken? {
        failed := true;
      }
      writePending := flow.Stuck?;
    }
  }

  lemma SameWire(wire: seq<Byte>, a: seq<Byte>, b: seq<Byte>, c: seq<Byte>)
    ensures wire + a + b + c == wire + (a + b + c)
    ensures wire + a + b == wire + (a + b)
  {
  }

  lemma TrimmedInPlace(vec: seq<Iov>, after: seq<Iov>, start: nat, count: nat, written: nat, i: nat, offset: nat)
    requires Terminated(vec, start) && start + count < |vec| && NoNull(vec[start..start + count]) && i < count
    requires vec[start + i].Iov? && offset <= |vec[start + i].data|
    requires offset == written - |Gather(vec[start..start + i])|
    requires after == vec[start + i := Iov(vec[start + i].data[offset..])]
    ensures Terminated(after, start + i)
    ensures written <= |Gather(vec[start..])| && Gather(after[start + i..]) == Gather(vec[start..])[written..]
  {
    hide Gather;
    var src, front := vec[start..], vec[start..start + count];
    var head := src[..i + 1];
    forall k | 0 <= k < |head| ensures head[k].Iov? {
      assert head[k] == front[k];
    }
    assert src[..i] == vec[start..start + i];
    TrimmedRest(src, i, offset);
    assert src[i := Iov(src[i].data[offset..])][i..] == after[start + i..];
    var n := |vec| - 1;
    assert start + i < n by {
      assert front[i] == vec[start + i];
    }
    var left, queued := after[start + i..n], vec[start..n];
    forall k | 0 <= k < |left| ensures left[k].Iov? {
      if k == 0 {
        assert left[k] == after[start + i];
      } else {
        assert left[k] == vec[start + i + k] == queued[i + k];
      }
    }
  }

  /** Walks a null-terminated vector from `start`, as CMWriteQueuedData does to count entries and bytes. */
  method CountVectors(vec: array<Iov>, start: nat) returns (count: nat, vecs: seq<seq<Byte>>)
    requires Terminated(vec[..], start)
    ensures start + count < vec.Length && NoNull(vec[start..start + count])
    ensures Concat(vecs) == Gather(vec[start..start + count]) == Gather(vec[start..])
  {
    count, vecs := 0, [];
    while !vec[start + count].Null?
      invariant start + count < vec.Length && NoNull(vec[start..start + count])
      invariant Concat(vecs) == Gather(vec[start..start + count])
      decreases vec.Length - count
    {
      ghost var longer := vec[start..start + count + 1];
      assert longer[..count] == vec[start..start + count] && longer[..count + 1] == longer;
      GatherOne(longer, count);
      ConcatAppend(vecs, [vec[start + count].data]);
      assert Concat([vec[start + count].data]) == vec[start + count].data;
      vecs := vecs + [vec[start + count].data];
      count := count + 1;
    }
    ghost var all := vec[start..];
    assert all[..count] == vec[start..start + count];
    GatherSplit(all, count);
    assert all[count..][0].Null?;
  }

  /** The vector ends with a NULL entry at or behind `start`. */
  ghost predicate Terminated(vec: seq<Iov>, start: nat) {
    start < |vec| && vec[|vec| - 1].Null? && NoNull(vec[start..|vec| - 1])
  }
}
