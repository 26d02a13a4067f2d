/** The queued receive path of the fabric transport: remote reads that complete in any order. */
module PullQueue {
  import opened Bytes
  import opened Collections
  import opened Gather

  datatype PullStatus = Unsubmitted | Submitted | Completed | Accounted

  datatype PullRecord = PullRecord(remote: RemoteEntry, dest: nat, status: PullStatus) {
    predicate Landed() {
      status.Completed? || status.Accounted?
    }
  }

  /** The parts of `buffer` that hold something already: the prefix, and every piece that has landed. */
  ghost predicate Holds(buffer: seq<Byte>, prefix: seq<Byte>, pieces: seq<seq<Byte>>, pulls: seq<PullRecord>) {
    && |pulls| == |pieces|
    && |prefix| + |Concat(pieces)| <= |buffer|
    && buffer[..|prefix|] == prefix
    && (forall i :: 0 <= i < |pulls| ==> pulls[i].dest == Offset(|prefix|, pieces, i))
    && (forall i :: 0 <= i < |pulls| && pulls[i].Landed() ==>
          pulls[i].dest + |pieces[i]| <= |buffer| && buffer[pulls[i].dest..pulls[i].dest + |pieces[i]|] == pieces[i])
  }

  /** A device write of one piece at its place. */
  function Land(buffer: seq<Byte>, at: nat, piece: seq<Byte>): (r: seq<Byte>)
    requires at + |piece| <= |buffer|
    ensures |r| == |buffer|
  {
    buffer[..at] + piece + buffer[at + |piece|..]
  }

  lemma LandElsewhere(buffer: seq<Byte>, at: nat, piece: seq<Byte>, lo: nat, hi: nat)
    requires at + |piece| <= |buffer| && lo <= hi <= |buffer| && (hi <= at || at + |piece| <= lo)
    ensures Land(buffer, at, piece)[lo..hi] == buffer[lo..hi]
  {
  }

  /** A completion fills its own place and no other, in whatever order completions come. */
  lemma LandKeepsHolds(buffer: seq<Byte>, prefix: seq<Byte>, pieces: seq<seq<Byte>>, pulls: seq<PullRecord>, i: nat)
    requires Holds(buffer, prefix, pieces, pulls) && i < |pulls|
    ensures pulls[i].dest + |pieces[i]| <= |buffer|
    ensures Holds(Land(buffer, pulls[i].dest, pieces[i]), prefix, pieces, pulls[i := pulls[i].(status := Completed)])
  {
    hide Concat, Offset;
    OffsetInside(|prefix|, pieces, i);
    var at := pulls[i].dest;
    var after := Land(buffer, at, pieces[i]);
    OffsetFromPrefix(|prefix|, pieces, i);
    LandElsewhere(buffer, at, pieces[i], 0, |prefix|);
    forall j | 0 <= j < |pulls| && j != i && pulls[j].Landed()
      ensures after[pulls[j].dest..pulls[j].dest + |pieces[j]|] == pieces[j]
    {
      if j < i {
        OffsetsOrdered(|prefix|, pieces, j, i);
      } else {
        OffsetsOrdered(|prefix|, pieces, i, j);
      }
      LandElsewhere(buffer, at, pieces[i], pulls[j].dest, pulls[j].dest + |pieces[j]|);
    }
  }

  /** A change of status that claims no new piece leaves the buffer's account as it is. */
  lemma RestatusKeepsHolds(buffer: seq<Byte>, prefix: seq<Byte>, pieces: seq<seq<Byte>>, pulls: seq<PullRecord>,
                           i: nat, status: PullStatus)
    requires Holds(buffer, prefix, pieces, pulls) && i < |pulls|
    requires pulls[i].(status := status).Landed() ==> pulls[i].Landed()
    ensures Holds(buffer, prefix, pieces, pulls[i := pulls[i].(status := status)])
  {
    hide Concat, Offset;
  }

  lemma OffsetFromPrefix(prefix: nat, pieces: seq<seq<Byte>>, i: nat)
    requires i <= |pieces|
    ensures prefix <= Offset(prefix, pieces, i)
  {
  }

  predicate AllAccounted(pulls: seq<PullRecord>) {
    forall i :: 0 <= i < |pulls| ==> pulls[i].status.Accounted?
  }

  lemma OneMoreAccounted(pulls: seq<PullRecord>, last: PullRecord)
    ensures AllAccounted(pulls + [last]) <==> AllAccounted(pulls) && last.status.Accounted?
  {
    if AllAccounted(pulls + [last]) {
      assert forall i :: 0 <= i < |pulls| ==> (pulls + [last])[i] == pulls[i];
      assert (pulls + [last])[|pulls|] == last;
    }
  }

  /** With every piece accounted for, the buffer is the message. */
  lemma AccountedIsWhole(buffer: seq<Byte>, prefix: seq<Byte>, pieces: seq<seq<Byte>>, pulls: seq<PullRecord>)
    requires Holds(buffer, prefix, pieces, pulls) && AllAccounted(pulls)
    ensures buffer[..|prefix| + |Concat(pieces)|] == prefix + Concat(pieces)
  {
    WholeUpTo(buffer, prefix, pieces, pulls, |pieces|);
    assert pieces[..|pieces|] == pieces;
  }

  lemma {:induction false} WholeUpTo(buffer: seq<Byte>, prefix: seq<Byte>, pieces: seq<seq<Byte>>,
                                     pulls: seq<PullRecord>, i: nat)
    requires Holds(buffer, prefix, pieces, pulls) && AllAccounted(pulls) && i <= |pieces|
    ensures Offset(|prefix|, pieces, i) <= |buffer|
    ensures buffer[..Offset(|prefix|, pieces, i)] == prefix + Concat(pieces[..i])
  {
    hide Concat;
    if i == 0 {
      assert pieces[..0] == [];
      EmptyConcat<Byte>();
    } else {
      WholeUpTo(buffer, prefix, pieces, pulls, i - 1);
      OffsetStep(|prefix|, pieces, i - 1);
      ConcatSnoc(pieces, i - 1);
      var at, end := Offset(|prefix|, pieces, i - 1), Offset(|prefix|, pieces, i);
      assert pulls[i - 1].Landed() && buffer[at..end] == pieces[i - 1];
      assert buffer[..end] == buffer[..at] + buffer[at..end];
    }
  }

  /** Every piece has come. */
  predicate AllLanded(pulls: seq<PullRecord>) {
    forall i :: 0 <= i < |pulls| ==> pulls[i].Landed()
  }

  /** Every read has been posted. */
  predicate AllPosted(pulls: seq<PullRecord>) {
    forall i :: 0 <= i < |pulls| ==> !pulls[i].status.Unsubmitted?
  }

  /** What the device does when a message is visited: whether memory can be registered, which, and the reads it refuses for now. */
  datatype Turn = Turn(mayRegister: bool, region: seq<Byte>, refused: set<nat>)

  /** A message whose remote pieces are being read. */
  class MsgItem {
    ghost const request: Request
    ghost const memory: seq<Byte>      // the sender's memory, which stands still until it is told of completion
    const messageSize: nat
    const requestId: nat
    var buffer: seq<Byte>
    var hasMr: bool
    var pulls: seq<PullRecord>

    ghost function Prefix(): seq<Byte>
      requires WellFormed(request, memory)
    {
      request.raw[HeaderSize(request.iovcnt)..HeaderSize(request.iovcnt) + request.piggybackLength]
    }

    ghost predicate Valid()
      reads this
    {
      && WellFormed(request, memory) && messageSize == request.length && requestId == request.requestId
      && |pulls| == |request.readList|
      && (forall i :: 0 <= i < |pulls| ==> pulls[i].remote == request.readList[i])
      && (hasMr ==> Holds(buffer, Prefix(), Pieces(memory, request.readList), pulls))
      && (!hasMr ==> buffer == Prefix() && forall i :: 0 <= i < |pulls| ==> pulls[i].status.Unsubmitted?)
    }

    /** All pieces are in and have been accounted for. */
    ghost predicate Done()
      reads this
    {
      hasMr && AllAccounted(pulls)
    }

    /** The message as the connection will read it. */
    ghost function Message(): seq<Byte>
      reads this
      requires messageSize <= |buffer|
    {
      buffer[..messageSize]
    }

    /** add_to_pull_queue, up to handing the item over. */
    constructor (r: Request, ghost memory: seq<Byte>)
      requires WellFormed(r, memory)
      ensures Valid() && !hasMr && request == r && this.memory == memory
    {
      request, this.memory := r, memory;
      messageSize, requestId := r.length, r.requestId;
      buffer := r.raw[HeaderSize(r.iovcnt)..HeaderSize(r.iovcnt) + r.piggybackLength];
      hasMr := false;
      pulls := seq(r.iovcnt, i requires 0 <= i < r.iovcnt => PullRecord(r.readList[i], 0, Unsubmitted));
    }

    /** Gets a memory region of at least the message's size and gives every pull its place in it. */
    method TakeRegion(region: seq<Byte>)
      requires Valid() && !hasMr && |region| >= messageSize
      modifies this
      ensures Valid() && hasMr && |buffer| == |region|
      ensures |pulls| == |old(pulls)| && forall i :: 0 <= i < |pulls| ==> pulls[i].status.Unsubmitted?
    {
      hide Concat;
      ghost var prefix, pieces := Prefix(), Pieces(memory, request.readList);
      var at := |buffer|;
      buffer := buffer + region[at..];
      var i := 0;
      assert pieces[..0] == [];
      EmptyConcat<Byte>();
      while i < |pulls|
        invariant i <= |pulls| == |request.readList| && at == Offset(|prefix|, pieces, i)
        invariant forall j :: 0 <= j < |pulls| ==> pulls[j].remote == request.readList[j] && pulls[j].status.Unsubmitted?
        invariant forall j :: 0 <= j < i ==> pulls[j].dest == Offset(|prefix|, pieces, j)
        invariant buffer == prefix + region[|prefix|..]
      {
        OffsetStep(|prefix|, pieces, i);
        pulls := pulls[i := pulls[i].(dest := at)];
        at := at + pulls[i].remote.length;
        i := i + 1;
      }
      hasMr := true;
    }

    /** Posts every read that has not been posted, but for those the device refuses for now. */
    method Submit(refused: set<nat>) returns (didSomething: bool)
      requires Valid() && hasMr
      modifies this`pulls
      ensures Valid() && |pulls| == |old(pulls)|
      ensures forall i :: 0 <= i < |pulls| && old(pulls)[i].status.Unsubmitted? && i !in refused ==> pulls[i].status.Submitted?
      ensures forall i :: 0 <= i < |pulls| && old(pulls)[i].status.Unsubmitted? && i in refused ==> pulls[i].status.Unsubmitted?
      ensures forall i :: 0 <= i < |pulls| && !old(pulls)[i].status.Unsubmitted? ==> pulls[i].status == old(pulls)[i].status
      ensures didSomething <==> exists i :: 0 <= i < |pulls| && pulls[i].status != old(pulls)[i].status
    {
      hide Holds;
      didSomething := false;
      var i := 0;
      while i < |pulls|
        invariant i <= |pulls| == |old(pulls)| && Valid()
        invariant forall j :: 0 <= j < i ==>
          pulls[j].status == if old(pulls)[j].status.Unsubmitted? && j !in refused then Submitted else old(pulls)[j].status
        invariant forall j :: i <= j < |pulls| ==> pulls[j].status == old(pulls)[j].status
        invariant didSomething <==> exists j :: 0 <= j < i && pulls[j].status != old(pulls)[j].status
      {
        ghost var before := pulls;
        if pulls[i].status.Unsubmitted? && i !in refused {
          RestatusKeepsHolds(buffer, Prefix(), Pieces(memory, request.readList), pulls, i, Submitted);
          pulls := pulls[i := pulls[i].(status := Submitted)];
          didSomething := true;
        }
        assert forall j :: 0 <= j < i ==> pulls[j] == before[j];
        i := i + 1;
      }
    }

    /** The device has read piece `i` from the sender's memory, and handle_scq_completion is told. */
    method Complete(i: nat, piece: seq<Byte>)
      requires Valid() && hasMr && i < |pulls| && pulls[i].status.Submitted?
      requires piece == Pieces(memory, request.readList)[i]
      modifies this
      ensures Valid() && hasMr && pulls == old(pulls)[i := old(pulls)[i].(status := Completed)]
    {
      hide Holds;
      LandKeepsHolds(buffer, Prefix(), Pieces(memory, request.readList), pulls, i);
      buffer := Land(buffer, pulls[i].dest, piece);
      pulls := pulls[i := pulls[i].(status := Completed)];
    }

    method AccountOne(i: nat) returns (accounted: bool)
      requires Valid() && hasMr && i < |pulls|
      modifies this`pulls
      ensures Valid()
      ensures pulls == old(pulls)[i := old(pulls)[i].(status := if old(pulls)[i].Landed() then Accounted else old(pulls)[i].status)]
      ensures accounted == pulls[i].status.Accounted?
    {
      hide Holds;
      if pulls[i].status.Completed? {
        RestatusKeepsHolds(buffer, Prefix(), Pieces(memory, request.readList), pulls, i, Accounted);
        pulls := pulls[i := pulls[i].(status := Accounted)];
      }
      accounted := pulls[i].status.Accounted?;
    }

    /** The accounting loop: pieces that have completed are counted, and the answer is whether none is missing. */
    method Account() returns (allDone: bool)
      requires Valid() && hasMr
      modifies this`pulls
      ensures Valid()
      ensures allDone == Done()
      ensures |pulls| == |old(pulls)|
      ensures forall i :: 0 <= i < |pulls| ==>
        pulls[i].status == if old(pulls)[i].Landed() then Accounted else old(pulls)[i].status
      ensures allDone ==> messageSize <= |buffer| && Message() == Assembled(request, memory)
    {
      hide Holds, Valid;
      allDone := true;
      var i := 0;
      while i < |pulls|
        invariant i <= |pulls| == |old(pulls)| && Valid()
        invariant allDone == AllAccounted(pulls[..i])
        invariant forall j :: 0 <= j < |pulls| ==>
          pulls[j].status == if j < i && old(pulls)[j].Landed() then Accounted else old(pulls)[j].status
      {
        ghost var before := pulls;
        var accounted := AccountOne(i);
        if !accounted {
          allDone := false;
        }
        assert pulls[..i + 1] == before[..i] + [pulls[i]];
        OneMoreAccounted(before[..i], pulls[i]);
        i := i + 1;
      }
      assert pulls[..i] == pulls;
      if allDone {
        DoneIsAssembled();
      }
    }

    /**
      One visit: memory if there is none yet, then posting and accounting.  Registration may fail.  Reads that
      were posted wait for the device, pieces that came are accounted for, and the message is done exactly if
      none is missing.
     */
    method Advance(turn: Turn) returns (registered: bool, allDone: bool, didSomething: bool)
      requires Valid()
      modifies this
      ensures Valid()
      ensures registered <==> old(hasMr) || turn.mayRegister
      ensures !registered ==> unchanged(this)
      ensures registered ==> hasMr && allDone == Done() && |pulls| == |old(pulls)|
      ensures registered ==> forall i :: 0 <= i < |pulls| ==>
        && (old(pulls)[i].status.Unsubmitted? && i !in turn.refused ==> pulls[i].status.Submitted?)
        && (old(pulls)[i].status.Unsubmitted? && i in turn.refused ==> pulls[i].status.Unsubmitted?)
        && (old(pulls)[i].status.Submitted? ==> pulls[i].status.Submitted?)
        && (old(pulls)[i].Landed() ==> pulls[i].status.Accounted?)
      ensures registered && turn.refused == {} ==> AllPosted(pulls)
      ensures allDone <==> registered && AllLanded(old(pulls))
      ensures didSomething <==>
        registered && (!old(hasMr) || exists i :: 0 <= i < |pulls| && old(pulls)[i].status.Unsubmitted? && i !in turn.refused)
    {
      registered, allDone, didSomething := true, false, false;
      if !hasMr {
        if !turn.mayRegister {
          registered := false;
          return;
        }
        TakeRegion(if |turn.region| < messageSize then turn.region + seq(messageSize, i => 0) else turn.region);
        didSomething := true;
      }
      var posted := Submit(turn.refused);
      didSomething := didSomething || posted;
      allDone := Account();
    }

    lemma DoneIsAssembled()
      requires Valid() && Done()
      ensures messageSize <= |buffer| && Message() == Assembled(request, memory)
    {
      hide Concat, Offset;
      AccountedIsWhole(buffer, Prefix(), Pieces(memory, request.readList), pulls);
    }
  }

  // ---------- The queues ----------

  /** The items whose flag is `which`, in order. */
  function Select(items: seq<MsgItem>, flags: seq<bool>, which: bool): seq<MsgItem>
    requires |items| == |flags|
  {
    if items == [] then []
    else
      var n := |items| - 1;
      Select(items[..n], flags[..n], which) + if flags[n] == which then [items[n]] else []
  }

  lemma {:induction false} SelectedAre(items: seq<MsgItem>, flags: seq<bool>, which: bool, m: MsgItem)
    requires |items| == |flags|
    ensures m in Select(items, flags, which) <==> exists k :: 0 <= k < |items| && items[k] == m && flags[k] == which
  {
    if items != [] {
      var n := |items| - 1;
      SelectedAre(items[..n], flags[..n], which, m);
      if k :| 0 <= k < |items| && items[k] == m && flags[k] == which {
        assert k < n ==> items[..n][k] == m && flags[..n][k] == which;
      }
      if m in Select(items[..n], flags[..n], which) {
        var k :| 0 <= k < n && items[..n][k] == m && flags[..n][k] == which;
        assert items[k] == m && flags[k] == which;
      }
    }
  }

  lemma SelectOneMore(items: seq<MsgItem>, flags: seq<bool>, j: nat, which: bool)
    requires j < |items| == |flags|
    ensures Select(items[..j + 1], flags[..j + 1], which) ==
      Select(items[..j], flags[..j], which) + if flags[j] == which then [items[j]] else []
  {
    assert items[..j + 1][..j] == items[..j] && flags[..j + 1][..j] == flags[..j];
  }

  lemma NothingSelected()
    ensures forall which :: Select([], [], which) == []
  {
  }

  lemma OthersDiffer(items: seq<MsgItem>, j: nat)
    requires Distinct(items) && j < |items|
    ensures forall k :: 0 <= k < |items| && k != j ==> items[k] != items[j]
  {
  }

  /** For each item whether all its pieces have come. */
  ghost function Landed(items: seq<MsgItem>): (flags: seq<bool>)
    reads items
    ensures |flags| == |items| && forall k :: 0 <= k < |items| ==> flags[k] == AllLanded(items[k].pulls)
  {
    seq(|items|, k reads items requires 0 <= k < |items| => AllLanded(items[k].pulls))
  }

  /** And whether it has its memory. */
  ghost function Registered(items: seq<MsgItem>): (flags: seq<bool>)
    reads items
    ensures |flags| == |items| && forall k :: 0 <= k < |items| ==> flags[k] == items[k].hasMr
  {
    seq(|items|, k reads items requires 0 <= k < |items| => items[k].hasMr)
  }

  /** What the device does at the `j`-th message; without a plan it registers what is needed and refuses nothing. */
  function TurnAt(turns: seq<Turn>, j: nat): Turn {
    if j < |turns| then turns[j] else Turn(true, [], {})
  }

  /** For each item whether all its reads have been posted. */
  ghost function PostedAll(items: seq<MsgItem>): (flags: seq<bool>)
    reads items
    ensures |flags| == |items| && forall k :: 0 <= k < |items| ==> flags[k] == AllPosted(items[k].pulls)
  {
    seq(|items|, k reads items requires 0 <= k < |items| => AllPosted(items[k].pulls))
  }

  /** What the items were at the start of a walk, and what they are. */
  datatype Flags = Flags(had: seq<bool>, landed: seq<bool>, posted: seq<bool>)

  ghost function FlagsOf(items: seq<MsgItem>): (flags: Flags)
    reads items
    ensures |flags.had| == |flags.landed| == |flags.posted| == |items|
    ensures forall k :: 0 <= k < |items| ==> flags.had[k] == items[k].hasMr
    ensures forall k :: 0 <= k < |items| ==> flags.landed[k] == AllLanded(items[k].pulls)
    ensures forall k :: 0 <= k < |items| ==> flags.posted[k] == AllPosted(items[k].pulls)
  {
    Flags(Registered(items), Landed(items), PostedAll(items))
  }

  /** The first `visited` items have been served, the others are as they were. */
  predicate Walked(was: Flags, now: Flags, turns: seq<Turn>, visited: nat) {
    && |was.had| == |was.landed| == |was.posted| == |now.had| == |now.landed| == |now.posted| && visited <= |was.had|
    && (forall j :: 0 <= j < visited ==> was.had[j] || TurnAt(turns, j).mayRegister)
    && (forall j :: visited <= j < |was.had| ==> now.had[j] == was.had[j] && now.landed[j] == was.landed[j])
    && (forall j :: 0 <= j < visited && TurnAt(turns, j).refused == {} ==> now.posted[j])
  }

  /** A turn changes the flags of its own item only. */
  predicate OnlyAt(before: Flags, after: Flags, j: nat) {
    && |before.had| == |after.had| && |before.landed| == |after.landed| && |before.posted| == |after.posted|
    && (forall k :: 0 <= k < |before.had| && k != j ==> after.had[k] == before.had[k])
    && (forall k :: 0 <= k < |before.landed| && k != j ==> after.landed[k] == before.landed[k])
    && (forall k :: 0 <= k < |before.posted| && k != j ==> after.posted[k] == before.posted[k])
  }

  lemma WalksOn(was: Flags, before: Flags, after: Flags, turns: seq<Turn>, j: nat)
    requires Walked(was, before, turns, j) && j < |was.had| && OnlyAt(before, after, j)
    requires was.had[j] || TurnAt(turns, j).mayRegister
    requires TurnAt(turns, j).refused == {} ==> after.posted[j]
    ensures Walked(was, after, turns, j + 1)
  {
    hide TurnAt;
  }

  lemma WalkedFar(was: Flags, now: Flags, turns: seq<Turn>, visited: nat)
    requires Walked(was, now, turns, visited)
    ensures |was.had| == |was.landed| == |now.had| == |now.landed| == |now.posted| && visited <= |was.had|
    ensures forall j :: 0 <= j < visited ==> was.had[j] || TurnAt(turns, j).mayRegister
    ensures forall j :: 0 <= j < visited && TurnAt(turns, j).refused == {} ==> now.posted[j]
    ensures visited < |was.had| ==> now.had[visited] == was.had[visited] && now.landed[visited] == was.landed[visited]
  {
    hide TurnAt;
  }

  lemma StartWalk(was: Flags, turns: seq<Turn>)
    requires |was.had| == |was.landed| == |was.posted|
    ensures Walked(was, was, turns, 0)
  {
  }

  /** pull_queue and completed_queue, with the answers sent to the writers. */
  class Engine {
    var pullQueue: seq<MsgItem>
    var completedQueue: seq<MsgItem>
    var responses: seq<(nat, int)>     // request ID and max_length; -1 reports failure

    constructor ()
      ensures Valid() && pullQueue == completedQueue == [] && responses == []
    {
      pullQueue, completedQueue, responses := [], [], [];
    }

    ghost predicate Valid()
      reads this`pullQueue, this`completedQueue, pullQueue, completedQueue
    {
      && Distinct(pullQueue + completedQueue)
      && (forall m <- pullQueue :: m.Valid())
      && (forall m <- completedQueue :: m.Valid() && m.Done())
    }

    /** hand_to_pull_thread. */
    method HandToPullThread(msg: MsgItem)
      requires Valid() && msg.Valid() && msg !in pullQueue + completedQueue
      modifies this`pullQueue
      ensures Valid() && pullQueue == old(pullQueue) + [msg]
    {
      InsertionKeepsDistinct(pullQueue, msg, completedQueue);
      pullQueue := pullQueue + [msg];
    }

    /** return_completed_pull: out of one queue, to the end of the other. */
    method ReturnCompletedPull(msg: MsgItem) returns (ghost k: nat)
      requires Valid() && msg in pullQueue && msg.Done()
      modifies this`pullQueue, this`completedQueue
      ensures Valid()
      ensures k < |old(pullQueue)| && old(pullQueue)[k] == msg
      ensures pullQueue == old(pullQueue)[..k] + old(pullQueue)[k + 1..]
      ensures completedQueue == old(completedQueue) + [msg]
    {
      var i := 0;
      while pullQueue[i] != msg
        invariant i < |pullQueue| && msg !in pullQueue[..i]
        decreases |pullQueue| - i
      {
        assert msg in pullQueue[i + 1..];
        i := i + 1;
      }
      k := i;
      ghost var before := pullQueue + completedQueue;
      pullQueue := pullQueue[..i] + pullQueue[i + 1..];
      completedQueue := completedQueue + [msg];
      StillDistinct(before, k, pullQueue + completedQueue);
    }

    /**
      can_do_something: one walk over the pull queue.  `visited` messages were looked at, fewer than all only
      when the next has no memory and none could be registered.  Exactly those of them whose pieces had all come
      move to the completed queue, in order; and where the device refused nothing every read has been posted.
     */
    method CanDoSomething(turns: seq<Turn>) returns (visited: nat)
      requires Valid()
      modifies this`pullQueue, this`completedQueue, this`responses, pullQueue
      ensures Valid() && visited <= |old(pullQueue)|
      ensures var items, landed := old(pullQueue), old(Landed(pullQueue));
        && pullQueue == Select(items[..visited], landed[..visited], false) + items[visited..]
        && completedQueue == old(completedQueue) + Select(items[..visited], landed[..visited], true)
      ensures forall j :: 0 <= j < visited ==> old(pullQueue[j].hasMr) || TurnAt(turns, j).mayRegister
      ensures visited < |old(pullQueue)| ==> !old(pullQueue)[visited].hasMr && !TurnAt(turns, visited).mayRegister
      ensures forall j :: 0 <= j < visited && TurnAt(turns, j).refused == {} ==> AllPosted(old(pullQueue)[j].pulls)
      ensures visited == |old(pullQueue)| ==> responses == old(responses)
      ensures visited < |old(pullQueue)| ==> responses == old(responses) + [(old(pullQueue)[visited].requestId, -1)]
    {
      PrefixIsDistinct(pullQueue, completedQueue);
      hide Valid, Distinct, Select, Walked, AllPosted, AllLanded, TurnAt;
      ghost var items, was := pullQueue, FlagsOf(pullQueue);
      visited := Walk(pullQueue, turns);
      WalkedFar(was, FlagsOf(items), turns, visited);
    }

    /** The walk itself. */
    method Walk(items: seq<MsgItem>, turns: seq<Turn>) returns (visited: nat)
      requires Valid() && Distinct(items) && items == pullQueue
      modifies this`pullQueue, this`completedQueue, this`responses, items
      ensures Valid() && visited <= |items| && Walked(old(FlagsOf(items)), FlagsOf(items), turns, visited)
      ensures var landed := old(FlagsOf(items)).landed;
        && pullQueue == Select(items[..visited], landed[..visited], false) + items[visited..]
        && completedQueue == old(completedQueue) + Select(items[..visited], landed[..visited], true)
      ensures visited == |items| ==> responses == old(responses)
      ensures visited < |items| ==>
        && responses == old(responses) + [(items[visited].requestId, -1)]
        && !items[visited].hasMr && !TurnAt(turns, visited).mayRegister
    {
      hide Valid, AllPosted, AllLanded, TurnAt, Select, Distinct, Walked, FlagsOf;
      ghost var was := FlagsOf(items);
      visited := 0;
      NothingSelected();
      StartWalk(was, turns);
      assert items[..0] == [] && was.landed[..0] == [] && items[0..] == items;
      var served := true;
      while visited < |items| && served
        invariant visited <= |items| && Valid()
        invariant pullQueue == Select(items[..visited], was.landed[..visited], false) + items[visited..]
        invariant completedQueue == old(completedQueue) + Select(items[..visited], was.landed[..visited], true)
        invariant Walked(was, FlagsOf(items), turns, visited)
        invariant served ==> responses == old(responses)
        invariant !served ==>
          && visited < |items| && responses == old(responses) + [(items[visited].requestId, -1)]
          && !items[visited].hasMr && !TurnAt(turns, visited).mayRegister
        decreases |items| - visited, served
      {
        served := VisitNext(items, visited, was, turns, old(completedQueue));
        if served {
          visited := visited + 1;
        }
      }
    }

    /** The same of a turn as of the walk. */
    method VisitNext(items: seq<MsgItem>, j: nat, ghost was: Flags, turns: seq<Turn>, ghost before: seq<MsgItem>)
      returns (served: bool)
      requires Valid() && Distinct(items) && j < |items| == |was.landed| && Walked(was, FlagsOf(items), turns, j)
      requires pullQueue == Select(items[..j], was.landed[..j], false) + items[j..]
      requires completedQueue == before + Select(items[..j], was.landed[..j], true)
      modifies this`pullQueue, this`completedQueue, this`responses, items[j]
      ensures Valid() && Walked(was, FlagsOf(items), turns, if served then j + 1 else j)
      ensures !served ==>
        && pullQueue == old(pullQueue) && completedQueue == old(completedQueue)
        && !items[j].hasMr && !TurnAt(turns, j).mayRegister
        && responses == old(responses) + [(items[j].requestId, -1)]
      ensures served ==>
        && pullQueue == Select(items[..j + 1], was.landed[..j + 1], false) + items[j + 1..]
        && completedQueue == before + Select(items[..j + 1], was.landed[..j + 1], true)
        && responses == old(responses)
    {
      hide Valid, AllPosted, AllLanded, TurnAt, Select, Distinct, Walked, FlagsOf;
      ghost var flags := FlagsOf(items);
      WalkedFar(was, flags, turns, j);
      OthersDiffer(items, j);
      served := Visit(items, j, was.landed, TurnAt(turns, j), before);
      if served {
        WalksOn(was, flags, FlagsOf(items), turns, j);
      } else {
        assert FlagsOf(items) == flags;
      }
    }

    /** One turn of the walk, over the queue as it was when the walk began. */
    method Visit(items: seq<MsgItem>, j: nat, ghost landed: seq<bool>, turn: Turn, ghost before: seq<MsgItem>) returns (served: bool)
      requires Valid() && j < |items| == |landed| && Distinct(items) && landed[j] == AllLanded(items[j].pulls)
      requires pullQueue == Select(items[..j], landed[..j], false) + items[j..]
      requires completedQueue == before + Select(items[..j], landed[..j], true)
      modifies this`pullQueue, this`completedQueue, this`responses, items[j]
      ensures Valid() && (served <==> old(items[j].hasMr) || turn.mayRegister)
      ensures !served ==>
        && pullQueue == old(pullQueue) && completedQueue == old(completedQueue) && unchanged(items[j])
        && responses == old(responses) + [(items[j].requestId, -1)]
      ensures served ==>
        && pullQueue == Select(items[..j + 1], landed[..j + 1], false) + items[j + 1..]
        && completedQueue == before + Select(items[..j + 1], landed[..j + 1], true)
        && responses == old(responses)
        && (turn.refused == {} ==> AllPosted(items[j].pulls))
    {
      hide Valid, AllAccounted, AllLanded, AllPosted, Select;
      ghost var waiting, back := Select(items[..j], landed[..j], false), items[j + 1..];
      assert items[j..] == [items[j]] + back;
      served := Serve(items[j], turn, waiting, back);
      SelectOneMore(items, landed, j, true);
      SelectOneMore(items, landed, j, false);
    }

    /** What can_do_something does with one message, which stands behind `waiting` in the queue. */
    method Serve(item: MsgItem, turn: Turn, ghost waiting: seq<MsgItem>, ghost back: seq<MsgItem>) returns (served: bool)
      requires Valid() && pullQueue == waiting + ([item] + back)
      modifies this`pullQueue, this`completedQueue, this`responses, item
      ensures Valid() && (served <==> old(item.hasMr) || turn.mayRegister)
      ensures !served ==>
        && pullQueue == old(pullQueue) && completedQueue == old(completedQueue) && unchanged(item)
        && responses == old(responses) + [(item.requestId, -1)]
      ensures served ==> var landed := old(AllLanded(item.pulls));
        && pullQueue == waiting + (if landed then [] else [item]) + back
        && completedQueue == old(completedQueue) + (if landed then [item] else [])
        && responses == old(responses) && (turn.refused == {} ==> AllPosted(item.pulls))
    {
      hide Holds;
      served := true;
      ItemIsElsewhere(waiting, item, back, completedQueue);
      var registered, allDone, didSomething := item.Advance(turn);
      if !registered {
        responses := responses + [(item.requestId, -1)];
        return false;
      }
      if allDone {
        ghost var k := ReturnCompletedPull(item);
        assert k == |waiting|;
      }
    }

    /** check_completed_pull: the connection gets the message, and its writer the response. */
    method CheckCompletedPull() returns (message: Option<seq<Byte>>)
      requires Valid()
      modifies this`completedQueue, this`responses
      ensures Valid()
      ensures message.None? <==> old(completedQueue) == []
      ensures message.None? ==> completedQueue == old(completedQueue) && responses == old(responses)
      ensures message.Some? ==>
        var msg := old(completedQueue)[0];
        && completedQueue == old(completedQueue)[1..]
        && WellFormed(msg.request, msg.memory) && message.value == Assembled(msg.request, msg.memory)
        && responses == old(responses) + [(msg.requestId, |message.value|)]
    {
      if completedQueue == [] {
        return None;
      }
      var msg := completedQueue[0];
      RemovalKeepsDistinct(pullQueue + completedQueue, |pullQueue|, pullQueue + completedQueue[1..]);
      completedQueue := completedQueue[1..];
      msg.DoneIsAssembled();
      message := Some(msg.buffer[..msg.messageSize]);
      responses := responses + [(msg.requestId, msg.messageSize)];
    }
  }

  lemma ItemIsElsewhere(front: seq<MsgItem>, item: MsgItem, back: seq<MsgItem>, others: seq<MsgItem>)
    requires Distinct(front + ([item] + back) + others)
    ensures item !in front && item !in back && item !in others
  {
    var s := front + ([item] + back) + others;
    assert s[|front|] == item;
    assert forall i :: 0 <= i < |front| ==> front[i] == s[i];
    assert forall i :: 0 <= i < |back| ==> back[i] == s[|front| + 1 + i];
    assert forall i :: 0 <= i < |others| ==> others[i] == s[|front| + 1 + |back| + i];
  }

  lemma PrefixIsDistinct(a: seq<MsgItem>, b: seq<MsgItem>)
    requires Distinct(a + b)
    ensures Distinct(a)
  {
    assert forall i :: 0 <= i < |a| ==> a[i] == (a + b)[i];
  }

  lemma InsertionKeepsDistinct(a: seq<MsgItem>, m: MsgItem, b: seq<MsgItem>)
    requires Distinct(a + b) && m !in a + b
    ensures Distinct(a + [m] + b)
  {
    var s, t := a + b, a + [m] + b;
    forall i, j | 0 <= i < j < |t| ensures t[i] != t[j] {
      if i != |a| && j != |a| {
        assert s[if i < |a| then i else i - 1] != s[if j < |a| then j else j - 1];
      } else {
        assert i == |a| ==> t[j] == s[j - 1];
        assert j == |a| ==> t[i] == s[i];
      }
    }
  }

  lemma RemovalKeepsDistinct(before: seq<MsgItem>, k: nat, after: seq<MsgItem>)
    requires Distinct(before) && k < |before| && after == before[..k] + before[k + 1..]
    ensures Distinct(after)
  {
  }

  lemma StillDistinct(before: seq<MsgItem>, k: nat, after: seq<MsgItem>)
    requires Distinct(before) && k < |before| && after == before[..k] + before[k + 1..] + [before[k]]
    ensures Distinct(after)
  {
  }
}
