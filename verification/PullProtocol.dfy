/**
  The request, pull and response protocol of the fabric transport, over one connection.  A large write sends
  a request and leaves its bytes in registered memory; the peer reads them there and answers; the answer
  tells the application that the memory is its own again and lets the next write go.
 */
module PullProtocol {
  import opened Bytes

  /** What travels from writer to reader.  Writes are numbered in the order they were made. */
  datatype Packet =
    | Piggyback(write: nat, bytes: seq<Byte>)
    | Request(write: nat, prefix: seq<Byte>, pieces: nat)
  {
    predicate Bulk() {
      Request?
    }
  }

  /** A request being served: the pieces that have been read so far. */
  datatype Job = Job(write: nat, prefix: seq<Byte>, got: seq<Option<seq<Byte>>>) {
    predicate Complete() {
      forall i :: 0 <= i < |got| ==> got[i].Some?
    }

    function Message(): seq<Byte>
      requires Complete()
    {
      prefix + Concat(Pieces())
    }

    function Pieces(): seq<seq<Byte>>
      requires Complete()
    {
      seq(|got|, i requires 0 <= i < |got| => got[i].value)
    }
  }

  /** `ok` is false for a max_length of -1. */
  datatype Response = Response(write: nat, ok: bool)

  /** last_write: the write it describes, and whether a completion callback came with it. */
  datatype Record = Record(write: nat, notify: bool)

  datatype State = State(
    closed: bool,                   // conn->closed
    failed: bool,                   // conn->failed; the transport's record is gone, and with it its select
    refused: bool,                  // the reader has given up on the last bulk write
    pending: bool,                  // conn->write_pending
    last: Option<Record>,           // fcd->last_write
    regions: seq<seq<seq<Byte>>>,   // registered memory of each write, piece by piece; [] for small ones
    toReader: seq<Packet>,
    jobs: seq<Job>,
    toWriter: seq<Response>,
    bulk: seq<bool>,                // which writes left their bytes in registered memory
    written: seq<seq<Byte>>,        // the messages, as they were when written
    delivered: seq<seq<Byte>>,      // the messages the peer was handed
    asked: set<nat>,                // writes that came with a completion callback
    notified: set<nat>)             // writes whose completion callback has run

  datatype Action =
    | Write(iov: seq<seq<Byte>>, prefix: nat, small: bool, notify: bool)
    | Reuse(write: nat, iov: seq<seq<Byte>>)     // the application changes memory it believes to be its own
    | TakePacket
    | ReadPiece(piece: nat)
    | FinishJob
    | FailJob(retry: bool)                       // no memory could be registered; the queued path tries again
    | TakeResponse
    | Close                                      // internal_connection_close, by the application
    | Fail                                       // INT_CMConnection_failed

  function Start(): State {
    State(false, false, false, false, None, [], [], [], [], [], [], [], {}, {})
  }

  /** Memory an application may use again: that of a write it was told about, or that last_write has forgotten. */
  predicate Released(s: State, write: nat) {
    write in s.notified || s.last.None? || s.last.value.write != write
  }

  /**
    INT_CMwrite_raw_notify writes only on an open connection and, through wait_for_pending_write, only when
    nothing is pending.  A connection that has failed takes no more responses.
   */
  predicate Enabled(s: State, a: Action) {
    match a
    case Write(iov, prefix, _, _) => !s.closed && !s.failed && !s.pending && prefix <= |iov|
    case Reuse(write, _) => write < |s.regions| && Released(s, write)
    case TakePacket => s.toReader != []
    case ReadPiece(piece) => s.jobs != [] && piece < |s.jobs[0].got|
    case FinishJob => s.jobs != [] && s.jobs[0].Complete()
    case FailJob(_) => s.jobs != []
    case TakeResponse => s.toWriter != [] && !s.failed
    case Close => true
    case Fail => true
  }

  /** The writer's part, once nothing keeps it from writing. */
  function DoWrite(s: State, iov: seq<seq<Byte>>, prefix: nat, small: bool, notify: bool): State
    requires prefix <= |iov|
  {
    var n := |s.written|;
    if small then
      s.(written := s.written + [Concat(iov)], regions := s.regions + [[]], bulk := s.bulk + [false],
         toReader := s.toReader + [Piggyback(n, Concat(iov))],
         asked := if notify then s.asked + {n} else s.asked,
         notified := if notify then s.notified + {n} else s.notified)
    else
      s.(pending := true, refused := false, last := Some(Record(n, notify)), bulk := s.bulk + [true],
         written := s.written + [Concat(iov)], regions := s.regions + [iov[prefix..]],
         asked := if notify then s.asked + {n} else s.asked,
         toReader := s.toReader + [Request(n, Concat(iov[..prefix]), |iov| - prefix)])
  }

  function TakePacketOf(s: State): State
    requires s.toReader != []
  {
    match s.toReader[0]
    case Piggyback(_, bytes) => s.(toReader := s.toReader[1..], delivered := s.delivered + [bytes])
    case Request(n, prefix, pieces) =>
      s.(toReader := s.toReader[1..], jobs := s.jobs + [Job(n, prefix, seq(pieces, i => None))])
  }

  /** A remote read: it brings what is in the registered memory now. */
  function ReadPieceOf(s: State, piece: nat): State
    requires s.jobs != [] && piece < |s.jobs[0].got|
  {
    var job := s.jobs[0];
    if job.write < |s.regions| && piece < |s.regions[job.write]|
    then s.(jobs := s.jobs[0 := job.(got := job.got[piece := Some(s.regions[job.write][piece])])])
    else s
  }

  /** handle_response; the request ID is the address of last_write, so it is that record's callback that runs. */
  function TakeResponseOf(s: State): State
    requires s.toWriter != []
  {
    var rest := s.(toWriter := s.toWriter[1..]);
    if !s.toWriter[0].ok then rest
    else rest.(pending := false,
               notified := if s.last.Some? && s.last.value.notify then s.notified + {s.last.value.write} else s.notified)
  }

  function Next(s: State, a: Action): State
    requires Enabled(s, a)
  {
    match a
    case Write(iov, prefix, small, notify) => DoWrite(s, iov, prefix, small, notify)
    case Reuse(write, iov) => s.(regions := s.regions[write := iov])
    case TakePacket => TakePacketOf(s)
    case ReadPiece(piece) => ReadPieceOf(s, piece)
    case FinishJob =>
      s.(jobs := s.jobs[1..], delivered := s.delivered + [s.jobs[0].Message()],
         toWriter := s.toWriter + [Response(s.jobs[0].write, true)])
    case FailJob(retry) =>
      s.(jobs := if retry then s.jobs else s.jobs[1..], refused := s.refused || !retry,
         toWriter := s.toWriter + [Response(s.jobs[0].write, false)])
    case TakeResponse => TakeResponseOf(s)
    case Close => s.(closed := true)
    case Fail => s.(closed := true, failed := true, pending := false)
  }

  /** A run; actions that are not enabled are skipped. */
  function Run(s: State, acts: seq<Action>): State
    decreases |acts|
  {
    if acts == [] then s
    else Run(if Enabled(s, acts[0]) then Next(s, acts[0]) else s, acts[1..])
  }

  // ---------- What every run keeps ----------

  predicate NoBulk(packets: seq<Packet>) {
    forall i :: 0 <= i < |packets| ==> packets[i].Piggyback?
  }

  predicate NoOk(responses: seq<Response>) {
    forall i :: 0 <= i < |responses| ==> !responses[i].ok
  }

  /** Small packets under way carry the messages after those delivered. */
  predicate SmallsInOrder(s: State, packets: seq<Packet>) {
    && NoBulk(packets) && |s.delivered| + |packets| <= |s.written|
    && forall i :: 0 <= i < |packets| ==> packets[i].bytes == s.written[|s.delivered| + i]
  }

  /** Write `w` is the last one, last_write describes it, and its memory still holds the message behind `prefix`. */
  predicate Outstanding(s: State, w: nat, prefix: seq<Byte>) {
    && w + 1 == |s.written| == |s.regions| && s.last.Some? && s.last.value.write == w
    && w !in s.notified && (s.pending || s.failed) && !s.refused
    && prefix + Concat(s.regions[w]) == s.written[w]
  }

  predicate Idle(s: State) {
    && SmallsInOrder(s, s.toReader) && |s.delivered| + |s.toReader| == |s.written|
    && s.jobs == [] && NoOk(s.toWriter) && !s.pending
    && forall w :: |s.delivered| <= w < |s.bulk| ==> !s.bulk[w]
  }

  predicate Asked(s: State) {
    && s.toReader != [] && s.jobs == [] && NoOk(s.toWriter)
    && |s.delivered| + |s.toReader| == |s.written|
    && SmallsInOrder(s, s.toReader[..|s.toReader| - 1])
    && var request := s.toReader[|s.toReader| - 1];
    && request.Request? && Outstanding(s, request.write, request.prefix)
    && request.pieces == |s.regions[request.write]|
  }

  predicate Reading(s: State) {
    && s.toReader == [] && |s.jobs| == 1 && NoOk(s.toWriter)
    && |s.delivered| + 1 == |s.written|
    && var job := s.jobs[0];
    && Outstanding(s, job.write, job.prefix)
    && |job.got| == |s.regions[job.write]|
    && forall i :: 0 <= i < |job.got| && job.got[i].Some? ==> job.got[i].value == s.regions[job.write][i]
  }

  predicate Answered(s: State) {
    && s.toReader == [] && s.jobs == [] && s.toWriter != []
    && (forall i :: 0 <= i < |s.toWriter| - 1 ==> !s.toWriter[i].ok) && s.toWriter[|s.toWriter| - 1].ok
    && |s.delivered| == |s.written| && (s.pending || s.failed) && !s.refused
    && s.last.Some? && s.last.value.write + 1 == |s.written| && s.last.value.write !in s.notified
    && s.toWriter[|s.toWriter| - 1].write == s.last.value.write
  }

  /** The reader gave up on the last write: it will never be answered, and nothing more is written. */
  predicate Lost(s: State) {
    && s.toReader == [] && s.jobs == [] && NoOk(s.toWriter)
    && |s.delivered| + 1 == |s.written| && (s.pending || s.failed) && s.refused
    && s.last.Some? && s.last.value.write + 1 == |s.written| && s.last.value.write !in s.notified
  }

  predicate Inv(s: State) {
    && |s.regions| == |s.bulk| == |s.written|
    && s.delivered <= s.written
    && (forall w <- s.asked :: w < |s.written|) && s.notified <= s.asked
    && (forall w <- s.asked :: w !in s.notified ==> s.last == Some(Record(w, true)) && (s.pending || s.failed))
    && (s.last.Some? ==> (s.last.value.notify <==> s.last.value.write in s.asked))
    && (s.last.Some? ==> s.last.value.write < |s.written|)
    // memory is given back only when the peer has all of the message
    && (forall w :: 0 <= w < |s.bulk| && s.bulk[w] && Released(s, w) ==> w < |s.delivered|)
    && (Idle(s) || Asked(s) || Reading(s) || Answered(s) || Lost(s))
  }

  lemma WriteKeepsInv(s: State, iov: seq<seq<Byte>>, prefix: nat, small: bool, notify: bool)
    requires Inv(s) && Enabled(s, Write(iov, prefix, small, notify))
    ensures Inv(DoWrite(s, iov, prefix, small, notify))
  {
    assert Idle(s);
    if small {
      SmallKeepsInv(s, iov, prefix, notify);
    } else {
      BulkKeepsInv(s, iov, prefix, notify);
    }
  }

  lemma SmallKeepsInv(s: State, iov: seq<seq<Byte>>, prefix: nat, notify: bool)
    requires Inv(s) && Idle(s) && prefix <= |iov|
    ensures Inv(DoWrite(s, iov, prefix, true, notify))
  {
    hide Concat;
    assert Idle(DoWrite(s, iov, prefix, true, notify));
  }

  lemma BulkKeepsInv(s: State, iov: seq<seq<Byte>>, prefix: nat, notify: bool)
    requires Inv(s) && Idle(s) && !s.failed && prefix <= |iov|
    ensures Inv(DoWrite(s, iov, prefix, false, notify))
  {
    var t := DoWrite(s, iov, prefix, false, notify);
    assert iov == iov[..prefix] + iov[prefix..];
    ConcatAppend(iov[..prefix], iov[prefix..]);
    hide Concat;
    assert t.toReader[..|t.toReader| - 1] == s.toReader;
    assert Asked(t);
    forall w | 0 <= w < |t.bulk| && t.bulk[w] && Released(t, w) ensures w < |t.delivered| {
      assert w < |s.bulk| && s.bulk[w];
    }
  }

  lemma ReuseKeepsInv(s: State, write: nat, iov: seq<seq<Byte>>)
    requires Inv(s) && Enabled(s, Reuse(write, iov))
    ensures Inv(Next(s, Reuse(write, iov)))
  {
    var t := Next(s, Reuse(write, iov));
    if Idle(s) {
      assert Idle(t);
    } else if Asked(s) {
      assert Asked(t);
    } else if Reading(s) {
      assert Reading(t);
    } else if Answered(s) {
      assert Answered(t);
    } else {
      assert Lost(t);
    }
  }

  lemma TakePacketKeepsInv(s: State)
    requires Inv(s) && Enabled(s, TakePacket)
    ensures Inv(Next(s, TakePacket))
  {
    var t := Next(s, TakePacket);
    if Idle(s) {
      assert Idle(t);
    } else if |s.toReader| == 1 {
      assert Asked(s);
      assert Reading(t);
    } else {
      assert Asked(s);
      TakeSmall(s);
    }
  }

  lemma TakeSmall(s: State)
    requires Inv(s) && Asked(s) && |s.toReader| > 1
    ensures Inv(Next(s, TakePacket))
  {
    var t := Next(s, TakePacket);
    var last := |s.toReader| - 1;
    var smalls := s.toReader[..last];
    assert smalls[0] == s.toReader[0];
    assert t.toReader[..last - 1] == smalls[1..];
    assert Asked(t);
  }

  lemma ReadPieceKeepsInv(s: State, piece: nat)
    requires Inv(s) && Enabled(s, ReadPiece(piece))
    ensures Inv(Next(s, ReadPiece(piece)))
  {
    assert Reading(s);
    assert Reading(Next(s, ReadPiece(piece)));
  }

  lemma FinishKeepsInv(s: State)
    requires Inv(s) && Enabled(s, FinishJob)
    ensures Inv(Next(s, FinishJob))
  {
    var t := Next(s, FinishJob);
    assert Reading(s);
    var job := s.jobs[0];
    assert job.Pieces() == s.regions[job.write];
    assert Answered(t);
  }

  lemma FailKeepsInv(s: State, retry: bool)
    requires Inv(s) && Enabled(s, FailJob(retry))
    ensures Inv(Next(s, FailJob(retry)))
  {
    var t := Next(s, FailJob(retry));
    assert Reading(s);
    if retry {
      assert Reading(t);
    } else {
      assert Lost(t);
    }
  }

  lemma TakeResponseKeepsInv(s: State)
    requires Inv(s) && Enabled(s, TakeResponse)
    ensures Inv(Next(s, TakeResponse))
  {
    var t := Next(s, TakeResponse);
    if Answered(s) {
      var last := |s.toWriter| - 1;
      if last == 0 {
        assert Idle(t);
      } else {
        assert Answered(t);
      }
    } else {
      assert !s.toWriter[0].ok;
      if Idle(s) {
        assert Idle(t);
      } else if Asked(s) {
        assert Asked(t);
      } else if Reading(s) {
        assert Reading(t);
      } else {
        assert Lost(t);
      }
    }
  }

  lemma CloseKeepsInv(s: State)
    requires Inv(s)
    ensures Inv(Next(s, Close)) && Inv(Next(s, Fail))
  {
    EndingKeepsInv(s, Next(s, Close));
    EndingKeepsInv(s, Next(s, Fail));
  }

  lemma EndingKeepsInv(s: State, t: State)
    requires Inv(s) && t == s.(closed := true, failed := t.failed, pending := t.pending)
    requires (t.failed == s.failed && t.pending == s.pending) || (t.failed && !t.pending)
    ensures Inv(t)
  {
    if Idle(s) {
      assert Idle(t);
    } else if Asked(s) {
      assert Asked(t);
    } else if Reading(s) {
      assert Reading(t);
    } else if Answered(s) {
      assert Answered(t);
    } else {
      assert Lost(t);
    }
  }

  lemma StepKeepsInv(s: State, a: Action)
    requires Inv(s) && Enabled(s, a)
    ensures Inv(Next(s, a))
  {
    hide Inv;
    match a
    case Write(iov, prefix, small, notify) => WriteKeepsInv(s, iov, prefix, small, notify);
    case Reuse(write, iov) => ReuseKeepsInv(s, write, iov);
    case TakePacket => TakePacketKeepsInv(s);
    case ReadPiece(piece) => ReadPieceKeepsInv(s, piece);
    case FinishJob => FinishKeepsInv(s);
    case FailJob(retry) => FailKeepsInv(s, retry);
    case TakeResponse => TakeResponseKeepsInv(s);
    case Close => CloseKeepsInv(s);
    case Fail => CloseKeepsInv(s);
  }

  lemma {:induction false} RunKeepsInv(s: State, acts: seq<Action>)
    requires Inv(s)
    ensures Inv(Run(s, acts))
    decreases |acts|
  {
    hide Inv;
    if acts != [] {
      if Enabled(s, acts[0]) {
        StepKeepsInv(s, acts[0]);
        RunKeepsInv(Next(s, acts[0]), acts[1..]);
      } else {
        RunKeepsInv(s, acts[1..]);
      }
    }
  }

  // ---------- What follows for every run ----------

  /** Requests and answers under way for which nothing has been settled yet: each will use last_write. */
  function Unanswered(s: State): nat {
    Requests(s.toReader) + |s.jobs| + Oks(s.toWriter)
  }

  function Requests(packets: seq<Packet>): nat {
    if packets == [] then 0 else (if packets[0].Request? then 1 else 0) + Requests(packets[1..])
  }

  function Oks(responses: seq<Response>): nat {
    if responses == [] then 0 else (if responses[0].ok then 1 else 0) + Oks(responses[1..])
  }

  lemma {:induction false} RequestsSplit(packets: seq<Packet>, more: seq<Packet>)
    ensures Requests(packets + more) == Requests(packets) + Requests(more)
  {
    if packets == [] {
      assert packets + more == more;
    } else {
      RequestsSplit(packets[1..], more);
      assert (packets + more)[1..] == packets[1..] + more;
    }
  }

  lemma {:induction false} OksSplit(responses: seq<Response>, more: seq<Response>)
    ensures Oks(responses + more) == Oks(responses) + Oks(more)
  {
    if responses == [] {
      assert responses + more == more;
    } else {
      OksSplit(responses[1..], more);
      assert (responses + more)[1..] == responses[1..] + more;
    }
  }

  lemma {:induction false} NoRequests(packets: seq<Packet>)
    requires NoBulk(packets)
    ensures Requests(packets) == 0
  {
    if packets != [] {
      NoRequests(packets[1..]);
    }
  }

  lemma {:induction false} NoAnswers(responses: seq<Response>)
    requires NoOk(responses)
    ensures Oks(responses) == 0
  {
    if responses != [] {
      NoAnswers(responses[1..]);
    }
  }

  /**
    In a run of ordinary writes at most one request is unanswered, and as long as it is, last_write describes
    it and write_pending holds the connection, unless that has failed.
   */
  lemma AtMostOneUnanswered(acts: seq<Action>)
    ensures var s := Run(Start(), acts);
      && Unanswered(s) <= 1
      && (Unanswered(s) == 1 ==>
           && s.last.Some? && s.last.value.write + 1 == |s.written| && s.last.value.write !in s.notified
           && (s.pending || s.failed))
      && (forall i :: 0 <= i < |s.toReader| && s.toReader[i].Request? ==> s.last.Some? && s.toReader[i].write == s.last.value.write)
      && (forall i :: 0 <= i < |s.jobs| ==> s.last.Some? && s.jobs[i].write == s.last.value.write)
      && (forall i :: 0 <= i < |s.toWriter| && s.toWriter[i].ok ==> s.last.Some? && s.toWriter[i].write == s.last.value.write)
  {
    RunKeepsInv(Start(), acts);
    OneUnanswered(Run(Start(), acts));
  }

  lemma OneUnanswered(s: State)
    requires Inv(s)
    ensures Unanswered(s) <= 1
    ensures Unanswered(s) == 1 ==>
           && s.last.Some? && s.last.value.write + 1 == |s.written| && s.last.value.write !in s.notified
           && (s.pending || s.failed)
    ensures forall i :: 0 <= i < |s.toReader| && s.toReader[i].Request? ==> s.last.Some? && s.toReader[i].write == s.last.value.write
    ensures forall i :: 0 <= i < |s.jobs| ==> s.last.Some? && s.jobs[i].write == s.last.value.write
    ensures forall i :: 0 <= i < |s.toWriter| && s.toWriter[i].ok ==> s.last.Some? && s.toWriter[i].write == s.last.value.write
  {
    if Asked(s) {
      var last := |s.toReader| - 1;
      var smalls := s.toReader[..last];
      assert s.toReader == smalls + [s.toReader[last]];
      RequestsSplit(smalls, [s.toReader[last]]);
      NoRequests(smalls);
      NoAnswers(s.toWriter);
      assert forall i :: 0 <= i < |smalls| ==> smalls[i] == s.toReader[i];
    } else if Answered(s) {
      var last := |s.toWriter| - 1;
      var failures := s.toWriter[..last];
      assert s.toWriter == failures + [s.toWriter[last]];
      OksSplit(failures, [s.toWriter[last]]);
      NoAnswers(failures);
      assert forall i :: 0 <= i < |failures| ==> failures[i] == s.toWriter[i];
    } else {
      NoRequests(s.toReader);
      NoAnswers(s.toWriter);
    }
  }

  /**
    What the peer is handed is a prefix of what was written, whatever applications do with memory they got
    back; a bulk write whose callback has run, or that last_write no longer describes, was handed over
    whole; and once nothing is pending on a connection that has not failed every bulk write was.
   */
  lemma NotifiedMeansDelivered(acts: seq<Action>)
    ensures var s := Run(Start(), acts);
      && s.delivered <= s.written && |s.bulk| == |s.written|
      && (forall w: nat :: w < |s.bulk| && s.bulk[w] && Released(s, w) ==>
            w < |s.delivered| && s.delivered[w] == s.written[w])
      && (!s.pending && !s.failed ==>
            forall w: nat :: w < |s.bulk| && s.bulk[w] ==> w < |s.delivered| && s.delivered[w] == s.written[w])
  {
    RunKeepsInv(Start(), acts);
  }

  /**
    Callbacks run: in every run only for writes that came with one, and once nothing is pending on a connection that
    has not failed, for all of those.
   */
  lemma CallbacksRun(acts: seq<Action>)
    ensures var s := Run(Start(), acts);
      && s.notified <= s.asked
      && (!s.pending && !s.failed ==> s.notified == s.asked)
  {
    RunKeepsInv(Start(), acts);
  }

  /** A step that runs the last write's callback, or ends its pending write otherwise than by failure. */
  lemma WakesOnlyWhenRead(acts: seq<Action>, a: Action)
    requires Enabled(Run(Start(), acts), a)
    ensures var s := Run(Start(), acts); var t := Next(s, a);
      && (s.pending && !t.pending && a != Fail ==>
           a == TakeResponse && t.delivered == t.written && Unanswered(t) == 0)
      && (forall w: nat :: w in t.notified && w < |t.bulk| && w !in s.notified && t.bulk[w] ==>
           a == TakeResponse && s.last == Some(Record(w, true)) && t.delivered == t.written)
  {
    RunKeepsInv(Start(), acts);
    hide Inv, Next, Run;
    if a.TakeResponse? {
      AnswerFollowsRead(Run(Start(), acts));
    } else {
      OthersWakeNobody(Run(Start(), acts), a);
    }
  }

  lemma OthersWakeNobody(s: State, a: Action)
    requires Inv(s) && Enabled(s, a) && a != TakeResponse
    ensures var t := Next(s, a);
      && (s.pending && !t.pending ==> a == Fail)
      && (forall w: nat :: w in t.notified && w < |t.bulk| && t.bulk[w] ==> w in s.notified)
  {
    hide Idle, Asked, Reading, Answered, Lost;
  }

  lemma AnswerFollowsRead(s: State)
    requires Inv(s) && Enabled(s, TakeResponse)
    ensures var t := Next(s, TakeResponse);
      && (s.pending && !t.pending ==> t.delivered == t.written && Unanswered(t) == 0)
      && (forall w: nat :: w in t.notified && w < |t.bulk| && w !in s.notified && t.bulk[w] ==>
           s.last == Some(Record(w, true)) && t.delivered == t.written)
  {
    if s.toWriter[0].ok {
      assert Answered(s);
      assert s.toWriter[1..] == [];
    }
  }

  // ---------- The write that waited while its connection closed ----------

  /**
    What wait_for_pending_write is followed by.  It stops waiting when nothing is pending or when the connection
    has been closed, and the write goes ahead in either case.
   */
  predicate WaitIsOver(s: State) {
    !s.failed && (!s.pending || s.closed)
  }

  function WriteAfterWait(s: State, iov: seq<seq<Byte>>, prefix: nat, notify: bool): State
    requires prefix <= |iov| && WaitIsOver(s)
  {
    DoWrite(s, iov, prefix, false, notify)
  }

  /**
    conn->closed is looked at before the wait and not after it.  In every run, a bulk write that goes ahead
    leaves one request unanswered exactly if it finds write_pending clear, or finds it set only because the
    reader gave up on the last write and answered -1; and it can leave two only on a closed connection.
   */
  lemma WriteAfterWaitSafeIff(acts: seq<Action>, iov: seq<seq<Byte>>, prefix: nat, notify: bool)
    requires prefix <= |iov| && WaitIsOver(Run(Start(), acts))
    ensures var s := Run(Start(), acts); var t := WriteAfterWait(s, iov, prefix, notify);
      && (Unanswered(t) <= 1 <==> !s.pending || s.refused)
      && (Unanswered(t) > 1 ==> s.closed)
  {
    var s := Run(Start(), acts);
    RunKeepsInv(Start(), acts);
    PendingIff(s);
    RequestsSplit(s.toReader, [Request(|s.written|, Concat(iov[..prefix]), |iov| - prefix)]);
  }

  /** On a connection that has not failed, write_pending is set exactly while a request is unanswered or refused. */
  lemma PendingIff(s: State)
    requires Inv(s) && !s.failed
    ensures s.pending && !s.refused <==> Unanswered(s) == 1
    ensures Unanswered(s) <= 1 && (s.refused && s.pending ==> Unanswered(s) == 0)
  {
    OneUnanswered(s);
    if Idle(s) || Lost(s) {
      NoRequests(s.toReader);
      NoAnswers(s.toWriter);
    } else if Asked(s) {
      var last := |s.toReader| - 1;
      assert s.toReader == s.toReader[..last] + [s.toReader[last]];
      RequestsSplit(s.toReader[..last], [s.toReader[last]]);
    } else if Answered(s) {
      var last := |s.toWriter| - 1;
      assert s.toWriter == s.toWriter[..last] + [s.toWriter[last]];
      OksSplit(s.toWriter[..last], [s.toWriter[last]]);
    }
  }

  /**
    wait_for_pending_write also takes a wait that ends without a signal for the end of the connection, and
    clears write_pending on one that is open.  In every run, the write that follows leaves one request
    unanswered under the same condition.
   */
  lemma SpuriousWakeSafeIff(acts: seq<Action>, iov: seq<seq<Byte>>, prefix: nat, notify: bool)
    requires var s := Run(Start(), acts); prefix <= |iov| && !s.closed && !s.failed
    ensures var s := Run(Start(), acts); var woken := s.(pending := false); var write := Write(iov, prefix, false, notify);
      && Enabled(woken, write)
      && (Unanswered(Next(woken, write)) <= 1 <==> !s.pending || s.refused)
  {
    var s := Run(Start(), acts);
    RunKeepsInv(Start(), acts);
    PendingIff(s);
    RequestsSplit(s.toReader, [Request(|s.written|, Concat(iov[..prefix]), |iov| - prefix)]);
  }

  /** Without an answer of -1 that ends a request, write_pending alone decides. */
  lemma {:induction false} NeverRefused(s: State, acts: seq<Action>)
    requires !s.refused && forall a <- acts :: a != FailJob(false)
    ensures !Run(s, acts).refused
    decreases |acts|
  {
    if acts != [] {
      assert acts[0] in acts && forall a <- acts[1..] :: a in acts;
      NeverRefused(if Enabled(s, acts[0]) then Next(s, acts[0]) else s, acts[1..]);
    }
  }

  /**
    A run of this kind: the application closes the connection while a second write waits for the first, which
    then goes ahead.  The answer to the first runs the second one's callback, before a byte of that was read.
   */
  lemma EarlyCallback(first: seq<seq<Byte>>, second: seq<seq<Byte>>)
    requires |first| == |second| == 1
    ensures
      var closed := Run(Start(), [Write(first, 0, false, true), Close]);
      && closed.pending && WaitIsOver(closed)
      && var t := Run(WriteAfterWait(closed, second, 0, true), [TakePacket, ReadPiece(0)] + [FinishJob, TakeResponse]);
      && t.notified == {1} && t.bulk == [true, true] && t.delivered == [Concat(first)]
  {
    hide *;
    BothAsked(first, second);
    var s0 := TwoAsked(first, second);
    RunSplit(s0, [TakePacket, ReadPiece(0)], [FinishJob, TakeResponse]);
    FirstIsRead(first, second);
    FirstIsAnswered(first, second);
  }

  function TwoAsked(first: seq<seq<Byte>>, second: seq<seq<Byte>>): State {
    State(true, false, false, true, Some(Record(1, true)), [first, second], [Request(0, [], 1), Request(1, [], 1)], [], [],
          [true, true], [Concat(first), Concat(second)], [], {0, 1}, {})
  }

  function OneRead(first: seq<seq<Byte>>, second: seq<seq<Byte>>): State
    requires |first| == 1
  {
    TwoAsked(first, second).(toReader := [Request(1, [], 1)], jobs := [Job(0, [], [Some(first[0])])])
  }

  lemma BothAsked(first: seq<seq<Byte>>, second: seq<seq<Byte>>)
    requires |first| == |second| == 1
    ensures var closed := Run(Start(), [Write(first, 0, false, true), Close]);
      closed.pending && WaitIsOver(closed) && WriteAfterWait(closed, second, 0, true) == TwoAsked(first, second)
  {
    hide Run, Concat;
    RunTwo(Start(), Write(first, 0, false, true), Close);
    assert first[0..] == first && second[0..] == second && first[..0] == [] && second[..0] == [];
    EmptyConcat<Byte>();
  }

  lemma FirstIsRead(first: seq<seq<Byte>>, second: seq<seq<Byte>>)
    requires |first| == |second| == 1
    ensures Run(TwoAsked(first, second), [TakePacket, ReadPiece(0)]) == OneRead(first, second)
  {
    hide Run, Concat;
    var taken := Next(TwoAsked(first, second), TakePacket);
    assert taken.jobs[0].got == [None];
    assert taken.jobs == [Job(0, [], [None])];
    assert [Option<seq<Byte>>.None][0 := Some(first[0])] == [Some(first[0])];
    RunTwo(TwoAsked(first, second), TakePacket, ReadPiece(0));
  }

  lemma FirstIsAnswered(first: seq<seq<Byte>>, second: seq<seq<Byte>>)
    requires |first| == |second| == 1
    ensures var t := Run(OneRead(first, second), [FinishJob, TakeResponse]);
      t.notified == {1} && t.bulk == [true, true] && t.delivered == [Concat(first)]
  {
    hide *;
    FirstIsFinished(first, second);
    SecondIsNotified(first, second);
    RunTwo(OneRead(first, second), FinishJob, TakeResponse);
  }

  function OneFinished(first: seq<seq<Byte>>, second: seq<seq<Byte>>): State {
    TwoAsked(first, second).(toReader := [Request(1, [], 1)], delivered := [Concat(first)],
                             toWriter := [Response(0, true)])
  }

  lemma FirstIsFinished(first: seq<seq<Byte>>, second: seq<seq<Byte>>)
    requires |first| == |second| == 1
    ensures Enabled(OneRead(first, second), FinishJob)
    ensures Next(OneRead(first, second), FinishJob) == OneFinished(first, second)
  {
    hide Run, Concat;
    var s := OneRead(first, second);
    FirstIsWhole(first, s.jobs[0]);
    assert s.jobs[1..] == [] && s.delivered + [Concat(first)] == [Concat(first)];
  }

  lemma SecondIsNotified(first: seq<seq<Byte>>, second: seq<seq<Byte>>)
    requires |first| == |second| == 1
    ensures Enabled(OneFinished(first, second), TakeResponse)
    ensures var t := Next(OneFinished(first, second), TakeResponse);
      t.notified == {1} && t.bulk == [true, true] && t.delivered == [Concat(first)]
  {
    hide *;
    var s := OneFinished(first, second);
    OneFinishedHas(first, second);
    TakingNotifies(s);
    assert s.notified + {1} == {1};
  }

  lemma OneFinishedHas(first: seq<seq<Byte>>, second: seq<seq<Byte>>)
    ensures var s := OneFinished(first, second);
      && s.toWriter == [Response(0, true)] && !s.failed && s.last == Some(Record(1, true)) && s.notified == {}
      && s.bulk == [true, true] && s.delivered == [Concat(first)]
  {
    hide Concat;
  }

  lemma TakingNotifies(s: State)
    requires s.toWriter != [] && !s.failed && s.toWriter[0].ok && s.last == Some(Record(1, true))
    ensures Enabled(s, TakeResponse)
    ensures var t := Next(s, TakeResponse);
      t.notified == s.notified + {1} && t.bulk == s.bulk && t.delivered == s.delivered
  {
  }

  lemma FirstIsWhole(first: seq<seq<Byte>>, job: Job)
    requires |first| == 1 && job == Job(0, [], [Some(first[0])])
    ensures job.Message() == Concat(first)
  {
    hide Concat;
    assert job.Pieces() == first;
  }

  lemma RunTwo(s: State, a: Action, b: Action)
    requires Enabled(s, a) && Enabled(Next(s, a), b)
    ensures Run(s, [a, b]) == Next(Next(s, a), b)
  {
    hide Next, Enabled;
    assert [a, b][1..] == [b] && [b][1..] == [];
    assert Run(Next(Next(s, a), b), []) == Next(Next(s, a), b);
    assert Run(Next(s, a), [b]) == Next(Next(s, a), b);
  }

  lemma {:induction false} RunSplit(s: State, first: seq<Action>, rest: seq<Action>)
    ensures Run(s, first + rest) == Run(Run(s, first), rest)
    decreases |first|
  {
    hide Next, Enabled;
    if first == [] {
      assert first + rest == rest;
    } else {
      assert (first + rest)[1..] == first[1..] + rest;
      RunSplit(if Enabled(s, first[0]) then Next(s, first[0]) else s, first[1..], rest);
    }
  }
}
