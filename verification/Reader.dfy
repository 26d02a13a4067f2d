/** The reading half of a connection: CMDataAvailable over a socket that delivers bytes in pieces. */
module Reader {
  import opened Bytes
  import opened Collections
  import opened Frames
  import opened Framing
  import opened Streams

  const HEADER_BUFFER_SIZE: nat := 20
  const MAX_RW_COUNT: nat := 0x7fff_f000

  datatype Errno = NoError | Transient | Serious

  /** What a socket and a caller's buffer hold. */
  datatype Transfer = Transfer(incoming: seq<Byte>, consumed: seq<Byte>, buffer: seq<Byte>)

  /** `n` bytes have moved from the stream into the buffer at `offset`, and nothing else has changed. */
  ghost predicate Received(before: Transfer, offset: nat, n: nat, after: Transfer) {
    && n <= |before.incoming| && offset + n <= |before.buffer|
    && after.consumed == before.consumed + before.incoming[..n]
    && after.incoming == before.incoming[n..]
    && after.buffer == before.buffer[..offset] + before.incoming[..n] + before.buffer[offset + n..]
  }

  lemma ReceivedInTwoParts(a: Transfer, b: Transfer, c: Transfer, offset: nat, m: nat, n: nat)
    requires Received(a, offset, m, b) && Received(b, offset + m, n, c)
    ensures Received(a, offset, m + n, c)
  {
    assert a.incoming[..m + n] == a.incoming[..m] + b.incoming[..n];
    assert c.consumed == a.consumed + a.incoming[..m + n];
    WrittenInTwoParts(a.buffer, b.buffer, c.buffer, offset, a.incoming[..m], b.incoming[..n]);
  }

  lemma WrittenInTwoParts(a: seq<Byte>, b: seq<Byte>, c: seq<Byte>, offset: nat, x: seq<Byte>, y: seq<Byte>)
    requires offset + |x| + |y| <= |a|
    requires b == a[..offset] + x + a[offset + |x|..]
    requires c == b[..offset + |x|] + y + b[offset + |x| + |y|..]
    ensures c == a[..offset] + (x + y) + a[offset + |x + y|..]
  {
    assert b[..offset + |x|] == a[..offset] + x;
    assert b[offset + |x| + |y|..] == a[offset + |x| + |y|..];
  }

  /** A connected socket.  The kernel decides how much each read moves. */
  class Socket {
    var incoming: seq<Byte>   // bytes from the peer that have not been read
    var consumed: seq<Byte>   // bytes that have been read, in order
    var patience: nat         // transient errors the kernel may still report
    var requests: nat         // calls of ReadToBuffer so far
    var blocking: nat         // those of them that were to block
    var stalls: nat           // calls of read that brought nothing
    var errors: nat           // those of them with a serious error
    var halts: nat            // those of them with an end of file or an error that is not transient

    constructor (incoming: seq<Byte>, patience: nat)
      ensures this.incoming == incoming && this.patience == patience && consumed == [] && requests == 0 && stalls == 0
    {
      this.incoming, this.patience, consumed := incoming, patience, [];
      requests, blocking, stalls, errors, halts := 0, 0, 0, 0, 0;
    }

    ghost function State(buffer: array<Byte>): Transfer
      reads this`incoming, this`consumed, buffer
    {
      Transfer(incoming, consumed, buffer[..])
    }

    /** The whole stream, of which `consumed` is behind the reader. */
    ghost function Stream(): seq<Byte>
      reads this`incoming, this`consumed
    {
      consumed + incoming
    }

    /** read(2). */
    method Read(buffer: array<Byte>, offset: nat, length: nat) returns (iget: int, errno: Errno)
      requires 0 < length && offset + length <= buffer.Length
      modifies this`incoming, this`consumed, this`patience, this`stalls, this`errors, this`halts, buffer
      ensures -1 <= iget <= length && iget <= |old(incoming)|
      ensures Received(old(State(buffer)), offset, if iget > 0 then iget else 0, State(buffer))
      ensures |consumed| == |old(consumed)| + (if iget > 0 then iget else 0) && (iget <= 0 ==> consumed == old(consumed))
      ensures patience <= old(patience) && stalls == old(stalls) + if iget <= 0 then 1 else 0
      ensures errors == old(errors) + if iget <= 0 && errno.Serious? then 1 else 0
      ensures halts == old(halts) + if iget == 0 || (iget == -1 && !errno.Transient?) then 1 else 0
      ensures iget == -1 && errno.Transient? ==> patience < old(patience)
    {
      iget :| -1 <= iget <= length && iget <= |incoming|;
      errno := *;
      if iget == -1 && errno.Transient? {
        if patience == 0 {
          errno := Serious;
        } else {
          patience := patience - 1;
        }
      }
      if iget <= 0 {
        stalls := stalls + 1;
        if errno.Serious? {
          errors := errors + 1;
        }
        if iget == 0 || !errno.Transient? {
          halts := halts + 1;
        }
      }
      var moved := if iget > 0 then iget else 0;
      Store(buffer, offset, incoming[..moved]);
      consumed, incoming := consumed + incoming[..moved], incoming[moved..];
    }

    static method Store(buffer: array<Byte>, offset: nat, bytes: seq<Byte>)
      requires offset + |bytes| <= buffer.Length
      modifies buffer
      ensures buffer[..] == old(buffer[..offset]) + bytes + old(buffer[offset + |bytes|..])
    {
      forall i | 0 <= i < |bytes| {
        buffer[offset + i] := bytes[i];
      }
    }

    /** A request of which nothing came, and that was not to be left at that. */
    twostate predicate Refused(nonBlocking: bool)
      reads this
    {
      consumed == old(consumed) && (errors > old(errors) || !nonBlocking)
    }

    /**
      libcmsockets_LTX_read_to_buffer_func.  It answers -1 exactly if nothing came and the error was serious or
      the call was to block, and less than was asked for only at an end or an error that is not transient.
     */
    method ReadToBuffer(buffer: array<Byte>, offset: nat, requested: nat, nonBlocking: bool) returns (actual: int)
      requires 0 < requested && offset + requested <= buffer.Length
      modifies this, buffer
      ensures -1 <= actual <= requested
      ensures Received(old(State(buffer)), offset, if actual > 0 then actual else 0, State(buffer))
      ensures requests == old(requests) + 1 && stalls >= old(stalls)
      ensures errors >= old(errors) && blocking == old(blocking) + if nonBlocking then 0 else 1
      ensures actual < requested ==> stalls > old(stalls)
      ensures actual == -1 <==> Refused(nonBlocking)
      ensures 0 < actual < requested ==> halts > old(halts)
    {
      hide Received, State;
      requests := requests + 1;
      if !nonBlocking {
        blocking := blocking + 1;
      }
      var iget, errno := Read(buffer, offset, if requested > MAX_RW_COUNT then MAX_RW_COUNT else requested);
      if iget == -1 || iget == 0 {
        if errno.Serious? {
          return -1;
        } else if nonBlocking {
          return 0;
        }
        return -1;
      }
      var left := requested - iget;
      while left > 0
        invariant 0 <= left < requested
        invariant requests == old(requests) + 1 && stalls >= old(stalls) && errors >= old(errors) && halts >= old(halts)
        invariant blocking == old(blocking) + if nonBlocking then 0 else 1
        invariant |consumed| > |old(consumed)|
        invariant Received(old(State(buffer)), offset, requested - left, State(buffer))
        decreases left, patience
      {
        ghost var before := State(buffer);
        iget, errno := Read(buffer, offset + requested - left, if left > MAX_RW_COUNT then MAX_RW_COUNT else left);
        ReceivedInTwoParts(old(State(buffer)), before, State(buffer), offset, requested - left, if iget > 0 then iget else 0);
        if iget == -1 {
          if !errno.Transient? {
            return requested - left;
          }
          iget := 0;
        } else if iget == 0 {
          return requested - left;
        }
        left := left - iget;
      }
      return requested;
    }
  }

  /** How a turn of the reader ends; Taken carries the size of the message. */
  datatype Outcome = Dead | Dry | More | Taken(size: nat)

  lemma StreamKept(before: seq<Byte>, incoming: seq<Byte>, moved: nat)
    requires moved <= |incoming|
    ensures before + incoming[..moved] + incoming[moved..] == before + incoming
    ensures before + incoming[..0] == before
  {
    assert incoming == incoming[..moved] + incoming[moved..];
  }

  /** Why a call ended: the connection failed, the socket ran dry, a handler asked for it, or a fairness limit was passed. */
  datatype Stop = Failing | Drained | Asked | Limit

  /** A connection's reading state, and the layers above it as the list of what they were handed. */
  class Connection {
    const host: Order
    const socket: Socket
    const headerBuffer: array<Byte>      // holds data until the final size is known
    var messageBuffer: array?<Byte>      // final destination of the message
    var bufferFullPoint: nat             // data required for the buffer to be full
    var bufferDataEnd: nat               // last point with valid data in the buffer
    var failed: bool
    var abortReadAhead: bool
    var useReadThread: bool
    var deliveries: seq<Delivery>
    var failings: nat                    // how often a handler failed the connection
    var askings: nat                     // how often one asked for read-ahead to stop

    constructor (host: Order, socket: Socket, useReadThread: bool)
      requires socket.consumed == []
      ensures this.host == host && this.socket == socket && fresh(headerBuffer)
      ensures Valid() && deliveries == [] && messageBuffer == null
    {
      this.host, this.socket, this.useReadThread := host, socket, useReadThread;
      headerBuffer := new Byte[HEADER_BUFFER_SIZE];
      messageBuffer, bufferFullPoint, bufferDataEnd := null, 0, 0;
      failed, abortReadAhead, deliveries, failings, askings := false, false, [], 0, 0;
    }

    /** The bytes of the frame that has begun to arrive. */
    ghost function Partial(): seq<Byte>
      reads socket
    {
      Split(NeedOf(host), socket.consumed).rest
    }

    /** A message buffer and two marks that hold exactly the partial frame and wait for the right number of bytes. */
    ghost predicate Resumable(message: array?<Byte>, full: nat, end: nat)
      reads socket, headerBuffer, message
    {
      && message != headerBuffer
      && if full == 0 then Partial() == [] && message == null
         else
           && Scan(NeedOf(host), Partial(), 4) == Waiting(full)
           && |Partial()| == end
           && if message == null
              then end <= headerBuffer.Length && headerBuffer[..end] == Partial()
              else full >= HEADER_BUFFER_SIZE && end <= message.Length && message[..end] == Partial()
    }

    /** Everything handed up so far is what the bytes read so far spell, whatever pieces they came in. */
    ghost predicate Faithful()
      reads this`deliveries, socket
    {
      deliveries == DeliverAll(host, Split(NeedOf(host), socket.consumed).frames)
    }

    ghost predicate Valid()
      reads this, socket, headerBuffer, messageBuffer
    {
      && headerBuffer.Length == HEADER_BUFFER_SIZE
      && messageBuffer != headerBuffer && (bufferFullPoint == 0 ==> messageBuffer == null)
      && Faithful()
      && (!failed ==> Resumable(messageBuffer, bufferFullPoint, bufferDataEnd))
    }

    /** The receiver's checksum loop. */
    static method Checksum(buffer: array<Byte>, length: nat) returns (calculated: Byte)
      requires 4 <= length <= buffer.Length
      ensures calculated == SumBytes(buffer[4..length]) % 0x100
    {
      calculated := 0;
      var i := 4;
      while i < length
        invariant 4 <= i <= length
        invariant calculated == SumBytes(buffer[4..i]) % 0x100
      {
        assert buffer[4..i + 1][..i - 4] == buffer[4..i];
        calculated := (calculated + buffer[i]) % 0x100;
        i := i + 1;
      }
    }

    /** What handlers did since, and nothing else, decides whether the connection failed or read-ahead is to stop. */
    twostate predicate HandlersDecide()
      reads this`failed, this`failings, this`abortReadAhead, this`askings
    {
      && failings >= old(failings) && askings >= old(askings)
      && failed == (old(failed) || failings > old(failings))
      && abortReadAhead == (old(abortReadAhead) || askings > old(askings))
    }

    /** Where a call begins. */
    ghost function Now(): Since
      reads this`deliveries, this`failed, this`failings, this`abortReadAhead, this`askings, socket
    {
      Since(|deliveries|, |socket.consumed|, |Partial()|, socket.requests, socket.blocking, socket.errors,
            failings, askings, failed, abortReadAhead)
    }

    /**
      Nothing but its causes ends a call with a failure or on request: a handler, a serious error or a blocking
      read of which nothing came; and a handler.
     */
    ghost predicate HasCause(was: Since, stop: Stop)
      reads this`failed, this`failings, this`abortReadAhead, this`askings, socket
    {
      && failings >= was.failings && socket.errors >= was.errors
      && (failed ==> CanHaveFailed(was))
      && (if stop.Asked? then (was.abortReadAhead || askings > was.askings) && !abortReadAhead
          else askings == was.askings && (abortReadAhead ==> was.abortReadAhead))
    }

    ghost predicate CanHaveFailed(was: Since)
      reads this`failings, socket
    {
      was.failed || failings > was.failings || socket.errors > was.errors || socket.blocking > was.blocking
    }

    /**
      When reads block: all of them on a read thread; otherwise none unless blocking reads are wanted, and then
      those that complete a frame of which an earlier call had read the beginning.
     */
    ghost predicate BlocksAsTold(was: Since, savedFull: nat, useBlockingReads: bool)
      reads this`useReadThread, this`deliveries, socket
    {
      Told(useReadThread, useBlockingReads, savedFull, socket.blocking - was.blocking, socket.requests - was.requests,
           was.failed, |deliveries| - was.deliveries)
    }

    /** CMact_on_data.  A message that is taken goes to its handler, which may fail the connection or stop read-ahead. */
    method ActOnData(buffer: array<Byte>, length: nat) returns (need: nat)
      requires length <= buffer.Length
      modifies this`deliveries, this`failed, this`failings, this`abortReadAhead, this`askings
      ensures need == BytesNeeded(host, buffer[..length])
      ensures HandlersDecide()
      ensures need > 0 ==> deliveries == old(deliveries) && failings == old(failings) && askings == old(askings)
      ensures need == 0 ==> deliveries == old(deliveries) + [Deliver(host, buffer[..length])]
    {
      hide ParseHeader, KindOf, SumBytes;
      need := BytesNeeded(host, buffer[..length]);
      if need > 0 {
        return;
      }
      var calculated := Checksum(buffer, length);
      assert buffer[..length][4..] == buffer[4..length];
      deliveries := deliveries + [DeliverGiven(host, buffer[..length], calculated)];
      if * {
        failed, failings := true, failings + 1;
      }
      if * {
        abortReadAhead, askings := true, askings + 1;
      }
    }

    /** Where the next read goes: the header buffer while the frame may be small, else a message buffer of full size. */
    method Target(message: array?<Byte>, full: nat, end: nat) returns (target: array<Byte>, kept: array?<Byte>)
      requires headerBuffer.Length == HEADER_BUFFER_SIZE && full > 0
      requires Resumable(message, full, end)
      ensures if full < HEADER_BUFFER_SIZE then kept == message && target == headerBuffer else kept == target != headerBuffer
      ensures kept == message || fresh(kept)
      ensures target == headerBuffer || target == message || fresh(target)
      ensures target.Length >= full && end < full && target[..end] == Partial()
      ensures full < HEADER_BUFFER_SIZE ==> message == null
    {
      if full < HEADER_BUFFER_SIZE {
        return headerBuffer, message;
      }
      if message == null {
        kept := new Byte[full];
        forall i | 0 <= i < end {
          kept[i] := headerBuffer[i];
        }
      } else if message.Length < full {
        kept := new Byte[full];
        forall i | 0 <= i < end {
          kept[i] := message[i];
        }
      } else {
        kept := message;
      }
      target := kept;
    }

    /** One read into `target` and, if it fills the request, CMact_on_data's verdict on the bytes so far. */
    method ReadAndAct(target: array<Byte>, full: nat, end: nat, nonBlocking: bool) returns (actual: int, need: nat)
      requires end < full <= target.Length && target[..end] == Partial()
      requires Scan(NeedOf(host), Partial(), 4) == Waiting(full)
      requires Faithful() && !failed
      modifies this`deliveries, this`failed, this`failings, this`abortReadAhead, this`askings, socket, target
      ensures Faithful() && socket.Stream() == old(socket.Stream())
      ensures socket.requests == old(socket.requests) + 1 && socket.stalls >= old(socket.stalls)
      ensures actual < full - end ==> socket.stalls > old(socket.stalls)
      ensures socket.errors >= old(socket.errors) && socket.blocking == old(socket.blocking) + if nonBlocking then 0 else 1
      ensures actual == -1 <==> socket.Refused(nonBlocking)
      ensures actual != -1 ==> HandlersDecide()
      ensures actual == -1 ==> abortReadAhead == old(abortReadAhead)
      ensures actual < full - end || need > 0 ==> failings == old(failings) && askings == old(askings)
      ensures |socket.incoming| == |old(socket.incoming)| - if actual > 0 then actual else 0
      ensures |socket.consumed| == |old(socket.consumed)| + if actual > 0 then actual else 0
      ensures |deliveries| == |old(deliveries)| + if actual == full - end && need == 0 then 1 else 0
      ensures -1 <= actual <= full - end
      ensures actual == -1 ==> failed
      ensures 0 <= actual < full - end ==>
        && !failed && target[..end + actual] == Partial()
        && Scan(NeedOf(host), Partial(), 4) == Waiting(full)
      ensures actual == full - end && need > 0 ==>
        && !failed && target[..full] == Partial()
        && Scan(NeedOf(host), Partial(), 4) == Waiting(full + need)
        && StageOf(host, Partial(), full + need) == StageOf(host, old(Partial()), full) + 1 <= 2
      ensures actual == full - end && need == 0 ==> Partial() == []
    {
      hide Scan, Split, BytesNeeded, StageOf, Deliver;
      ghost var before := socket.consumed;
      ghost var incoming := socket.incoming;
      ghost var partial := Partial();
      actual := socket.ReadToBuffer(target, end, full - end, nonBlocking);
      need := 0;
      ghost var moved := if actual > 0 then actual else 0;
      StreamKept(before, incoming, moved);
      if actual == -1 {
        failed := true;
        return;
      }
      ghost var got := incoming[..actual];
      assert target[..end + actual] == partial + got;
      ReadStep(NeedOf(host), before, got, full);
      if actual < full - end {
        return;
      }
      need := ActOnData(target, full);
      if need > 0 {
        StageAdvances(host, partial + got, partial);
      } else {
        DeliverOneMore(host, Split(NeedOf(host), before).frames, partial + got);
      }
    }

    /** How many of the current frame's reads are done. */
    ghost function ReadsDone(full: nat): (n: nat)
      reads socket
      ensures n <= 2
    {
      StageOf(host, Partial(), if full == 0 then 4 else full)
    }

    /** One turn of the reader from its start_read label. */
    method Turn(message: array?<Byte>, full: nat, end: nat, nonBlocking: bool)
      returns (outcome: Outcome, message': array?<Byte>, full': nat, end': nat)
      requires headerBuffer.Length == HEADER_BUFFER_SIZE && Faithful() && !failed
      requires Resumable(message, full, end)
      modifies this`deliveries, this`failed, this`failings, this`abortReadAhead, this`askings, socket, headerBuffer
      modifies if message == null then {} else {message}
      ensures Faithful() && socket.Stream() == old(socket.Stream())
      ensures socket.requests == old(socket.requests) + 1 && socket.stalls >= old(socket.stalls)
      ensures |deliveries| == |old(deliveries)| + if outcome.Taken? then 1 else 0
      ensures outcome.Taken? ==> outcome.size == |old(Partial())| + |socket.consumed| - |old(socket.consumed)| && Partial() == []
      ensures outcome.More? || outcome.Dry? ==>
        |Partial()| == |old(Partial())| + |socket.consumed| - |old(socket.consumed)|
      ensures message' == null || message' == message || fresh(message')
      ensures outcome.Dead? ==> failed
      ensures socket.errors >= old(socket.errors) && socket.blocking == old(socket.blocking) + if nonBlocking then 0 else 1
      ensures outcome.Dead? <==> socket.Refused(nonBlocking)
      ensures !outcome.Dead? ==> HandlersDecide()
      ensures outcome.Dead? ==> abortReadAhead == old(abortReadAhead)
      ensures !outcome.Taken? ==> failings == old(failings) && askings == old(askings)
      ensures outcome.Dry? ==> socket.stalls > old(socket.stalls) && full' > 0 && Resumable(message', full', end')
      ensures outcome.More? ==> !failed && full' > 0 && Resumable(message', full', end') && ReadsDone(full') == old(ReadsDone(full)) + 1
      ensures outcome.Taken? ==> full' == 0 && Resumable(message', full', end')
      ensures outcome.More? || outcome.Taken? ==> |socket.incoming| < |old(socket.incoming)|
    {
      hide Scan, Split, StageOf, BytesNeeded;
      full', end' := full, end;
      if full == 0 {
        full', end' := 4, 0;
        WaitingForTag(host);
      }
      var target;
      target, message' := Target(message, full', end');
      var actual, need := ReadAndAct(target, full', end', nonBlocking);
      if actual == -1 {
        outcome := Dead;
        return;
      }
      end' := end' + actual;
      if end' < full' {
        outcome := Dry;
      } else if need != 0 {
        outcome, full' := More, full' + need;
      } else {
        outcome, message', full', end' := Taken(end'), null, 0, 0;
      }
    }

    /**
      CMDataAvailable for a transport with read_to_buffer_func.  It ends only when the socket runs dry, the
      connection fails, a handler stops read-ahead, or a fairness limit is passed.
     */
    method DataAvailable(messageLimit: nat, byteLimit: nat, useBlockingReads: bool) returns (stop: Stop)
      requires Valid()
      modifies this`messageBuffer, this`bufferFullPoint, this`bufferDataEnd, this`failed, this`failings
      modifies this`abortReadAhead, this`askings, this`deliveries, socket, headerBuffer
      modifies if messageBuffer == null then {} else {messageBuffer}
      ensures Valid() && socket.Stream() == old(socket.Stream())
      ensures messageBuffer == old(messageBuffer) || messageBuffer == null || fresh(messageBuffer)
      ensures socket.requests - old(socket.requests) <= 3 * (messageLimit + 1)
      ensures HasCause(old(Now()), stop) && BlocksAsTold(old(Now()), old(bufferFullPoint), useBlockingReads)
      ensures match stop
        case Failing => failed
        case Drained => bufferFullPoint > 0 && socket.stalls > old(socket.stalls)
        case Asked => |deliveries| > |old(deliveries)|
        case Limit =>
          || |deliveries| == |old(deliveries)| + messageLimit + 1
          || |old(Partial())| + |socket.consumed| - |old(socket.consumed)| > byteLimit
    {
      hide Scan, Split, DeliverAll;
      var message: array?<Byte> := null;
      var full: nat, end: nat := 0, 0;
      if bufferFullPoint != 0 {
        message, full, end := messageBuffer, bufferFullPoint, bufferDataEnd;
        messageBuffer, bufferFullPoint, bufferDataEnd := null, 0, 0;
      }
      hide Partial;
      stop, message, full, end := Turns(message, full, end, messageLimit, byteLimit, useBlockingReads);
      if stop.Drained? {
        messageBuffer, bufferFullPoint, bufferDataEnd := message, full, end;
      }
    }

    /** Turn after turn, until there is a reason to stop. */
    method Turns(saved: array?<Byte>, savedFull: nat, savedEnd: nat, messageLimit: nat, byteLimit: nat, useBlockingReads: bool)
      returns (stop: Stop, message: array?<Byte>, full: nat, end: nat)
      requires headerBuffer.Length == HEADER_BUFFER_SIZE && Faithful()
      requires !failed ==> Resumable(saved, savedFull, savedEnd)
      modifies this`failed, this`failings, this`abortReadAhead, this`askings, this`deliveries, socket, headerBuffer
      modifies if saved == null then {} else {saved}
      ensures Faithful() && socket.Stream() == old(socket.Stream())
      ensures message == null || message == saved || fresh(message)
      ensures stop.Drained? ==> full > 0 && Resumable(message, full, end)
      ensures !stop.Drained? && !failed ==> Resumable(null, 0, 0)
      ensures socket.requests - old(socket.requests) <= 3 * (messageLimit + 1)
      ensures HasCause(old(Now()), stop) && BlocksAsTold(old(Now()), savedFull, useBlockingReads)
      ensures match stop
        case Failing => failed
        case Drained => socket.stalls > old(socket.stalls)
        case Asked => |deliveries| > |old(deliveries)|
        case Limit =>
          || |deliveries| == |old(deliveries)| + messageLimit + 1
          || |old(Partial())| + |socket.consumed| - |old(socket.consumed)| > byteLimit
    {
      hide Scan, Split, Partial, Faithful, Resumable, Between, HasCause, BlocksAsTold, MayAsk;
      ghost var since := Now();
      message, full, end := saved, savedFull, savedEnd;
      var firstFour, messages, bytes := false, 0, 0;
      StartBetween(savedFull, useBlockingReads);
      while true
        invariant Faithful() && socket.Stream() == old(socket.Stream())
        invariant message == null || message == saved || fresh(message)
        invariant !failed ==> Resumable(message, full, end)
        invariant messages <= messageLimit
        invariant Between(since, savedFull, useBlockingReads, firstFour, full, messages, bytes)
        invariant socket.stalls >= old(socket.stalls)
        decreases |socket.incoming|
      {
        BetweenSays(since, savedFull, useBlockingReads, firstFour, full, messages, bytes);
        if failed {
          return Failing, message, full, end;
        }
        ghost var wasFirst := firstFour;
        firstFour := firstFour || full == 0;
        var nonBlocking := (firstFour || !useBlockingReads) && !useReadThread;
        var outcome;
        outcome, message, full, end :=
          CountedTurn(message, full, end, nonBlocking, since, savedFull, useBlockingReads, wasFirst, messages, bytes);
        match outcome {
          case Dead => return Failing, message, full, end;
          case Dry => return Drained, message, full, end;
          case More =>
          case Taken(size) =>
            messages, bytes := messages + 1, bytes + size;
            if abortReadAhead {
              TakeBackRequest(since);
              return Asked, message, full, end;
            }
            if messages > messageLimit || bytes > byteLimit {
              BetweenSays(since, savedFull, useBlockingReads, firstFour, full, messages, bytes);
              return Limit, message, full, end;
            }
        }
      }
    }

    /** Between turns: what has been done, that failures and requests to stop have their causes, and which reads blocked. */
    ghost predicate Between(since: Since, savedFull: nat, useBlockingReads: bool, firstFour: bool, full: nat, messages: nat, bytes: nat)
      reads this`deliveries, this`failed, this`failings, this`abortReadAhead, this`askings, this`useReadThread, socket
    {
      && Tallied(since, full, messages, bytes)
      && failings >= since.failings && socket.errors >= since.errors && socket.blocking >= since.blocking
      && socket.requests >= since.requests
      && (failed ==> CanHaveFailed(since)) && (messages == 0 ==> failed == since.failed)
      && askings == since.askings && (abortReadAhead ==> messages == 0 && since.abortReadAhead)
      && ToldSofar(useReadThread, useBlockingReads, savedFull, socket.blocking - since.blocking,
                   socket.requests - since.requests, firstFour, full, messages)
    }

    lemma StartBetween(full: nat, useBlockingReads: bool)
      ensures Between(Now(), full, useBlockingReads, false, full, 0, 0)
    {
    }

    /** What it says of a call that ends there. */
    lemma BetweenSays(since: Since, savedFull: nat, useBlockingReads: bool, firstFour: bool, full: nat, messages: nat, bytes: nat)
      requires Between(since, savedFull, useBlockingReads, firstFour, full, messages, bytes)
      ensures socket.requests - since.requests <= 3 * messages + 2 && |deliveries| == since.deliveries + messages
      ensures bytes <= since.partial + |socket.consumed| - since.consumed
      ensures messages > 0 || failed ==>
        HasCause(since, Failing) && HasCause(since, Limit) && BlocksAsTold(since, savedFull, useBlockingReads)
    {
    }

    /** A turn, and what it adds to the account. */
    method CountedTurn(message: array?<Byte>, full: nat, end: nat, nonBlocking: bool, ghost since: Since, ghost savedFull: nat,
                       ghost useBlockingReads: bool, ghost wasFirst: bool, ghost messages: nat, ghost bytes: nat)
      returns (outcome: Outcome, message': array?<Byte>, full': nat, end': nat)
      requires headerBuffer.Length == HEADER_BUFFER_SIZE && Faithful() && !failed
      requires Resumable(message, full, end) && Between(since, savedFull, useBlockingReads, wasFirst, full, messages, bytes)
      requires nonBlocking == ((wasFirst || full == 0 || !useBlockingReads) && !useReadThread)
      modifies this`deliveries, this`failed, this`failings, this`abortReadAhead, this`askings, socket, headerBuffer
      modifies if message == null then {} else {message}
      ensures Faithful() && socket.Stream() == old(socket.Stream())
      ensures socket.stalls >= old(socket.stalls) && socket.requests - since.requests <= 3 * (messages + 1)
      ensures message' == null || message' == message || fresh(message')
      ensures outcome.Dead? ==> failed && HasCause(since, Failing)
      ensures outcome.Dry? ==>
        socket.stalls > old(socket.stalls) && full' > 0 && Resumable(message', full', end') && HasCause(since, Drained)
      ensures outcome.More? ==>
        && !failed && full' > 0 && Resumable(message', full', end')
        && Between(since, savedFull, useBlockingReads, wasFirst || full == 0, full', messages, bytes)
      ensures outcome.Taken? ==>
        && full' == 0 && Resumable(message', full', end') && Resumable(null, 0, 0) && MayAsk(since)
        && (!abortReadAhead ==> Between(since, savedFull, useBlockingReads, wasFirst || full == 0, full', messages + 1, bytes + outcome.size))
        && |deliveries| == since.deliveries + messages + 1
      ensures outcome.Dead? || outcome.Dry? || outcome.Taken? ==> BlocksAsTold(since, savedFull, useBlockingReads)
      ensures outcome.More? || outcome.Taken? ==> |socket.incoming| < |old(socket.incoming)|
    {
      hide Faithful, Partial, StageOf, Told, ToldSofar, Resumable;
      ghost var blocking, requests := socket.blocking - since.blocking, socket.requests - since.requests;
      outcome, message', full', end' := Turn(message, full, end, nonBlocking);
      ResumableWhenEmpty(message', full', end');
      ToldStep(useReadThread, useBlockingReads, savedFull, blocking, requests, wasFirst, full, messages, outcome.Taken?,
               if outcome.Taken? then 0 else Max(1, full'), since.failed);
    }

    lemma ResumableWhenEmpty(message: array?<Byte>, full: nat, end: nat)
      ensures Resumable(message, full, end) && full == 0 ==> Resumable(null, 0, 0)
    {
    }

    /** The request to stop is met and taken back. */
    method TakeBackRequest(ghost since: Since)
      requires MayAsk(since) && abortReadAhead
      modifies this`abortReadAhead
      ensures HasCause(since, Asked)
    {
      abortReadAhead := false;
    }

    /** After a message: what may have been asked for, and why the connection may have failed. */
    ghost predicate MayAsk(since: Since)
      reads this`failed, this`failings, this`abortReadAhead, this`askings, socket
    {
      && failings >= since.failings && socket.errors >= since.errors
      && (failed ==> CanHaveFailed(since)) && (abortReadAhead ==> since.abortReadAhead || askings > since.askings)
    }

    /** What a call has done since it began: messages and bytes taken, and reads made. */
    ghost predicate Tallied(since: Since, full: nat, messages: nat, bytes: nat)
      reads this`deliveries, socket
    {
      && |deliveries| == since.deliveries + messages
      && bytes + |Partial()| == since.partial + |socket.consumed| - since.consumed
      && socket.requests - since.requests <= 3 * messages + ReadsDone(full)
    }

    /** Any number of calls, as data arrives and under any limits. */
    method Session(calls: seq<Call>)
      requires Valid()
      modifies this, socket, headerBuffer
      modifies if messageBuffer == null then {} else {messageBuffer}
      ensures Valid() && socket.Stream() == old(socket.Stream())
      ensures
        (!old(failed) && !useReadThread && (forall call <- calls :: !call.useBlockingReads)
         && socket.errors == old(socket.errors) && failings == old(failings)) ==> !failed
    {
      hide Faithful, Resumable;
      var i := 0;
      while i < |calls|
        invariant i <= |calls| && Valid() && socket.Stream() == old(socket.Stream())
        invariant socket.errors >= old(socket.errors) && failings >= old(failings) && useReadThread == old(useReadThread)
        invariant
          (!old(failed) && !useReadThread && (forall call <- calls :: !call.useBlockingReads)
           && socket.errors == old(socket.errors) && failings == old(failings)) ==> !failed
        invariant messageBuffer == null || messageBuffer == old(messageBuffer) || fresh(messageBuffer)
      {
        var call := calls[i];
        var _ := DataAvailable(call.messageLimit, call.byteLimit, call.useBlockingReads);
        i := i + 1;
      }
    }
  }

  /** Of so many reads of a call, which took so many messages, so many were to block. */
  predicate Told(thread: bool, wanted: bool, savedFull: nat, blocking: int, requests: int, failed: bool, messages: int) {
    && (thread ==> blocking == requests)
    && (!thread && (!wanted || savedFull == 0) ==> blocking == 0)
    && (!thread && wanted && savedFull > 0 && !failed ==> 1 <= blocking <= 3 && (messages == 0 ==> blocking == requests))
  }

  /** The same between turns. */
  predicate ToldSofar(thread: bool, wanted: bool, savedFull: nat, blocking: int, requests: int,
                      firstFour: bool, full: nat, messages: nat) {
    && (!firstFour && full > 0 ==> messages == 0 && savedFull > 0) && (firstFour ==> messages > 0 || savedFull == 0)
    && (full == 0 && messages == 0 ==> savedFull == 0)
    && (thread ==> blocking == requests)
    && (!thread && (!wanted || savedFull == 0) ==> blocking == 0)
    && (!thread && wanted && savedFull > 0 ==>
         && 0 <= blocking <= 3 && (messages == 0 ==> blocking == requests) && (messages > 0 ==> blocking > 0))
  }

  lemma ToldStep(thread: bool, wanted: bool, savedFull: nat, blocking: int, requests: int,
                 firstFour: bool, full: nat, messages: nat, taken: bool, full': nat, failed: bool)
    requires ToldSofar(thread, wanted, savedFull, blocking, requests, firstFour, full, messages)
    requires 0 <= requests && (messages == 0 ==> requests <= 2) && (taken <==> full' == 0)
    ensures var first := firstFour || full == 0;
      var more := if (first || !wanted) && !thread then 0 else 1;
      && ToldSofar(thread, wanted, savedFull, blocking + more, requests + 1, first, full', messages + if taken then 1 else 0)
      && Told(thread, wanted, savedFull, blocking + more, requests + 1, failed, messages + if taken then 1 else 0)
  {
  }

  /** The counts at the start of a call. */
  datatype Since = Since(deliveries: nat, consumed: nat, partial: nat, requests: nat, blocking: nat, errors: nat,
                         failings: nat, askings: nat, failed: bool, abortReadAhead: bool)

  /** The limits under which CMDataAvailable is called. */
  datatype Call = Call(messageLimit: nat, byteLimit: nat, useBlockingReads: bool)

  /**
    Fragmentation independence: a connection on a stream of written messages has handed up a prefix of them,
    unchanged, however the kernel cuts the stream and wherever its calls end; and all of them once no byte
    is left.
   */
  lemma DeliversWhatWasSent(c: Connection, sender: Order, ms: seq<Message>)
    requires c.Valid() && AllFit(sender, c.host, ms)
    requires c.socket.Stream() == Concat(EncodeAll(sender, ms))
    ensures c.deliveries <= ExpectedAll(ms)
    ensures c.socket.incoming == [] ==> c.deliveries == ExpectedAll(ms)
  {
    hide Scan, Split, Encode, Deliver, Expected, Representable, CanCarry, AllFit;
    assert c.socket.incoming == [] ==> c.socket.Stream() == c.socket.consumed;
    PrefixOfMessages(sender, c.host, ms, c.socket.consumed);
    StreamOfMessages(sender, c.host, ms);
  }

  /** The same for a stream of which only the beginning is there, the rest not having been written. */
  lemma DeliversWhatCame(c: Connection, sender: Order, ms: seq<Message>)
    requires c.Valid() && AllFit(sender, c.host, ms)
    requires c.socket.Stream() <= Concat(EncodeAll(sender, ms))
    ensures c.deliveries <= ExpectedAll(ms)
  {
    hide Scan, Split, Encode, Deliver, Expected, Representable, CanCarry, AllFit;
    PrefixOfMessages(sender, c.host, ms, c.socket.consumed);
  }

  /** A fresh connection, a stream of messages, and any number of calls. */
  method ReadMessages(host: Order, sender: Order, ghost ms: seq<Message>, stream: seq<Byte>, patience: nat,
                      useReadThread: bool, calls: seq<Call>) returns (c: Connection)
    requires AllFit(sender, host, ms) && stream == Concat(EncodeAll(sender, ms))
    ensures c.Valid() && c.socket.Stream() == stream
    ensures c.deliveries <= ExpectedAll(ms)
    ensures c.socket.incoming == [] ==> c.deliveries == ExpectedAll(ms)
  {
    hide AllFit, Encode, Expected, Concat;
    c := Connect(host, stream, patience, useReadThread, calls);
    DeliversWhatWasSent(c, sender, ms);
  }

  /** A fresh connection and any number of calls, on any stream. */
  method Connect(host: Order, stream: seq<Byte>, patience: nat, useReadThread: bool, calls: seq<Call>) returns (c: Connection)
    ensures c.Valid() && c.host == host && c.socket.Stream() == stream
  {
    var socket := new Socket(stream, patience);
    assert [] + stream == stream;
    c := new Connection(host, socket, useReadThread);
    c.Session(calls);
  }
}
