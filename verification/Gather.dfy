/**
  Bulk messages of the fabric transport: a request carries a piggybacked prefix of the message and the
  addresses of the rest, which the receiver reads from the sender's memory.
 */
module Gather {
  import opened Bytes

  const PIGGYBACK: nat := 10250
  const SIZEOF_MESSAGE: nat := 56     // struct control_message, with one remote_entry in it
  const SIZEOF_ENTRY: nat := 24       // struct remote_entry

  /** A registered buffer of the sender. */
  datatype Buffer = Buffer(base: nat, len: nat)

  /** A buffer of the sender by its remote address. */
  datatype RemoteEntry = RemoteEntry(addr: nat, length: nat, rkey: nat)

  /** A msg_request as it travels: the fields of struct request, and all its bytes. */
  datatype Request = Request(length: nat, iovcnt: nat, piggybackLength: nat, requestId: nat,
                             readList: seq<RemoteEntry>, raw: seq<Byte>)

  function HeaderSize(iovcnt: nat): nat {
    SIZEOF_MESSAGE + iovcnt * SIZEOF_ENTRY
  }

  predicate InMemory(memory: seq<Byte>, iov: seq<Buffer>) {
    forall i :: 0 <= i < |iov| ==> iov[i].base + iov[i].len <= |memory|
  }

  function Fetch(memory: seq<Byte>, b: Buffer): (r: seq<Byte>)
    requires b.base + b.len <= |memory|
    ensures |r| == b.len
  {
    memory[b.base..b.base + b.len]
  }

  function Contents(memory: seq<Byte>, iov: seq<Buffer>): (r: seq<seq<Byte>>)
    requires InMemory(memory, iov)
    ensures |r| == |iov| && forall i :: 0 <= i < |r| ==> r[i] == Fetch(memory, iov[i])
  {
    seq(|iov|, i requires 0 <= i < |iov| => Fetch(memory, iov[i]))
  }

  function Entries(iov: seq<Buffer>, keys: seq<nat>): (r: seq<RemoteEntry>)
    requires |keys| == |iov|
    ensures |r| == |iov|
    ensures forall i :: 0 <= i < |r| ==> r[i] == RemoteEntry(iov[i].base, iov[i].len, keys[i])
  {
    seq(|iov|, i requires 0 <= i < |iov| => RemoteEntry(iov[i].base, iov[i].len, keys[i]))
  }

  // ---------- The sender ----------

  /** `k` whole buffers fit behind a header for all of them, and the next does not. */
  predicate FitsExactly(contents: seq<seq<Byte>>, k: nat) {
    && k <= |contents|
    && (forall j :: 0 < j <= k ==> HeaderSize(|contents|) + |Concat(contents[..j])| < PIGGYBACK)
    && (k < |contents| ==> HeaderSize(|contents|) + |Concat(contents[..k + 1])| >= PIGGYBACK)
  }

  /** The request for a message: `k` buffers ride along, the others are listed. */
  ghost predicate RequestFor(r: Request, memory: seq<Byte>, iov: seq<Buffer>, keys: seq<nat>, id: nat, k: nat)
    requires InMemory(memory, iov) && |keys| == |iov|
  {
    var contents := Contents(memory, iov);
    && FitsExactly(contents, k)
    && r.length == |Concat(contents)| && r.requestId == id
    && r.iovcnt == |iov| - k && r.readList == Entries(iov[k..], keys[k..])
    && r.piggybackLength == |Concat(contents[..k])|
    && |r.raw| == HeaderSize(r.iovcnt) + r.piggybackLength
    && r.raw[HeaderSize(r.iovcnt)..] == Concat(contents[..k])
  }

  /** The loop that chooses how many buffers to piggyback. */
  method CountPiggybacked(contents: seq<seq<Byte>>) returns (k: nat)
    ensures FitsExactly(contents, k)
  {
    var size := HeaderSize(|contents|);
    k := 0;
    while k < |contents|
      invariant k <= |contents|
      invariant size == HeaderSize(|contents|) + |Concat(contents[..k])|
      invariant forall j :: 0 < j <= k ==> HeaderSize(|contents|) + |Concat(contents[..j])| < PIGGYBACK
    {
      ConcatSnoc(contents, k);
      if size + |contents[k]| < PIGGYBACK {
        size := size + |contents[k]|;
        k := k + 1;
      } else {
        return;
      }
    }
  }

  lemma PrefixFits(contents: seq<seq<Byte>>, k: nat)
    requires FitsExactly(contents, k) && k > 0
    ensures HeaderSize(|contents| - k) + |Concat(contents[..k])| < PIGGYBACK
  {
  }

  /** internal_write_request, up to handing the message to fi_send. */
  method WriteRequest(memory: seq<Byte>, iov: seq<Buffer>, keys: seq<nat>, length: nat, id: nat)
    returns (r: Request)
    requires InMemory(memory, iov) && |keys| == |iov| && length == |Concat(Contents(memory, iov))|
    ensures r.iovcnt <= |iov| && RequestFor(r, memory, iov, keys, id, |iov| - r.iovcnt)
    ensures r.iovcnt < |iov| ==> |r.raw| < PIGGYBACK
  {
    hide Concat, FitsExactly, Entries, InMemory;
    var contents := Contents(memory, iov);
    var prefix := CountPiggybacked(contents);
    var iovcnt := |iov| - prefix;
    var raw: seq<Byte> := seq(HeaderSize(iovcnt), i => 0);
    var piggybackLength := 0;
    var i := 0;
    EmptyConcat<Byte>();
    assert contents[..0] == [];
    while i < prefix
      invariant i <= prefix && piggybackLength == |Concat(contents[..i])|
      invariant |raw| == HeaderSize(iovcnt) + piggybackLength
      invariant raw[HeaderSize(iovcnt)..] == Concat(contents[..i])
    {
      ConcatSnoc(contents, i);
      raw := raw + contents[i];
      piggybackLength := piggybackLength + iov[i].len;
      i := i + 1;
    }
    if prefix > 0 {
      PrefixFits(contents, prefix);
    }
    var readList := ListRemaining(iov, keys, prefix);
    r := Request(length, iovcnt, piggybackLength, id, readList, raw);
  }

  /** The loop over the buffers that stay behind. */
  method ListRemaining(iov: seq<Buffer>, keys: seq<nat>, prefix: nat) returns (readList: seq<RemoteEntry>)
    requires |keys| == |iov| && prefix <= |iov|
    ensures readList == Entries(iov[prefix..], keys[prefix..])
  {
    readList := [];
    var i := prefix;
    while i < |iov|
      invariant prefix <= i <= |iov|
      invariant |readList| == i - prefix
      invariant forall j :: 0 <= j < |readList| ==> readList[j] == Entries(iov[prefix..], keys[prefix..])[j]
    {
      readList := readList + [RemoteEntry(iov[i].base, iov[i].len, keys[i])];
      i := i + 1;
    }
  }

  // ---------- The receiver ----------

  predicate Readable(memory: seq<Byte>, list: seq<RemoteEntry>) {
    forall i :: 0 <= i < |list| ==> list[i].addr + list[i].length <= |memory|
  }

  /** What the remote reads of a list bring. */
  function Pieces(memory: seq<Byte>, list: seq<RemoteEntry>): (r: seq<seq<Byte>>)
    requires Readable(memory, list)
    ensures |r| == |list|
    ensures forall i :: 0 <= i < |r| ==> r[i] == memory[list[i].addr..list[i].addr + list[i].length]
  {
    seq(|list|, i requires 0 <= i < |list| => memory[list[i].addr..list[i].addr + list[i].length])
  }

  /** A request the receiver can make sense of. */
  predicate WellFormed(r: Request, memory: seq<Byte>) {
    && r.iovcnt == |r.readList| && Readable(memory, r.readList)
    && HeaderSize(r.iovcnt) + r.piggybackLength <= |r.raw|
    && r.length == r.piggybackLength + |Concat(Pieces(memory, r.readList))|
  }

  /** The message a request stands for. */
  function Assembled(r: Request, memory: seq<Byte>): seq<Byte>
    requires WellFormed(r, memory)
  {
    r.raw[HeaderSize(r.iovcnt)..HeaderSize(r.iovcnt) + r.piggybackLength] + Concat(Pieces(memory, r.readList))
  }

  /** Prefix and remote list, put together again, are the message that was written. */
  lemma GatherRoundTrip(r: Request, memory: seq<Byte>, iov: seq<Buffer>, keys: seq<nat>, id: nat, k: nat)
    requires InMemory(memory, iov) && |keys| == |iov| && RequestFor(r, memory, iov, keys, id, k)
    ensures WellFormed(r, memory) && Assembled(r, memory) == Concat(Contents(memory, iov))
  {
    hide Concat, FitsExactly;
    var contents := Contents(memory, iov);
    assert Pieces(memory, r.readList) == contents[k..];
    assert contents == contents[..k] + contents[k..];
    ConcatAppend(contents[..k], contents[k..]);
    assert r.raw[HeaderSize(r.iovcnt)..HeaderSize(r.iovcnt) + r.piggybackLength] == r.raw[HeaderSize(r.iovcnt)..];
  }

  // ---------- Immediate pull ----------

  /** The piece's place in the message buffer: behind the prefix and the pieces before it. */
  function Offset(prefix: nat, pieces: seq<seq<Byte>>, i: nat): nat
    requires i <= |pieces|
  {
    prefix + |Concat(pieces[..i])|
  }

  lemma OffsetStep(prefix: nat, pieces: seq<seq<Byte>>, i: nat)
    requires i < |pieces|
    ensures Offset(prefix, pieces, i + 1) == Offset(prefix, pieces, i) + |pieces[i]|
  {
    ConcatSnoc(pieces, i);
  }

  lemma {:induction false} OffsetsOrdered(prefix: nat, pieces: seq<seq<Byte>>, i: nat, j: nat)
    requires i < j <= |pieces|
    ensures Offset(prefix, pieces, i) + |pieces[i]| <= Offset(prefix, pieces, j)
    decreases j - i
  {
    hide Offset;
    OffsetStep(prefix, pieces, j - 1);
    if i < j - 1 {
      OffsetsOrdered(prefix, pieces, i, j - 1);
    }
  }

  lemma OffsetInside(prefix: nat, pieces: seq<seq<Byte>>, i: nat)
    requires i < |pieces|
    ensures Offset(prefix, pieces, i) + |pieces[i]| <= Offset(prefix, pieces, |pieces|) == prefix + |Concat(pieces)|
  {
    OffsetsOrdered(prefix, pieces, i, |pieces|);
    assert pieces[..|pieces|] == pieces;
  }

  /** fi_read and the wait for its completion. */
  method RemoteRead(memory: seq<Byte>, entry: RemoteEntry, buffer: array<Byte>, at: nat)
    requires entry.addr + entry.length <= |memory| && at + entry.length <= buffer.Length
    modifies buffer
    ensures buffer[..at + entry.length] == old(buffer[..at]) + memory[entry.addr..entry.addr + entry.length]
  {
    forall i | 0 <= i < entry.length {
      buffer[at + i] := memory[entry.addr + i];
    }
  }

  /** The reading loop of perform_pull: one buffer after the other, each behind the last. */
  method PullPieces(memory: seq<Byte>, list: seq<RemoteEntry>, buffer: array<Byte>, prefix: nat)
    requires Readable(memory, list) && prefix + |Concat(Pieces(memory, list))| <= buffer.Length
    modifies buffer
    ensures buffer[..prefix + |Concat(Pieces(memory, list))|] == old(buffer[..prefix]) + Concat(Pieces(memory, list))
  {
    hide Concat;
    ghost var pieces, front := Pieces(memory, list), buffer[..prefix];
    var at, i := prefix, 0;
    assert pieces[..0] == [];
    EmptyConcat<Byte>();
    while i < |list|
      invariant i <= |list| && at == Offset(prefix, pieces, i) <= buffer.Length
      invariant buffer[..at] == front + Concat(pieces[..i])
    {
      OffsetStep(prefix, pieces, i);
      OffsetInside(prefix, pieces, i);
      ConcatSnoc(pieces, i);
      RemoteRead(memory, list[i], buffer, at);
      at := at + list[i].length;
      i := i + 1;
    }
    assert pieces[..i] == pieces;
  }

  /** perform_pull: the message lands in the buffer the connection reads from. */
  method PerformPull(r: Request, memory: seq<Byte>) returns (buffer: array<Byte>)
    requires WellFormed(r, memory)
    ensures fresh(buffer) && buffer[..] == Assembled(r, memory)
  {
    hide Concat;
    buffer := new Byte[r.length];
    forall i | 0 <= i < r.piggybackLength {
      buffer[i] := r.raw[HeaderSize(r.iovcnt) + i];
    }
    assert buffer[..r.piggybackLength] == r.raw[HeaderSize(r.iovcnt)..HeaderSize(r.iovcnt) + r.piggybackLength];
    PullPieces(memory, r.readList, buffer, r.piggybackLength);
    assert buffer[..r.length] == buffer[..];
  }
}
