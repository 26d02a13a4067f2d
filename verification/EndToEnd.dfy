/**
  From writer to reader: messages written on a non-blocking connection whose transport takes what it likes,
  read on a connection whose transport brings what it likes.
 */
module EndToEnd {
  import opened Bytes
  import opened Frames
  import opened Streams
  import opened WriteQueue
  import Reader

  /** A frame as the vectors it is written from: header, attribute block, data. */
  datatype Parts = Parts(header: seq<Byte>, attr: seq<Byte>, data: seq<Byte>) {
    function Frame(): seq<Byte> {
      header + attr + data
    }
  }

  /** What the transport does with one frame: the bytes it takes at once, and those at each call for the queued rest. */
  datatype Turn = Turn(accepted: nat, drains: seq<nat>)

  function SendOne(p: Parts, t: Turn, clearing: bool): Progress {
    if t.accepted >= |p.Frame()| then Progress(p.Frame(), None)
    else
      var rest := DrainAll(SplitMessage(p.header, p.attr, p.data, t.accepted), clearing, t.drains);
      Progress(p.Frame()[..t.accepted] + rest.sent, rest.queue)
  }

  /** Frame after frame; a frame is not begun before the queue of the one before it is empty. */
  function SendAll(ps: seq<Parts>, ts: seq<Turn>, clearing: bool): Progress
    requires |ps| == |ts|
    decreases |ps|
  {
    if ps == [] then Progress([], None)
    else
      var first := SendOne(ps[0], ts[0], clearing);
      if first.queue.Some? then first
      else
        var others := SendAll(ps[1..], ts[1..], clearing);
        Progress(first.sent + others.sent, others.queue)
  }

  function FramesOf(ps: seq<Parts>): (fs: seq<seq<Byte>>)
    ensures |fs| == |ps| && forall i :: 0 <= i < |ps| ==> fs[i] == ps[i].Frame()
  {
    seq(|ps|, i requires 0 <= i < |ps| => ps[i].Frame())
  }

  /** A short write that left nothing of header and attribute block to be queued. */
  predicate PastAttributes(p: Parts, t: Turn) {
    t.accepted >= |p.header| + |p.attr|
  }

  lemma SendOneConserves(p: Parts, t: Turn, clearing: bool)
    requires clearing || PastAttributes(p, t)
    ensures SendOne(p, t, clearing).sent <= p.Frame()
    ensures SendOne(p, t, clearing).queue.None? ==> SendOne(p, t, clearing).sent == p.Frame()
  {
    if t.accepted < |p.Frame()| {
      hide SplitMessage, DrainAll, PastAttributes;
      var q := SplitMessage(p.header, p.attr, p.data, t.accepted);
      SplitConserves(p.header, p.attr, p.data, t.accepted);
      if clearing {
        ClearingDrainConserves(q, t.drains);
      } else {
        OnlyDataLeft(p, t);
        OneSectionDrainConserves(q, t.drains);
      }
      SentSofar(p.Frame(), t.accepted, DrainAll(q, clearing, t.drains));
    }
  }

  lemma SentSofar(frame: seq<Byte>, accepted: nat, rest: Progress)
    requires accepted <= |frame| && rest.Total() == frame[accepted..]
    ensures frame[..accepted] + rest.sent <= frame
    ensures rest.queue.None? ==> frame[..accepted] + rest.sent == frame
  {
    assert frame == frame[..accepted] + frame[accepted..];
  }

  lemma OnlyDataLeft(p: Parts, t: Turn)
    requires PastAttributes(p, t)
    ensures SplitMessage(p.header, p.attr, p.data, t.accepted).OneSection()
  {
  }

  /**
    Whatever the transport takes when, what reaches the wire is a prefix of the frames, and all of them once
    the queue is empty: with finished sections cleared, or when every short write got past the attributes.
   */
  lemma {:induction false} SendAllConserves(ps: seq<Parts>, ts: seq<Turn>, clearing: bool)
    requires |ps| == |ts|
    requires clearing || forall i :: 0 <= i < |ps| ==> PastAttributes(ps[i], ts[i])
    ensures SendAll(ps, ts, clearing).sent <= Concat(FramesOf(ps))
    ensures SendAll(ps, ts, clearing).queue.None? ==> SendAll(ps, ts, clearing).sent == Concat(FramesOf(ps))
    decreases |ps|
  {
    hide SendOne, PastAttributes;
    if ps != [] {
      SendOneConserves(ps[0], ts[0], clearing);
      SendAllConserves(ps[1..], ts[1..], clearing);
      assert FramesOf(ps) == [ps[0].Frame()] + FramesOf(ps[1..]);
      ConcatCons(ps[0].Frame(), FramesOf(ps[1..]));
      hide Concat;
    }
  }

  /** A connection on the wire has handed up a prefix of the messages, and all of them when all were sent and read. */
  lemma MessagesArrive(c: Reader.Connection, sender: Order, ms: seq<Message>, ps: seq<Parts>, ts: seq<Turn>, clearing: bool)
    requires c.Valid() && AllFit(sender, c.host, ms)
    requires |ps| == |ms| == |ts| && forall i :: 0 <= i < |ms| ==> ps[i].Frame() == Encode(sender, ms[i])
    requires clearing || forall i :: 0 <= i < |ps| ==> PastAttributes(ps[i], ts[i])
    requires c.socket.Stream() == SendAll(ps, ts, clearing).sent
    ensures c.deliveries <= ExpectedAll(ms)
    ensures SendAll(ps, ts, clearing).queue.None? && c.socket.incoming == [] ==> c.deliveries == ExpectedAll(ms)
  {
    SendAllConserves(ps, ts, clearing);
    assert FramesOf(ps) == EncodeAll(sender, ms);
    hide SendAll, AllFit, Encode, Expected, Concat, PastAttributes;
    Reader.DeliversWhatCame(c, sender, ms);
    if SendAll(ps, ts, clearing).queue.None? {
      Reader.DeliversWhatWasSent(c, sender, ms);
    }
  }

  /**
    An exchange: the messages are written under one schedule of short writes, and a fresh connection at the other
    end reads in any number of calls, under another of short reads.  What it hands up is a prefix of what was
    written, and all of it once everything has been written and read.
   */
  method Exchange(host: Order, sender: Order, ghost ms: seq<Message>, ps: seq<Parts>, ts: seq<Turn>, clearing: bool,
                  patience: nat, useReadThread: bool, calls: seq<Reader.Call>) returns (c: Reader.Connection)
    requires AllFit(sender, host, ms)
    requires |ps| == |ms| == |ts| && forall i :: 0 <= i < |ms| ==> ps[i].Frame() == Encode(sender, ms[i])
    requires clearing || forall i :: 0 <= i < |ps| ==> PastAttributes(ps[i], ts[i])
    ensures c.socket.Stream() == SendAll(ps, ts, clearing).sent
    ensures c.deliveries <= ExpectedAll(ms)
    ensures SendAll(ps, ts, clearing).queue.None? && c.socket.incoming == [] ==> c.deliveries == ExpectedAll(ms)
  {
    hide AllFit, Encode, Expected, PastAttributes, SendAll;
    c := Reader.Connect(host, SendAll(ps, ts, clearing).sent, patience, useReadThread, calls);
    MessagesArrive(c, sender, ms, ps, ts, clearing);
  }
}
