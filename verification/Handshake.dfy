/** The CM handshake: two ends of a connection learn each other's IDs with a bounded number of frames. */
module Handshake {
  import opened Bytes
  import opened Frames

  /** msg[2] and msg[3] of a CMH frame; the high bit of the second word says "I already have your ID". */
  datatype Hi = Hi(serverId: int, word: int) {
    predicate Flagged() {
      word < 0
    }

    function ManagerId(): int {
      if word < 0 then word + 0x8000_0000 else word
    }
  }

  /** `id | 0x80000000` as a C int. */
  function FlaggedWord(id: int, flagged: bool): int {
    if flagged then id - 0x8000_0000 else id
  }

  /** A connection at one end, with the parts of its manager that the handshake uses. */
  datatype End = End(
    serverId: int,          // FFSserver_identifier
    managerId: int,         // CManager_ID
    reliable: bool,
    remoteServerId: int,    // 0 until a handshake has arrived
    remoteManagerId: int,
    waiting: bool)          // blocked on handshake_condition
  {
    predicate Valid() {
      0 < managerId < 0x8000_0000 && -0x8000_0000 <= serverId < 0x8000_0000
    }
  }

  /** send_and_maybe_wait_for_handshake: the frame that goes out and what the sender is afterwards. */
  function Send(e: End): (End, Hi) {
    var serverId := if e.serverId == 0 then -1 else e.serverId;
    (e.(serverId := serverId, waiting := e.waiting || (e.remoteServerId == 0 && e.reliable)),
     Hi(serverId, FlaggedWord(e.managerId, e.remoteServerId != 0)))
  }

  /** CMdo_handshake: the state change and the reply, if one is owed. */
  function Receive(e: End, f: Hi): (End, Option<Hi>) {
    var known := if e.remoteServerId != 0 then e
                 else e.(remoteServerId := f.serverId, remoteManagerId := f.ManagerId(), waiting := false);
    if f.Flagged() then (known, None)
    else
      var (after, reply) := Send(known);
      (after, Some(reply))
  }

  /** The connection record that the two C functions update in place. */
  class Connection {
    var serverId: int
    var managerId: int
    var reliable: bool
    var remoteServerId: int
    var remoteManagerId: int
    var handshakeCondition: int     // -1 while nobody waits

    ghost function State(): End
      reads this
    {
      End(serverId, managerId, reliable, remoteServerId, remoteManagerId, handshakeCondition != -1)
    }

    constructor (serverId: int, managerId: int, reliable: bool)
      ensures State() == End(serverId, managerId, reliable, 0, 0, false)
    {
      this.serverId, this.managerId, this.reliable := serverId, managerId, reliable;
      remoteServerId, remoteManagerId, handshakeCondition := 0, 0, -1;
    }

    /** The sending half; a condition number is never negative. */
    method SendAndMaybeWait(freshCondition: nat) returns (frame: Hi)
      modifies this
      ensures (State(), frame) == Send(old(State()))
    {
      if serverId == 0 {
        serverId := -1;
      }
      var word := managerId;
      if remoteServerId != 0 {
        word := FlaggedWord(managerId, true);
      }
      if remoteServerId == 0 && reliable {
        handshakeCondition := freshCondition;
      }
      frame := Hi(serverId, word);
    }

    method DoHandshake(frame: Hi, freshCondition: nat) returns (reply: Option<Hi>)
      modifies this
      ensures (State(), reply) == Receive(old(State()), frame)
    {
      var doSend, id := true, frame.word;
      if frame.word < 0 {
        doSend, id := false, frame.word + 0x8000_0000;
      }
      if remoteServerId == 0 {
        remoteServerId, remoteManagerId := frame.serverId, id;
        if handshakeCondition != -1 {
          handshakeCondition := -1;
        }
      }
      reply := None;
      if doSend {
        var f := SendAndMaybeWait(freshCondition);
        reply := Some(f);
      }
    }
  }

  /** A handshake frame survives the wire between hosts of any byte order. */
  lemma HiTravels(sender: Order, host: Order, f: Hi)
    requires -0x8000_0000 <= f.serverId < 0x8000_0000 && -0x8000_0000 <= f.word < 0x8000_0000
    ensures Deliver(host, Encode(sender, HelloMessage(f.serverId, f.word))) == Hello(1, f.serverId, f.word)
  {
    hide Deliver, Encode;
    RoundTrip(sender, host, HelloMessage(f.serverId, f.word));
  }

  // ---------- Two ends and two FIFO channels ----------

  /**
    An end and the frames on their way to it.  It has opened the handshake `initiated` times, `asked` of them
    without the flag, has answered `answered` frames and sent `sent` in all.
   */
  datatype Side = Side(end: End, inbox: seq<Hi>, initiated: nat, asked: nat, answered: nat, sent: nat)

  datatype System = System(a: Side, b: Side)

  /** An end opens the connection, or takes the next frame from its channel. */
  datatype Action = InitiateA | InitiateB | ReceiveA | ReceiveB

  predicate Enabled(s: System, act: Action) {
    match act
    case InitiateA => !s.a.end.waiting
    case InitiateB => !s.b.end.waiting
    case ReceiveA => s.a.inbox != []
    case ReceiveB => s.b.inbox != []
  }

  function Mirror(s: System): System {
    System(s.b, s.a)
  }

  function Initiate(s: System): System {
    var (end, f) := Send(s.a.end);
    System(s.a.(end := end, initiated := s.a.initiated + 1, sent := s.a.sent + 1,
                asked := s.a.asked + if f.Flagged() then 0 else 1),
           s.b.(inbox := s.b.inbox + [f]))
  }

  function Take(s: System): System
    requires s.a.inbox != []
  {
    var (end, reply) := Receive(s.a.end, s.a.inbox[0]);
    var a := s.a.(end := end, inbox := s.a.inbox[1..]);
    if reply.Some? then System(a.(sent := a.sent + 1, answered := a.answered + 1), s.b.(inbox := s.b.inbox + [reply.value]))
    else System(a, s.b)
  }

  function Next(s: System, act: Action): System
    requires Enabled(s, act)
  {
    match act
    case InitiateA => Initiate(s)
    case InitiateB => Mirror(Initiate(Mirror(s)))
    case ReceiveA => Take(s)
    case ReceiveB => Mirror(Take(Mirror(s)))
  }

  /** A run; actions that are not enabled are skipped. */
  function Run(s: System, acts: seq<Action>): System
    decreases |acts|
  {
    if acts == [] then s
    else Run(if Enabled(s, acts[0]) then Next(s, acts[0]) else s, acts[1..])
  }

  function Fresh(e: End): Side {
    Side(e.(remoteServerId := 0, remoteManagerId := 0, waiting := false), [], 0, 0, 0, 0)
  }

  /** The server ID an end puts into its frames. */
  function SentServerId(e: End): int {
    if e.serverId == 0 then -1 else e.serverId
  }

  function Unflagged(inbox: seq<Hi>): nat {
    if inbox == [] then 0 else (if inbox[0].Flagged() then 0 else 1) + Unflagged(inbox[1..])
  }

  /** What holds of one side, as its peer sees it, in every reachable state. */
  predicate SideOk(me: Side, peer: Side) {
    && me.end.Valid()
    // what is recorded of the peer is nothing or the truth
    && me.end.remoteServerId in {0, SentServerId(peer.end)}
    && me.end.remoteManagerId == (if me.end.remoteServerId == 0 then 0 else peer.end.managerId)
    // every frame under way to me tells the truth about the peer, which flags it only once it knows me
    && (forall f <- me.inbox ::
          && f.serverId == SentServerId(peer.end) && f.ManagerId() == peer.end.managerId
          && (f.Flagged() ==> peer.end.remoteServerId != 0))
    // as long as I know nothing, all the peer ever sent is still under way
    && (me.end.remoteServerId == 0 ==> |me.inbox| == peer.sent)
    && (me.end.remoteServerId != 0 ==> peer.sent > 0)
    // one frame sent for each initiation and one for each unflagged frame taken
    && me.sent == me.initiated + me.answered
    && me.answered + Unflagged(me.inbox) == peer.asked <= peer.initiated
    && (me.initiated > 0 ==> me.asked > 0 || peer.initiated > 0)
    // a wait is for something: an answer on its way, or a question the peer has not taken yet
    && (me.end.waiting <==> me.end.reliable && me.end.remoteServerId == 0 && me.sent > 0)
    && (me.end.remoteServerId == 0 && me.sent > 0 ==> me.inbox != [] || Unflagged(peer.inbox) > 0)
  }

  predicate Inv(s: System) {
    SideOk(s.a, s.b) && SideOk(s.b, s.a)
  }

  function Start(a: End, b: End): System {
    System(Fresh(a), Fresh(b))
  }

  lemma {:induction false} UnflaggedSnoc(inbox: seq<Hi>, f: Hi)
    ensures Unflagged(inbox + [f]) == Unflagged(inbox) + if f.Flagged() then 0 else 1
  {
    if inbox == [] {
      assert inbox + [f] == [f] && [f][1..] == [];
    } else {
      assert (inbox + [f])[1..] == inbox[1..] + [f];
      UnflaggedSnoc(inbox[1..], f);
    }
  }

  lemma InitiateKeepsInv(s: System)
    requires Inv(s)
    ensures Inv(Initiate(s))
  {
    var (end, f) := Send(s.a.end);
    UnflaggedSnoc(s.b.inbox, f);
  }

  lemma TakeKeepsInv(s: System)
    requires Inv(s) && s.a.inbox != []
    ensures Inv(Take(s))
  {
    var f := s.a.inbox[0];
    assert f in s.a.inbox;
    var (end, reply) := Receive(s.a.end, f);
    if reply.Some? {
      UnflaggedSnoc(s.b.inbox, reply.value);
    }
  }

  lemma {:induction false} RunKeepsInv(s: System, acts: seq<Action>)
    requires Inv(s)
    ensures Inv(Run(s, acts))
    decreases |acts|
  {
    if acts != [] {
      if Enabled(s, acts[0]) {
        match acts[0] {
          case InitiateA => InitiateKeepsInv(s);
          case InitiateB => InitiateKeepsInv(Mirror(s));
          case ReceiveA => TakeKeepsInv(s);
          case ReceiveB => TakeKeepsInv(Mirror(s));
        }
        RunKeepsInv(Next(s, acts[0]), acts[1..]);
      } else {
        RunKeepsInv(s, acts[1..]);
      }
    }
  }

  /** In every reachable state what is recorded of the peer is nothing or the peer's own, at both ends. */
  lemma RecordedIdsAreTrue(a: End, b: End, acts: seq<Action>)
    requires a.Valid() && b.Valid()
    ensures var s := Run(Start(a, b), acts);
      && Inv(s)
      && s.a.end.managerId == a.managerId && s.b.end.managerId == b.managerId
      && s.a.end.remoteManagerId in {0, b.managerId} && s.b.end.remoteManagerId in {0, a.managerId}
      && s.a.end.remoteServerId in {0, SentServerId(b)} && s.b.end.remoteServerId in {0, SentServerId(a)}
  {
    RunKeepsInv(Start(a, b), acts);
    RunKeepsOwnIds(Start(a, b), acts);
  }

  lemma {:induction false} RunKeepsOwnIds(s: System, acts: seq<Action>)
    ensures Run(s, acts).a.end.managerId == s.a.end.managerId && Run(s, acts).a.end.reliable == s.a.end.reliable
    ensures SentServerId(Run(s, acts).a.end) == SentServerId(s.a.end)
    ensures Run(s, acts).b.end.managerId == s.b.end.managerId && Run(s, acts).b.end.reliable == s.b.end.reliable
    ensures SentServerId(Run(s, acts).b.end) == SentServerId(s.b.end)
    decreases |acts|
  {
    if acts != [] {
      RunKeepsOwnIds(if Enabled(s, acts[0]) then Next(s, acts[0]) else s, acts[1..]);
    }
  }

  /**
    In every run an end waits exactly if its transport is reliable and it has opened the handshake without knowing
    its peer; so one on an unreliable transport never does.
   */
  lemma WaitsIff(a: End, b: End, acts: seq<Action>)
    requires a.Valid() && b.Valid()
    ensures var s := Run(Start(a, b), acts);
      && (s.a.end.waiting <==> a.reliable && s.a.sent > 0 && s.a.end.remoteServerId == 0)
      && (s.b.end.waiting <==> b.reliable && s.b.sent > 0 && s.b.end.remoteServerId == 0)
  {
    RunKeepsInv(Start(a, b), acts);
    RunKeepsOwnIds(Start(a, b), acts);
  }

  /** One opening is enough, from either end: a question, waited on if the transport is reliable, and its answer. */
  lemma OneExchange(a: End, b: End)
    requires a.Valid() && b.Valid()
    ensures var asked := Run(Start(a, b), [InitiateA]); var done := Run(Start(a, b), [InitiateA, ReceiveB, ReceiveA]);
      && asked.a.end.waiting == a.reliable && |asked.b.inbox| == 1
      && done.a.end.remoteManagerId == b.managerId && done.b.end.remoteManagerId == a.managerId
      && done.a.end.remoteServerId == SentServerId(b) && done.b.end.remoteServerId == SentServerId(a)
      && !done.a.end.waiting && !done.b.end.waiting
      && done.a.inbox == done.b.inbox == [] && done.a.sent == done.b.sent == 1
      && Mirror(Run(Start(b, a), [InitiateB, ReceiveA, ReceiveB])) == done
  {
    var first, second, third := Next(Start(a, b), InitiateA), [ReceiveB, ReceiveA], [ReceiveA];
    assert [InitiateA][1..] == [] && [InitiateA, ReceiveB, ReceiveA][1..] == second && second[1..] == third && third[1..] == [];
    assert [InitiateB, ReceiveA, ReceiveB][1..] == [ReceiveA, ReceiveB] && [ReceiveA, ReceiveB][1..] == [ReceiveB] && [ReceiveB][1..] == [];
    assert Run(first, []) == first;
    var last := Next(Next(first, ReceiveB), ReceiveA);
    assert Run(last, []) == last && Run(Next(first, ReceiveB), third) == last && Run(first, second) == last;
    var back := Mirror(Start(b, a));
    assert Run(Mirror(last), []) == Mirror(last) && Run(Mirror(Next(first, ReceiveB)), [ReceiveB]) == Mirror(last);
  }

  /** A flagged frame is never answered; an unflagged one always is, with one frame that is flagged. */
  lemma AnswersAreFlagged(e: End, f: Hi)
    requires e.Valid() && f.serverId != 0
    ensures Receive(e, f).1.Some? <==> !f.Flagged()
    ensures Receive(e, f).1.Some? ==> Receive(e, f).1.value.Flagged()
    ensures !Receive(e, f).0.waiting || e.remoteServerId != 0
  {
  }

  /**
    Side a does not wait in vain: the next frame it takes ends the wait, and if none is under way to it, its
    peer still has a question to take, whose answer will be.
   */
  predicate Served(s: System) {
    s.a.end.waiting ==>
      && (s.a.inbox != [] || Unflagged(s.b.inbox) > 0)
      && (s.a.inbox != [] ==> !Take(s).a.end.waiting)
      && (s.b.inbox != [] && !s.b.inbox[0].Flagged() ==> Mirror(Take(Mirror(s))).a.inbox != [])
  }

  /** In no run does either side wait in vain. */
  lemma WaitersAreServed(a: End, b: End, acts: seq<Action>)
    requires a.Valid() && b.Valid()
    ensures var s := Run(Start(a, b), acts); Served(s) && Served(Mirror(s))
  {
    RunKeepsInv(Start(a, b), acts);
    var s := Run(Start(a, b), acts);
    InvServes(s);
    InvServes(Mirror(s));
  }

  lemma InvServes(s: System)
    requires Inv(s)
    ensures Served(s)
  {
    if s.a.inbox != [] {
      assert s.a.inbox[0] in s.a.inbox;
    }
  }

  /** In every run, once the handshake has been opened and the channels are empty, both ends know each other and nobody waits. */
  lemma AgreementAtRest(a: End, b: End, acts: seq<Action>)
    requires a.Valid() && b.Valid()
    ensures var s := Run(Start(a, b), acts);
      s.a.inbox == [] && s.b.inbox == [] && s.a.initiated + s.b.initiated > 0 ==>
        && s.a.end.remoteManagerId == b.managerId && s.b.end.remoteManagerId == a.managerId
        && !s.a.end.waiting && !s.b.end.waiting
  {
    RunKeepsInv(Start(a, b), acts);
    RunKeepsOwnIds(Start(a, b), acts);
  }

  /** Frames in all: at most two for each opening, and exactly two at rest when only one side opens, once. */
  lemma FramesInAll(a: End, b: End, acts: seq<Action>)
    requires a.Valid() && b.Valid()
    ensures var s := Run(Start(a, b), acts);
      && s.a.sent + s.b.sent <= 2 * (s.a.initiated + s.b.initiated)
      && (s.a.initiated == 1 && s.b.initiated == 0 && s.a.inbox == [] && s.b.inbox == [] ==> s.a.sent + s.b.sent == 2)
  {
    RunKeepsInv(Start(a, b), acts);
  }

  /** What is under way, with unflagged frames counted twice: every delivery uses some of it up. */
  function UnderWay(s: System): nat {
    |s.a.inbox| + |s.b.inbox| + Unflagged(s.a.inbox) + Unflagged(s.b.inbox)
  }

  lemma DeliveriesRunOut(s: System)
    requires Inv(s)
    ensures s.a.inbox != [] ==> UnderWay(Take(s)) < UnderWay(s)
    ensures s.b.inbox != [] ==> UnderWay(Mirror(Take(Mirror(s)))) < UnderWay(s)
  {
    if s.a.inbox != [] {
      TakeUsesUp(s);
    }
    if s.b.inbox != [] {
      TakeUsesUp(Mirror(s));
    }
  }

  lemma TakeUsesUp(s: System)
    requires Inv(s) && s.a.inbox != []
    ensures UnderWay(Take(s)) < UnderWay(s)
  {
    var f := s.a.inbox[0];
    assert f in s.a.inbox;
    var (end, reply) := Receive(s.a.end, f);
    if reply.Some? {
      UnflaggedSnoc(s.b.inbox, reply.value);
    }
  }
}
