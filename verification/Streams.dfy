/** Streams of CM messages: what CMact_on_data asks for and delivers on the frames that writers produce. */
module Streams {
  import opened Bytes
  import opened Frames
  import opened Framing

  /** The framing of a host: CMact_on_data's answers as a function. */
  function NeedOf(host: Order): Need {
    b => BytesNeeded(host, b)
  }

  function DeliverAll(host: Order, frames: seq<seq<Byte>>): (ds: seq<Delivery>)
    ensures |ds| == |frames|
    ensures forall i :: 0 <= i < |frames| ==> ds[i] == Deliver(host, frames[i])
  {
    seq(|frames|, i requires 0 <= i < |frames| => Deliver(host, frames[i]))
  }

  lemma DeliverOneMore(host: Order, frames: seq<seq<Byte>>, f: seq<Byte>)
    ensures DeliverAll(host, frames + [f]) == DeliverAll(host, frames) + [Deliver(host, f)]
  {
  }

  lemma SettledAtAnnouncedSize(host: Order, s: seq<Byte>)
    requires |s| >= 4 && |s| >= HeaderLength(KindOf(host, s))
    ensures var n := AnnouncedSize(host, s);
      HeaderLength(KindOf(host, s)) <= n <= |s| ==> BytesNeeded(host, s[..n]) == 0
  {
    hide KindOf, ParseHeader;
    var n := AnnouncedSize(host, s);
    if HeaderLength(KindOf(host, s)) <= n <= |s| {
      PrefixKind(host, s, n);
    }
  }

  /** A frame ends where its tag and header say; foreign messages end with their tag. */
  function FirstFrame(host: Order, s: seq<Byte>): Scanned {
    if |s| < 4 then Waiting(4)
    else
      var h := HeaderLength(KindOf(host, s));
      if KindOf(host, s).ForeignFrame? then Complete(4)
      else if |s| < h then Waiting(h)
      else
        var n := AnnouncedSize(host, s);
        if n <= h then Complete(h) else if |s| < n then Waiting(n) else Complete(n)
  }

  lemma ScanIsFirstFrame(host: Order, s: seq<Byte>)
    ensures Scan(NeedOf(host), s, 4) == FirstFrame(host, s)
  {
    hide KindOf, ParseHeader;
    if |s| >= 4 {
      PrefixKind(host, s, 4);
      var h := HeaderLength(KindOf(host, s));
      if !KindOf(host, s).ForeignFrame? && |s| >= h {
        PrefixKind(host, s, h);
        SettledAtAnnouncedSize(host, s);
        hide BytesNeeded;
        var n := AnnouncedSize(host, s);
        if n > h {
          assert Scan(NeedOf(host), s, n) == if |s| < n then Waiting(n) else Complete(n);
          assert Scan(NeedOf(host), s, h) == Scan(NeedOf(host), s, n) by { BytesNeededAtHeader(host, s); }
        } else {
          assert Scan(NeedOf(host), s, h) == Complete(h) by { BytesNeededAtHeader(host, s); }
        }
        assert Scan(NeedOf(host), s, 4) == Scan(NeedOf(host), s, h) by { BytesNeededAtTag(host, s); }
      } else {
        BytesNeededAtTag(host, s);
      }
    }
  }

  lemma BytesNeededAtTag(host: Order, s: seq<Byte>)
    requires |s| >= 4
    ensures BytesNeeded(host, s[..4]) == HeaderLength(KindOf(host, s)) - 4
  {
    hide ParseHeader;
    PrefixKind(host, s, 4);
  }

  lemma BytesNeededAtHeader(host: Order, s: seq<Byte>)
    requires |s| >= 4 && |s| >= HeaderLength(KindOf(host, s)) && !KindOf(host, s).ForeignFrame?
    ensures var h := HeaderLength(KindOf(host, s));
      BytesNeeded(host, s[..h]) == if AnnouncedSize(host, s) > h then AnnouncedSize(host, s) - h else 0
  {
    hide KindOf, ParseHeader;
    PrefixKind(host, s, HeaderLength(KindOf(host, s)));
  }

  /** A frame whose header announces its true size is whole. */
  lemma AnnouncedIsWhole(host: Order, f: seq<Byte>)
    requires |f| >= 4 && !KindOf(host, f).ForeignFrame? && |f| >= HeaderLength(KindOf(host, f))
    requires AnnouncedSize(host, f) == |f|
    ensures Whole(NeedOf(host), f)
  {
    hide Scan, KindOf, AnnouncedSize;
    ScanIsFirstFrame(host, f);
  }

  /** From any prefix of such a frame what is asked for ends at the tag, at the header or at the frame itself. */
  lemma AsksToNextStage(host: Order, f: seq<Byte>, n: nat)
    requires |f| >= 4 && !KindOf(host, f).ForeignFrame? && HeaderLength(KindOf(host, f)) <= |f| == AnnouncedSize(host, f)
    requires n <= |f|
    ensures var h := HeaderLength(KindOf(host, f));
      n + BytesNeeded(host, f[..n]) == if n < 4 then 4 else if n < h then h else |f|
  {
    hide KindOf, ParseHeader;
    if n >= 4 {
      PrefixKind(host, f, n);
    }
  }

  /** How many of a frame's three reads lie behind a full point. */
  function StageOf(host: Order, partial: seq<Byte>, want: nat): (n: nat)
    ensures n <= 2
  {
    if want == 4 then 0
    else if |partial| >= 4 && want == HeaderLength(KindOf(host, partial)) then 1
    else 2
  }

  lemma WaitingForTag(host: Order)
    ensures Scan(NeedOf(host), [], 4) == Waiting(4) && StageOf(host, [], 4) == 0
  {
  }

  /** Each answer of CMact_on_data that asks for more moves the frame on by one stage, of at most three. */
  lemma StageAdvances(host: Order, s: seq<Byte>, before: seq<Byte>)
    requires before < s && Scan(NeedOf(host), before, 4) == Waiting(|s|)
    requires BytesNeeded(host, s) > 0
    ensures StageOf(host, s, |s| + BytesNeeded(host, s)) == StageOf(host, before, |s|) + 1 <= 2
  {
    hide Scan, KindOf, ParseHeader;
    ScanIsFirstFrame(host, before);
    if |before| >= 4 {
      PrefixKind(host, s, |before|);
      assert s[..|before|] == before;
    }
  }

  predicate AllFit(sender: Order, host: Order, ms: seq<Message>) {
    forall m <- ms :: Representable(m) && CanCarry(sender, host, m)
  }

  function EncodeAll(sender: Order, ms: seq<Message>): (fs: seq<seq<Byte>>)
    ensures |fs| == |ms|
    ensures forall i :: 0 <= i < |ms| ==> fs[i] == Encode(sender, ms[i])
  {
    seq(|ms|, i requires 0 <= i < |ms| => Encode(sender, ms[i]))
  }

  function ExpectedAll(ms: seq<Message>): (ds: seq<Delivery>)
    ensures |ds| == |ms|
    ensures forall i :: 0 <= i < |ms| ==> ds[i] == Expected(ms[i])
  {
    seq(|ms|, i requires 0 <= i < |ms| => Expected(ms[i]))
  }

  lemma EncodedIsWhole(sender: Order, host: Order, m: Message)
    requires Representable(m) && CanCarry(sender, host, m)
    ensures Whole(NeedOf(host), Encode(sender, m))
  {
    hide *;
    AnnouncedSizeExact(sender, host, m);
    AnnouncedIsWhole(host, Encode(sender, m));
  }

  lemma EncodedAreWhole(sender: Order, host: Order, ms: seq<Message>)
    requires AllFit(sender, host, ms)
    ensures forall f <- EncodeAll(sender, ms) :: Whole(NeedOf(host), f)
  {
    hide Encode, Representable, CanCarry, Whole;
    var fs := EncodeAll(sender, ms);
    forall f | f in fs ensures Whole(NeedOf(host), f) {
      var i :| 0 <= i < |fs| && fs[i] == f;
      assert ms[i] in ms;
      EncodedIsWhole(sender, host, ms[i]);
    }
  }

  /** A stream of written messages is cut into those messages, and each is delivered as it was sent. */
  lemma StreamOfMessages(sender: Order, host: Order, ms: seq<Message>)
    requires AllFit(sender, host, ms)
    ensures Split(NeedOf(host), Concat(EncodeAll(sender, ms))) == SplitStream(EncodeAll(sender, ms), [])
    ensures DeliverAll(host, EncodeAll(sender, ms)) == ExpectedAll(ms)
  {
    hide Encode, Deliver, Expected, Representable, CanCarry, Scan, Split, Whole;
    EncodedAreWhole(sender, host, ms);
    SplitWhole(NeedOf(host), EncodeAll(sender, ms));
    forall i | 0 <= i < |ms| ensures Deliver(host, EncodeAll(sender, ms)[i]) == Expected(ms[i]) {
      assert ms[i] in ms;
      RoundTrip(sender, host, ms[i]);
    }
  }

  /** Whatever part of that stream has arrived, what has been delivered is a prefix of what was sent. */
  lemma PrefixOfMessages(sender: Order, host: Order, ms: seq<Message>, s: seq<Byte>)
    requires AllFit(sender, host, ms)
    requires s <= Concat(EncodeAll(sender, ms))
    ensures DeliverAll(host, Split(NeedOf(host), s).frames) <= ExpectedAll(ms)
  {
    hide Encode, Deliver, Expected, Representable, CanCarry, Scan, Split, Whole, AllFit;
    EncodedAreWhole(sender, host, ms);
    SplitPrefix(NeedOf(host), EncodeAll(sender, ms), s);
    StreamOfMessages(sender, host, ms);
    var got := DeliverAll(host, Split(NeedOf(host), s).frames);
    assert forall i :: 0 <= i < |got| ==> got[i] == DeliverAll(host, EncodeAll(sender, ms))[i];
  }
}
