/**
  Cutting a byte stream into frames: the specification the fragmented reader refines.
  `need` is the answer of CMact_on_data to the bytes collected so far: how many more it wants.
 */
module Framing {
  import opened Bytes

  type Need = seq<Byte> -> nat

  /** The first frame of a stream: complete at `size` bytes, or not yet and waiting for `want`. */
  datatype Scanned = Complete(size: nat) | Waiting(want: nat)

  /** The dialogue of reader and CMact_on_data over a stream whose first `want` bytes are asked for. */
  function Scan(need: Need, s: seq<Byte>, want: nat): (r: Scanned)
    ensures r.Complete? ==> want <= r.size <= |s|
    ensures r.Waiting? ==> want <= r.want && |s| < r.want
    decreases |s| - want
  {
    if |s| < want then Waiting(want)
    else if need(s[..want]) == 0 then Complete(want)
    else Scan(need, s, want + need(s[..want]))
  }

  datatype SplitStream = SplitStream(frames: seq<seq<Byte>>, rest: seq<Byte>)

  /** The complete frames at the head of a stream, and the bytes of the frame still to come. */
  function Split(need: Need, s: seq<Byte>): SplitStream
    decreases |s|
  {
    match Scan(need, s, 4)
    case Waiting(_) => SplitStream([], s)
    case Complete(n) =>
      var tail := Split(need, s[n..]);
      SplitStream([s[..n]] + tail.frames, tail.rest)
  }

  lemma SplitComplete(need: Need, s: seq<Byte>, n: nat)
    requires Scan(need, s, 4) == Complete(n)
    ensures n <= |s|
    ensures Split(need, s) == SplitStream([s[..n]] + Split(need, s[n..]).frames, Split(need, s[n..]).rest)
  {
  }

  lemma SplitWaiting(need: Need, s: seq<Byte>)
    requires Scan(need, s, 4).Waiting?
    ensures Split(need, s) == SplitStream([], s)
  {
  }

  lemma PutBack(s: seq<Byte>, n: nat, frames: seq<seq<Byte>>, rest: seq<Byte>)
    requires n <= |s| && s[n..] == Concat(frames) + rest
    ensures s == Concat([s[..n]] + frames) + rest
  {
    ConcatCons(s[..n], frames);
    assert s == s[..n] + s[n..];
  }

  lemma {:induction false} SplitLosesNothing(need: Need, s: seq<Byte>)
    ensures s == Concat(Split(need, s).frames) + Split(need, s).rest
    decreases |s|
  {
    hide Scan, Concat;
    if Scan(need, s, 4).Complete? {
      var n := Scan(need, s, 4).size;
      SplitLosesNothing(need, s[n..]);
      PutBack(s, n, Split(need, s[n..]).frames, Split(need, s[n..]).rest);
    } else {
      EmptyConcat<Byte>();
      assert [] + s == s;
    }
  }

  // ---------- More bytes only extend the answer ----------

  lemma {:induction false} ScanExtends(need: Need, s: seq<Byte>, x: seq<Byte>, want: nat)
    ensures match Scan(need, s, want)
      case Complete(n) => Scan(need, s + x, want) == Complete(n)
      case Waiting(w) => Scan(need, s + x, want) == Scan(need, s + x, w)
    decreases |s| - want
  {
    if |s| >= want {
      assert (s + x)[..want] == s[..want];
      if need(s[..want]) != 0 {
        ScanExtends(need, s, x, want + need(s[..want]));
      }
    }
  }

  /** Reading a stream in two pieces cuts it like reading it whole. */
  lemma {:induction false} SplitExtends(need: Need, s: seq<Byte>, x: seq<Byte>)
    ensures var a := Split(need, s);
      var b := Split(need, a.rest + x);
      Split(need, s + x) == SplitStream(a.frames + b.frames, b.rest)
    decreases |s|
  {
    hide Scan, Split;
    ScanExtends(need, s, x, 4);
    var a := Split(need, s);
    if Scan(need, s, 4).Complete? {
      var n := Scan(need, s, 4).size;
      SplitComplete(need, s, n);
      SplitComplete(need, s + x, n);
      SplitExtends(need, s[n..], x);
      assert (s + x)[n..] == s[n..] + x && (s + x)[..n] == s[..n];
      var t, b := Split(need, s[n..]), Split(need, a.rest + x);
      assert [s[..n]] + (t.frames + b.frames) == a.frames + b.frames;
    } else {
      SplitWaiting(need, s);
      assert [] + Split(need, s + x).frames == Split(need, s + x).frames;
    }
  }

  /** The bytes asked for never reach past the frame they belong to, whatever follows on the stream. */
  lemma WantStaysInFrame(need: Need, s: seq<Byte>, x: seq<Byte>)
    requires Scan(need, s, 4).Waiting? && Scan(need, s + x, 4).Complete?
    ensures |s| < Scan(need, s, 4).want <= Scan(need, s + x, 4).size
  {
    ScanExtends(need, s, x, 4);
  }

  /** One read, of at most what the current frame waits for, and CMact_on_data's verdict on it. */
  lemma ReadStep(need: Need, s: seq<Byte>, got: seq<Byte>, want: nat)
    requires Scan(need, Split(need, s).rest, 4) == Waiting(want)
    requires |Split(need, s).rest| + |got| <= want
    ensures var a := Split(need, s);
      var partial := a.rest + got;
      if |partial| < want then
        Split(need, s + got) == SplitStream(a.frames, partial) && Scan(need, partial, 4) == Waiting(want)
      else if need(partial) > 0 then
        Split(need, s + got) == SplitStream(a.frames, partial) && Scan(need, partial, 4) == Waiting(want + need(partial))
      else
        Split(need, s + got) == SplitStream(a.frames + [partial], [])
  {
    var a := Split(need, s);
    var partial := a.rest + got;
    ScanExtends(need, a.rest, got, 4);
    assert |partial| == want ==> partial[..want] == partial;
    assert Scan(need, partial, 4) == Scan(need, partial, want);
    SplitExtends(need, s, got);
    if Scan(need, partial, 4).Complete? {
      assert partial[..want] == partial && partial[want..] == [];
      assert Split(need, partial).frames == [partial] + [] == [partial];
    } else {
      assert a.frames + [] == a.frames;
    }
  }

  // ---------- Streams of whole frames ----------

  /** A frame the reader takes as exactly one message. */
  predicate Whole(need: Need, f: seq<Byte>) {
    Scan(need, f, 4) == Complete(|f|)
  }

  lemma {:induction false} SplitWhole(need: Need, fs: seq<seq<Byte>>)
    requires forall f <- fs :: Whole(need, f)
    ensures Split(need, Concat(fs)) == SplitStream(fs, [])
    decreases |fs|
  {
    hide Scan;
    if fs != [] {
      var f, tail := fs[0], Concat(fs[1..]);
      assert f in fs;
      ScanExtends(need, f, tail, 4);
      assert (f + tail)[..|f|] == f && (f + tail)[|f|..] == tail;
      SplitWhole(need, fs[1..]);
      assert [f] + fs[1..] == fs;
    } else {
      assert Concat(fs) == [];
    }
  }

  /** Every prefix of a stream of whole frames yields a prefix of those frames. */
  lemma SplitPrefix(need: Need, fs: seq<seq<Byte>>, s: seq<Byte>)
    requires forall f <- fs :: Whole(need, f)
    requires s <= Concat(fs)
    ensures Split(need, s).frames <= fs
    ensures Split(need, s).rest <= Concat(fs[|Split(need, s).frames|..])
  {
    hide Scan, Split;
    var x := Concat(fs)[|s|..];
    assert s + x == Concat(fs);
    SplitWhole(need, fs);
    SplitExtends(need, s, x);
    var a := Split(need, s);
    var b := Split(need, a.rest + x);
    assert fs == a.frames + b.frames && b.rest == [];
    assert fs[|a.frames|..] == b.frames;
    SplitLosesNothing(need, a.rest + x);
    assert a.rest + x == Concat(b.frames) + [] == Concat(b.frames);
  }
}
