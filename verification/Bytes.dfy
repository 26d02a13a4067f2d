/** Bytes, 32-bit words in either byte order, and vectors of buffers. */
module Bytes {

  type Byte = b: int | 0 <= b < 0x100

  datatype Order = LittleEndian | BigEndian {
    function Other(): Order {
      if LittleEndian? then BigEndian else LittleEndian
    }
  }

  datatype Option<+T> = None | Some(value: T)

  const TWO_31: int := 0x8000_0000
  const TWO_32: int := 0x1_0000_0000
  const TWO_63: int := 0x8000_0000_0000_0000
  const TWO_64: int := 0x1_0000_0000_0000_0000

  /** The value of an N-bit two's complement register holding `v`, for N = 32. */
  function Signed32(v: int): int {
    var u := v % 0x1_0000_0000;
    if u < 0x8000_0000 then u else u - 0x1_0000_0000
  }

  function Signed64(v: int): int {
    var u := v % 0x1_0000_0000_0000_0000;
    if u < 0x8000_0000_0000_0000 then u else u - 0x1_0000_0000_0000_0000
  }

  /** The four bytes a C `int` store leaves in memory; wider values lose their high bits. */
  function StoreWord(order: Order, v: int): (b: seq<Byte>)
    ensures |b| == 4
  {
    var v1 := v / 0x100;
    var v2 := v1 / 0x100;
    var v3 := v2 / 0x100;
    if order.LittleEndian?
    then [v % 0x100, v1 % 0x100, v2 % 0x100, v3 % 0x100]
    else [v3 % 0x100, v2 % 0x100, v1 % 0x100, v % 0x100]
  }

  function Word(b0: int, b1: int, b2: int, b3: int): int {
    b0 + 0x100 * b1 + 0x1_0000 * b2 + 0x100_0000 * b3
  }

  function LoadUnsigned(order: Order, b: seq<Byte>): (v: int)
    requires |b| == 4
    ensures 0 <= v < 0x1_0000_0000
  {
    if order.LittleEndian? then Word(b[0], b[1], b[2], b[3]) else Word(b[3], b[2], b[1], b[0])
  }

  function LoadSigned(order: Order, b: seq<Byte>): int
    requires |b| == 4
  {
    Signed32(LoadUnsigned(order, b))
  }

  lemma LoadStore(order: Order, v: int)
    ensures LoadUnsigned(order, StoreWord(order, v)) == v % 0x1_0000_0000
    ensures LoadSigned(order, StoreWord(order, v)) == Signed32(v)
  {
    var v1 := v / 0x100;
    var v2 := v1 / 0x100;
    var v3 := v2 / 0x100;
    var u := LoadUnsigned(order, StoreWord(order, v));
    assert v == u + 0x1_0000_0000 * (v3 / 0x100);
  }

  /** Concatenation of the buffers of a vector. */
  function Concat<T>(vecs: seq<seq<T>>): seq<T> {
    if vecs == [] then [] else vecs[0] + Concat(vecs[1..])
  }

  lemma EmptyConcat<T>()
    ensures Concat<T>([]) == []
  {
  }

  lemma ConcatCons<T>(v: seq<T>, vecs: seq<seq<T>>)
    ensures Concat([v] + vecs) == v + Concat(vecs)
  {
    assert ([v] + vecs)[1..] == vecs;
  }

  lemma {:induction false} ConcatAppend<T>(a: seq<seq<T>>, b: seq<seq<T>>)
    ensures Concat(a + b) == Concat(a) + Concat(b)
  {
    if a == [] {
      assert a + b == b;
    } else {
      assert (a + b)[0] == a[0] && (a + b)[1..] == a[1..] + b;
      ConcatAppend(a[1..], b);
    }
  }

  lemma ConcatSnoc<T>(vecs: seq<seq<T>>, i: nat)
    requires i < |vecs|
    ensures Concat(vecs[..i + 1]) == Concat(vecs[..i]) + vecs[i]
  {
    assert vecs[..i + 1] == vecs[..i] + [vecs[i]];
    ConcatAppend(vecs[..i], [vecs[i]]);
    assert Concat([vecs[i]]) == vecs[i] + Concat<T>([]) == vecs[i];
  }

  /** The sum of a run of bytes, before it is cut down to the checksum's eight bits. */
  function SumBytes(s: seq<Byte>): nat {
    if s == [] then 0 else SumBytes(s[..|s| - 1]) + s[|s| - 1]
  }

  lemma {:induction false} SumBytesAppend(a: seq<Byte>, b: seq<Byte>)
    ensures SumBytes(a + b) == SumBytes(a) + SumBytes(b)
    decreases |b|
  {
    if b == [] {
      assert a + b == a;
    } else {
      assert (a + b)[..|a + b| - 1] == a + b[..|b| - 1];
      SumBytesAppend(a, b[..|b| - 1]);
    }
  }
}
