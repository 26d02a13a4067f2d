/** Null-terminated vectors of buffers, as CM hands them about. */
module Vectors {
  import opened Bytes

  /** One entry of a vector: the bytes from iov_base on, or the NULL base that ends the vector. */
  datatype Iov = Iov(data: seq<Byte>) | Null

  /** The bytes of a vector up to its end. */
  function Gather(vec: seq<Iov>): seq<Byte> {
    if vec == [] || vec[0].Null? then [] else vec[0].data + Gather(vec[1..])
  }

  predicate NoNull(vec: seq<Iov>) {
    forall i :: 0 <= i < |vec| ==> vec[i].Iov?
  }

  lemma GatherCons(data: seq<Byte>, vec: seq<Iov>)
    ensures Gather([Iov(data)] + vec) == data + Gather(vec)
  {
    assert ([Iov(data)] + vec)[1..] == vec;
  }

  lemma {:induction false} GatherSplit(vec: seq<Iov>, i: nat)
    requires i <= |vec| && NoNull(vec[..i])
    ensures Gather(vec) == Gather(vec[..i]) + Gather(vec[i..])
  {
    if i == 0 {
      assert vec[..0] == [] && vec[0..] == vec;
    } else {
      assert vec[..i][0].Iov? && vec[..i][0] == vec[0];
      var front := vec[1..][..i - 1];
      forall k | 0 <= k < |front| ensures front[k].Iov? {
        assert front[k] == vec[..i][k + 1];
      }
      GatherSplit(vec[1..], i - 1);
      assert vec[..i][1..] == vec[1..][..i - 1] && vec[1..][i - 1..] == vec[i..];
    }
  }

  lemma GatherOne(vec: seq<Iov>, i: nat)
    requires i < |vec| && NoNull(vec[..i + 1])
    ensures Gather(vec[..i + 1]) == Gather(vec[..i]) + vec[i].data
    ensures Gather(vec[i..]) == vec[i].data + Gather(vec[i + 1..])
  {
    assert vec[..i + 1][i] == vec[i];
    assert vec[..i + 1][..i] == vec[..i] && vec[..i + 1][i..] == [vec[i]];
    forall k | 0 <= k < i ensures vec[..i][k].Iov? {
      assert vec[..i][k] == vec[..i + 1][k];
    }
    GatherSplit(vec[..i + 1], i);
    assert Gather([vec[i]]) == vec[i].data + Gather([]);
    assert vec[i..][1..] == vec[i + 1..];
  }
}
