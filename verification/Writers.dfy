/** The writers: INT_CMwrite_attr, internal_write_event and the checksum of INT_CMwrite_raw_notify. */
module Writers {
  import opened Bytes
  import opened Frames

  /** Stores one `int` of a header. */
  method PutWord(order: Order, header: array<Byte>, index: nat, v: int)
    requires 4 * index + 4 <= header.Length
    modifies header
    ensures header[..] == old(header[..4 * index]) + StoreWord(order, v) + old(header[4 * index + 4..])
  {
    hide StoreWord;
    var w := StoreWord(order, v);
    forall i | 0 <= i < 4 {
      header[4 * index + i] := w[i];
    }
  }

  /** The number of bytes in a vector, as the callers of FFSencode_vector count it. */
  method CountBytes(vecs: seq<seq<Byte>>) returns (length: nat)
    ensures length == |Concat(vecs)|
  {
    length := 0;
    var i := 0;
    while i < |vecs|
      invariant i <= |vecs| && length == |Concat(vecs[..i])|
    {
      ConcatSnoc(vecs, i);
      length := length + |vecs[i]|;
      i := i + 1;
    }
    assert vecs[..i] == vecs;
  }

  /** Adds the bytes of one vector, from `start` on, to an eight-bit checksum. */
  method AddToChecksum(v: seq<Byte>, start: nat, checksum: Byte) returns (sum: Byte)
    requires start <= |v|
    ensures sum == (checksum + SumBytes(v[start..])) % 0x100
  {
    sum := checksum;
    var j := start;
    while j < |v|
      invariant start <= j <= |v| && sum == (checksum + SumBytes(v[start..j])) % 0x100
    {
      SumOneMore(v, start, j);
      AddModulo(checksum + SumBytes(v[start..j]), v[j]);
      sum := (sum + v[j]) % 0x100;
      j := j + 1;
    }
    assert v[start..j] == v[start..];
  }

  lemma SumOneMore(v: seq<Byte>, start: nat, j: nat)
    requires start <= j < |v|
    ensures SumBytes(v[start..j + 1]) == SumBytes(v[start..j]) + v[j]
  {
    assert v[start..j + 1] == v[start..j] + [v[j]];
    SumBytesAppend(v[start..j], [v[j]]);
    assert SumBytes([v[j]]) == v[j];
  }

  lemma AddModulo(sum: nat, b: nat)
    ensures (sum % 0x100 + b) % 0x100 == (sum + b) % 0x100
  {
  }

  /** The checksum step of INT_CMwrite_raw_notify; `rest` are the vectors behind the header. */
  method StampHeader(order: Order, header: array<Byte>, rest: seq<seq<Byte>>)
    requires header.Length >= 4
    modifies header
    ensures header[..] + Concat(rest) == Stamp(order, old(header[..]) + Concat(rest))
  {
    hide StoreWord, LoadUnsigned, SumBytes;
    var length := CountBytes(rest);
    length := length + header.Length;
    var checksum: Byte := 0;
    ghost var frame := header[..] + Concat(rest);
    if length < 10240 {
      checksum := AddToChecksum(header[..], 4, checksum);
      var i := 0;
      SumBytesAppend(header[4..], []);
      assert header[..][4..] == header[4..] == header[4..] + Concat<Byte>(rest[..0]);
      while i < |rest|
        invariant i <= |rest| && header[..] == old(header[..])
        invariant checksum == SumBytes(header[4..] + Concat(rest[..i])) % 0x100
      {
        ConcatSnoc(rest, i);
        SumBytesAppend(header[4..] + Concat(rest[..i]), rest[i]);
        assert header[4..] + Concat(rest[..i]) + rest[i] == header[4..] + Concat(rest[..i + 1]);
        assert rest[i][0..] == rest[i];
        checksum := AddToChecksum(rest[i], 0, checksum);
        i := i + 1;
      }
      assert rest[..i] == rest;
      assert frame[4..] == header[4..] + Concat(rest);
    }
    assert frame[..4] == header[..4];
    PutWord(order, header, 0, LoadUnsigned(order, header[..4]) / 0x100 * 0x100 + checksum);
    assert frame[4..] == header[4..] + Concat(rest);
  }

  function RoundUp8(n: nat): (m: nat)
    ensures n <= m < n + 8 && m % 8 == 0
  {
    (n + 7) / 8 * 8
  }

  /** Encoded attributes as encode_attr_for_xmit leaves them: a length, and memory that reaches past it. */
  datatype EncodedAttrs = EncodedAttrs(memory: seq<Byte>, length: nat) {
    predicate Valid() {
      RoundUp8(length) <= |memory| && RoundUp8(length) < 0x8000_0000
    }

    function Block(): (b: seq<Byte>)
      requires Valid()
      ensures |b| % 8 == 0 && length <= |b| && b[..length] == memory[..length]
    {
      memory[..RoundUp8(length)]
    }
  }

  /** The attribute block that goes on the wire, if there is one. */
  function Padded(attrs: Option<EncodedAttrs>): Option<seq<Byte>>
    requires attrs.Some? ==> attrs.value.Valid()
  {
    if attrs.Some? then Some(attrs.value.Block()) else None
  }

  /** The header of INT_CMwrite_attr. */
  method PutDataHeader(order: Order, attrs: Option<seq<Byte>>, length: nat) returns (header: array<Byte>)
    ensures fresh(header) && header[..] == DataHeader(order, attrs, length) && header.Length >= 4
  {
    hide StoreWord;
    var attrLength := if attrs.Some? then |attrs.value| else 0;
    if length > 0x7fff_ffff {
      header := new Byte[16];
      PutWord(order, header, 0, 0x434d4200);
      PutWord(order, header, 1, length / 0x1_0000_0000);
      PutWord(order, header, 2, length % 0x1_0000_0000);
      PutWord(order, header, 3, attrLength);
    } else if attrs.Some? {
      header := new Byte[16];
      PutWord(order, header, 0, 0x434d4100);
      PutWord(order, header, 1, 0x434d4100);
      PutWord(order, header, 2, length);
      PutWord(order, header, 3, attrLength);
    } else {
      header := new Byte[8];
      PutWord(order, header, 0, 0x434d4400);
      PutWord(order, header, 1, length);
    }
  }

  /** INT_CMwrite_attr up to its call of writev: the header, and the vectors behind it. */
  method WriteAttr(order: Order, attrs: Option<EncodedAttrs>, vec: seq<seq<Byte>>)
    returns (header: array<Byte>, rest: seq<seq<Byte>>)
    requires attrs.Some? ==> attrs.value.Valid()
    ensures fresh(header)
    ensures rest == (if attrs.Some? then [attrs.value.Block()] else []) + vec
    ensures header[..] + Concat(rest) == Encode(order, DataMessage(Padded(attrs), Concat(vec)))
  {
    hide StoreWord, Stamp, DataHeader;
    var length := CountBytes(vec);
    rest := vec;
    if attrs.Some? {
      rest := [attrs.value.memory[..RoundUp8(attrs.value.length)]] + rest;
    }
    header := PutDataHeader(order, Padded(attrs), length);
    assert header[..] + Concat(rest) == DataHeader(order, Padded(attrs), length) + AttrBlock(Padded(attrs)) + Concat(vec);
    StampHeader(order, header, rest);
  }

  /** internal_write_event for a four-byte stone id. */
  method WriteEvent(order: Order, attrs: Option<EncodedAttrs>, stone: int, vec: seq<seq<Byte>>)
    returns (header: array<Byte>, rest: seq<seq<Byte>>)
    requires attrs.Some? ==> attrs.value.Valid()
    ensures fresh(header)
    ensures rest == (if attrs.Some? then [attrs.value.Block()] else []) + vec
    ensures header[..] + Concat(rest) == Encode(order, EventMessage(Padded(attrs), stone, Concat(vec)))
  {
    hide StoreWord, Stamp;
    var length := CountBytes(vec);
    var attrLength := 0;
    rest := vec;
    if attrs.Some? {
      attrLength := RoundUp8(attrs.value.length);
      rest := [attrs.value.memory[..attrLength]] + rest;
    }
    header := new Byte[16];
    PutWord(order, header, 0, 0x434d4c00);
    PutWord(order, header, 1, length);
    PutWord(order, header, 2, attrLength);
    PutWord(order, header, 3, stone);
    assert header[..] == EventHeader(order, Padded(attrs), stone, length);
    assert header[..] + Concat(rest) == EventHeader(order, Padded(attrs), stone, length) + AttrBlock(Padded(attrs)) + Concat(vec);
    StampHeader(order, header, rest);
  }
}
