/** The CM wire format: what the writers put in front of a message, and how CMact_on_data reads it back. */
module Frames {
  import opened Bytes

  datatype Kind = DataFrame | AttrFrame | LongFrame | PerformanceFrame | EventFrame | HelloFrame | ForeignFrame

  // ---------- The reader's side ----------

  /** The two middle bytes of the first word as the host loads it: cm.c masks with 0x00ffff00. */
  function MessageKey(host: Order, b: seq<Byte>): int
    requires |b| >= 4
  {
    LoadUnsigned(host, b[..4]) / 0x100 % 0x1_0000 * 0x100
  }

  /** The kind of frame a key announces, and whether its sender has the other byte order. */
  function Recognize(key: int): (Kind, bool) {
    if key == 0x444d00 then (DataFrame, true)
    else if key == 0x4d4400 then (DataFrame, false)
    else if key == 0x424d00 then (LongFrame, true)
    else if key == 0x4d4200 then (LongFrame, false)
    else if key == 0x414d00 then (AttrFrame, true)
    else if key == 0x4d4100 then (AttrFrame, false)
    else if key == 0x504d00 then (PerformanceFrame, true)
    else if key == 0x4d5000 then (PerformanceFrame, false)
    else if key == 0x4c4d00 then (EventFrame, true)
    else if key == 0x4d4c00 then (EventFrame, false)
    else if key == 0x484d00 then (HelloFrame, true)
    else if key == 0x4d4800 then (HelloFrame, false)
    else (ForeignFrame, false)
  }

  function LetterKind(letter: Byte): Kind {
    match letter
    case 0x44 => DataFrame
    case 0x42 => LongFrame
    case 0x41 => AttrFrame
    case 0x50 => PerformanceFrame
    case 0x4c => EventFrame
    case 0x48 => HelloFrame
    case _ => ForeignFrame
  }

  /** A tag's two middle bytes are an 'M' and the letter of the kind; their order is the sender's. */
  lemma TagLetters(first: Byte, second: Byte)
    ensures Recognize(0x1_0000 * first + 0x100 * second) ==
      if first == 0x4d && LetterKind(second) != ForeignFrame then (LetterKind(second), false)
      else if second == 0x4d && LetterKind(first) != ForeignFrame then (LetterKind(first), true)
      else (ForeignFrame, false)
  {
    var key := 0x1_0000 * first + 0x100 * second;
    assert key / 0x1_0000 == first && key / 0x100 % 0x100 == second;
    if Recognize(key).0 == ForeignFrame {
      assert first == 0x4d || second == 0x4d ==> LetterKind(first) == LetterKind(second) == ForeignFrame;
    }
  }

  function KindOf(host: Order, b: seq<Byte>): Kind
    requires |b| >= 4
  {
    Recognize(MessageKey(host, b)).0
  }

  function HeaderLength(kind: Kind): (n: nat)
    ensures 4 <= n <= 16
  {
    match kind
    case DataFrame | HelloFrame => 8
    case PerformanceFrame => 12
    case AttrFrame | LongFrame | EventFrame => 16
    case ForeignFrame => 4
  }

  /** A 32-bit field of the header, with the bytes turned round first for a swapped sender. */
  function ReadInt(host: Order, swapped: bool, b: seq<Byte>, off: nat): int
    requires off + 4 <= |b|
  {
    if swapped
    then LoadSigned(host, [b[off + 3], b[off + 2], b[off + 1], b[off]])
    else LoadSigned(host, b[off..off + 4])
  }

  function ReadChecksum(host: Order, swapped: bool, b: seq<Byte>): Byte
    requires |b| >= 4
  {
    if host.LittleEndian? then if swapped then b[3] else b[0]
    else if swapped then b[0] else b[3]
  }

  /** The 64-bit length of CMB and CMP.  A swapped low word passes through a signed int. */
  function ReadLong(host: Order, swapped: bool, b: seq<Byte>, off: nat): int
    requires off + 8 <= |b|
  {
    var high := ReadInt(host, swapped, b, off);
    var low := ReadInt(host, swapped, b, off + 4);
    if swapped then high * 0x1_0000_0000 + low
    else Signed64(high % 0x1_0000_0000 * 0x1_0000_0000) + low % 0x1_0000_0000
  }

  /** `detail` is the stone of an event, the function of a performance frame, the version of a hello. */
  datatype Header = Header(kind: Kind, swapped: bool, checksum: Byte, dataLength: int, attrLength: int, detail: int)

  function ParseHeader(host: Order, b: seq<Byte>): (h: Header)
    requires |b| >= 4 && |b| >= HeaderLength(KindOf(host, b))
    ensures h.kind == KindOf(host, b)
  {
    var (kind, sw) := Recognize(MessageKey(host, b));
    var sum := ReadChecksum(host, sw, b);
    match kind
    case DataFrame => Header(kind, sw, sum, ReadInt(host, sw, b, 4), 0, 0)
    case AttrFrame => Header(kind, sw, sum, ReadInt(host, sw, b, 8), ReadInt(host, sw, b, 12), 0)
    case LongFrame => Header(kind, sw, sum, ReadLong(host, sw, b, 4), ReadInt(host, sw, b, 12), 0)
    case EventFrame =>
      Header(kind, sw, sum, ReadInt(host, sw, b, 4), ReadInt(host, sw, b, 8), ReadInt(host, sw, b, 12))
    case PerformanceFrame =>
      var n := ReadLong(host, sw, b, 4);
      Header(kind, sw, sum, n % 0x100_0000_0000_0000 - 12, 0, n / 0x100_0000_0000_0000 % 0x100)
    case HelloFrame =>
      var n := ReadInt(host, sw, b, 4);
      Header(kind, sw, sum, n % 0x100_0000 - 8, 0, n / 0x100_0000 % 0x100)
    case ForeignFrame => Header(kind, sw, sum, 0, 0, 0)
  }

  /** The size the header announces, its own bytes included. */
  function AnnouncedSize(host: Order, b: seq<Byte>): int
    requires |b| >= 4 && |b| >= HeaderLength(KindOf(host, b))
  {
    var h := ParseHeader(host, b);
    HeaderLength(h.kind) + h.dataLength + h.attrLength
  }

  /** How many more bytes CMact_on_data asks for; 0 when it has taken the message. */
  function BytesNeeded(host: Order, b: seq<Byte>): nat {
    if |b| < 4 then 4 - |b|
    else if KindOf(host, b).ForeignFrame? then 0
    else if |b| < HeaderLength(KindOf(host, b)) then HeaderLength(KindOf(host, b)) - |b|
    else if |b| < AnnouncedSize(host, b) then AnnouncedSize(host, b) - |b|
    else 0
  }

  /** What the layers above receive.  Malformed stands for frames no writer produces. */
  datatype Delivery =
    | Foreign(tag: seq<Byte>)
    | Hello(version: int, serverId: int, managerId: int)
    | Performance(func: int, body: seq<Byte>)
    | Event(stone: int, attrs: seq<Byte>, payload: seq<Byte>)
    | Data(attrs: seq<Byte>, payload: seq<Byte>)
    | Corrupt
    | Malformed

  /** CMact_on_data on a message it has accepted, given the sum of the bytes behind the first word. */
  function DeliverGiven(host: Order, b: seq<Byte>, calculated: int): Delivery {
    if |b| < 4 then Malformed
    else if KindOf(host, b).ForeignFrame? then Foreign(b)
    else if |b| < HeaderLength(KindOf(host, b)) then Malformed
    else
      var h := ParseHeader(host, b);
      var start := HeaderLength(h.kind);
      if h.kind.HelloFrame? then
        if |b| < 16 then Malformed
        else Hello(h.detail, ReadInt(host, h.swapped, b, 8), ReadInt(host, h.swapped, b, 12))
      else if h.checksum != 0 && calculated != h.checksum then Corrupt
      else if h.attrLength < 0 || h.dataLength < 0 || |b| < start + h.attrLength + h.dataLength then Malformed
      else
        var attrs := b[start..start + h.attrLength];
        var payload := b[start + h.attrLength..start + h.attrLength + h.dataLength];
        if h.kind.PerformanceFrame? then Performance(h.detail, payload)
        else if h.kind.EventFrame? then Event(h.detail, attrs, payload)
        else Data(attrs, payload)
  }

  function Deliver(host: Order, b: seq<Byte>): Delivery {
    DeliverGiven(host, b, if |b| < 4 then 0 else SumBytes(b[4..]) % 0x100)
  }

  // ---------- The writers' side ----------

  /** What an application hands to INT_CMwrite_attr or internal_write_event, or CM sends at connection set-up. */
  datatype Message =
    | DataMessage(attrs: Option<seq<Byte>>, payload: seq<Byte>)
    | EventMessage(attrs: Option<seq<Byte>>, stone: int, payload: seq<Byte>)
    | HelloMessage(serverId: int, managerId: int)

  function AttrBlock(attrs: Option<seq<Byte>>): seq<Byte> {
    if attrs.Some? then attrs.value else []
  }

  function DataHeader(order: Order, attrs: Option<seq<Byte>>, length: nat): seq<Byte> {
    var attrLength := |AttrBlock(attrs)|;
    if length > 0x7fff_ffff then
      StoreWord(order, 0x434d4200) + StoreWord(order, length / 0x1_0000_0000)
      + StoreWord(order, length % 0x1_0000_0000) + StoreWord(order, attrLength)
    else if attrs.Some? then
      StoreWord(order, 0x434d4100) + StoreWord(order, 0x434d4100)
      + StoreWord(order, length) + StoreWord(order, attrLength)
    else
      StoreWord(order, 0x434d4400) + StoreWord(order, length)
  }

  function EventHeader(order: Order, attrs: Option<seq<Byte>>, stone: int, length: nat): seq<Byte> {
    StoreWord(order, 0x434d4c00) + StoreWord(order, length)
    + StoreWord(order, |AttrBlock(attrs)|) + StoreWord(order, stone)
  }

  /** The checksum INT_CMwrite_raw_notify computes; long messages go without one. */
  function ChecksumFor(frame: seq<Byte>): Byte
    requires |frame| >= 4
  {
    if |frame| < 10240 then SumBytes(frame[4..]) % 0x100 else 0
  }

  /** The frame with its checksum in the low-order byte of the first word. */
  function Stamp(order: Order, frame: seq<Byte>): seq<Byte>
    requires |frame| >= 4
  {
    StoreWord(order, LoadUnsigned(order, frame[..4]) / 0x100 * 0x100 + ChecksumFor(frame)) + frame[4..]
  }

  function Encode(order: Order, m: Message): (frame: seq<Byte>) {
    match m
    case DataMessage(attrs, payload) =>
      Stamp(order, DataHeader(order, attrs, |payload|) + AttrBlock(attrs) + payload)
    case EventMessage(attrs, stone, payload) =>
      Stamp(order, EventHeader(order, attrs, stone, |payload|) + AttrBlock(attrs) + payload)
    case HelloMessage(serverId, managerId) =>
      StoreWord(order, 0x434d4800) + StoreWord(order, 0x100_0000 + 20)
      + StoreWord(order, serverId) + StoreWord(order, managerId) + StoreWord(order, 0)
  }

  /** What the peer should see of `m`; stones and IDs are 32-bit values. */
  function Expected(m: Message): Delivery {
    match m
    case DataMessage(attrs, payload) => Data(AttrBlock(attrs), payload)
    case EventMessage(attrs, stone, payload) => Event(Signed32(stone), AttrBlock(attrs), payload)
    case HelloMessage(serverId, managerId) => Hello(1, Signed32(serverId), Signed32(managerId))
  }

  /** Sizes the C types of the writer's arguments allow. */
  predicate Representable(m: Message) {
    m.HelloMessage? || (|AttrBlock(m.attrs)| < 0x8000_0000 && |m.payload| < 0x8000_0000_0000_0000)
  }

  /**
    When the header can announce the message's size to this reader.  An event header has one 32-bit
    length word; a byte-swapped CMB length has its low word sign-extended by the reader.
   */
  predicate CanCarry(sender: Order, host: Order, m: Message) {
    match m
    case HelloMessage(_, _) => true
    case EventMessage(_, _, payload) => |payload| <= 0x7fff_ffff
    case DataMessage(_, payload) =>
      |payload| <= 0x7fff_ffff || sender == host || |payload| % 0x1_0000_0000 < 0x8000_0000
  }

  // ---------- Round trips ----------

  lemma ReadBack(sender: Order, host: Order, b: seq<Byte>, off: nat, v: int)
    requires off + 4 <= |b| && b[off..off + 4] == StoreWord(sender, v)
    ensures ReadInt(host, sender != host, b, off) == Signed32(v)
  {
    var w := b[off..off + 4];
    assert w[0] == b[off] && w[1] == b[off + 1] && w[2] == b[off + 2] && w[3] == b[off + 3];
    LoadStore(sender, v);
    assert ReadInt(host, sender != host, b, off) == LoadSigned(sender, w);
  }

  /** The first word survives the checksum byte, in either byte order. */
  lemma TagReadBack(sender: Order, host: Order, b: seq<Byte>, letter: int, sum: Byte, kind: Kind)
    requires |b| >= 4 && b[..4] == StoreWord(sender, 0x434d_0000 + 0x100 * letter + sum)
    requires (letter, kind) in {(0x44, DataFrame), (0x42, LongFrame), (0x41, AttrFrame), (0x4c, EventFrame), (0x48, HelloFrame)}
    ensures Recognize(MessageKey(host, b)) == (kind, sender != host)
    ensures ReadChecksum(host, sender != host, b) == sum
  {
    hide StoreWord, LoadUnsigned;
    TagBytes(sender, letter, sum);
    var w := b[..4];
    assert w[0] == b[0] && w[1] == b[1] && w[2] == b[2] && w[3] == b[3];
    TagKey(sender, host, w, letter, sum);
  }

  lemma TagBytes(order: Order, letter: int, sum: Byte)
    requires 0 <= letter < 0x100
    ensures StoreWord(order, 0x434d_0000 + 0x100 * letter + sum) ==
            if order.LittleEndian? then [sum, letter, 0x4d, 0x43] else [0x43, 0x4d, letter, sum]
  {
    var v := 0x434d_0000 + 0x100 * letter + sum;
    assert v % 0x100 == sum && v / 0x100 == 0x43_4d00 + letter;
  }

  lemma TagKey(sender: Order, host: Order, w: seq<Byte>, letter: int, sum: Byte)
    requires 0 <= letter < 0x100
    requires w == if sender.LittleEndian? then [sum, letter, 0x4d, 0x43] else [0x43, 0x4d, letter, sum]
    ensures LoadUnsigned(host, w) / 0x100 % 0x1_0000 * 0x100 ==
            if sender == host then 0x4d_0000 + 0x100 * letter else 0x1_0000 * letter + 0x4d00
  {
    var k := LoadUnsigned(host, w);
    if sender == host {
      assert k / 0x100 == 0x43_4d00 + letter;
    } else {
      assert k == 0x100_0000 * sum + 0x1_0000 * letter + 0x100 * 0x4d + 0x43;
      assert k / 0x100 == 0x1_0000 * sum + 0x100 * letter + 0x4d;
    }
  }

  lemma StampedTag(order: Order, magic: int, tail: seq<Byte>)
    requires 0 <= magic < 0x1_0000_0000 && magic % 0x100 == 0
    ensures var f := StoreWord(order, magic) + tail;
      Stamp(order, f) == StoreWord(order, magic + ChecksumFor(f)) + tail
  {
    hide StoreWord, LoadUnsigned, SumBytes;
    var f := StoreWord(order, magic) + tail;
    assert f[..4] == StoreWord(order, magic) && f[4..] == tail;
    LoadStore(order, magic);
    assert LoadUnsigned(order, f[..4]) / 0x100 * 0x100 == magic;
  }

  /** A checksum is checked against the bytes behind the first word, which stamping does not touch. */
  lemma ChecksumAgrees(order: Order, magic: int, tail: seq<Byte>)
    requires 0 <= magic < 0x1_0000_0000 && magic % 0x100 == 0
    ensures var f := StoreWord(order, magic) + tail;
      && |Stamp(order, f)| == |f|
      && ChecksumFor(f) == (if |f| < 10240 then SumBytes(Stamp(order, f)[4..]) % 0x100 else 0)
  {
    StampedTag(order, magic, tail);
    var f := StoreWord(order, magic) + tail;
    assert f[4..] == tail && Stamp(order, f)[4..] == tail;
  }

  /** The 64-bit length of a CMB header, as its two words come back. */
  lemma LongLengthReadBack(sender: Order, host: Order, b: seq<Byte>, off: nat, n: nat)
    requires n < 0x8000_0000_0000_0000
    requires off + 8 <= |b|
    requires b[off..off + 4] == StoreWord(sender, n / 0x1_0000_0000)
    requires b[off + 4..off + 8] == StoreWord(sender, n % 0x1_0000_0000)
    ensures ReadLong(host, sender != host, b, off) ==
            if sender == host || n % 0x1_0000_0000 < 0x8000_0000 then n else n - 0x1_0000_0000
  {
    hide StoreWord, ReadInt;
    var high, low := n / 0x1_0000_0000, n % 0x1_0000_0000;
    ReadBack(sender, host, b, off, high);
    ReadBack(sender, host, b, off + 4, low);
    assert 0 <= high < 0x8000_0000 && Signed32(high) == high;
    assert Signed32(low) == if low < 0x8000_0000 then low else low - 0x1_0000_0000;
    assert Signed64(high * 0x1_0000_0000) == high * 0x1_0000_0000;
  }

  lemma FourWords(f: seq<Byte>, w0: seq<Byte>, w1: seq<Byte>, w2: seq<Byte>, w3: seq<Byte>, body: seq<Byte>)
    requires |w0| == |w1| == |w2| == |w3| == 4
    requires f == w0 + w1 + w2 + w3 + body
    ensures |f| == 16 + |body|
    ensures f[..4] == w0 && f[4..8] == w1 && f[8..12] == w2 && f[12..16] == w3 && f[16..] == body
    ensures f == w0 + (w1 + w2 + w3 + body)
  {
  }

  /** The frame of a four-word header: the first word takes the checksum, the rest stays. */
  lemma StampedFourWords(order: Order, magic: int, v1: int, v2: int, v3: int, body: seq<Byte>)
    requires 0 <= magic < 0x1_0000_0000 && magic % 0x100 == 0
    ensures var raw := StoreWord(order, magic) + StoreWord(order, v1) + StoreWord(order, v2) + StoreWord(order, v3) + body;
      var f := Stamp(order, raw);
      && |f| == 16 + |body| && f[16..] == body
      && f[..4] == StoreWord(order, magic + ChecksumFor(raw))
      && f[4..8] == StoreWord(order, v1) && f[8..12] == StoreWord(order, v2) && f[12..16] == StoreWord(order, v3)
      && |f| == |raw| && ChecksumFor(raw) == (if |f| < 10240 then SumBytes(f[4..]) % 0x100 else 0)
  {
    hide *;
    var w1, w2, w3 := StoreWord(order, v1), StoreWord(order, v2), StoreWord(order, v3);
    var raw := StoreWord(order, magic) + w1 + w2 + w3 + body;
    FourWords(raw, StoreWord(order, magic), w1, w2, w3, body);
    StampedTag(order, magic, w1 + w2 + w3 + body);
    ChecksumAgrees(order, magic, w1 + w2 + w3 + body);
    var f := Stamp(order, raw);
    assert f == StoreWord(order, magic + ChecksumFor(raw)) + w1 + w2 + w3 + body;
    FourWords(f, StoreWord(order, magic + ChecksumFor(raw)), w1, w2, w3, body);
  }

  /** The parts of a header that a reader uses, found in a frame `f` of `m`. */
  ghost predicate ReadsBack(sender: Order, host: Order, m: Message, f: seq<Byte>)
    requires !m.HelloMessage?
  {
    && |f| >= 4 && !KindOf(host, f).ForeignFrame?
    && |f| == HeaderLength(KindOf(host, f)) + |AttrBlock(m.attrs)| + |m.payload|
    && var h := ParseHeader(host, f);
    && f[HeaderLength(h.kind)..] == AttrBlock(m.attrs) + m.payload
    && h.kind == (if m.EventMessage? then EventFrame else if |m.payload| > 0x7fff_ffff then LongFrame
                  else if m.attrs.Some? then AttrFrame else DataFrame)
    && h.detail == (if m.EventMessage? then Signed32(m.stone) else 0)
    && h.attrLength == |AttrBlock(m.attrs)|
    && (h.dataLength == |m.payload| <==> CanCarry(sender, host, m))
    && h.checksum == (if |f| < 10240 then SumBytes(f[4..]) % 0x100 else 0)
  }

  lemma LongFrameReadBack(sender: Order, host: Order, attrs: Option<seq<Byte>>, payload: seq<Byte>)
    requires Representable(DataMessage(attrs, payload)) && |payload| > 0x7fff_ffff
    ensures ReadsBack(sender, host, DataMessage(attrs, payload), Encode(sender, DataMessage(attrs, payload)))
  {
    hide StoreWord, LoadUnsigned, ReadInt, ReadLong, ReadChecksum, Recognize, MessageKey, SumBytes, Stamp, ChecksumFor;
    var n, a, body := |payload|, |AttrBlock(attrs)|, AttrBlock(attrs) + payload;
    var header := DataHeader(sender, attrs, n);
    assert header + AttrBlock(attrs) + payload == header + body;
    StampedFourWords(sender, 0x434d4200, n / 0x1_0000_0000, n % 0x1_0000_0000, a, body);
    var f := Encode(sender, DataMessage(attrs, payload));
    TagReadBack(sender, host, f, 0x42, ChecksumFor(header + body), LongFrame);
    LongLengthReadBack(sender, host, f, 4, n);
    ReadBack(sender, host, f, 12, a);
  }

  lemma AttrFrameReadBack(sender: Order, host: Order, attrs: Option<seq<Byte>>, payload: seq<Byte>)
    requires Representable(DataMessage(attrs, payload)) && |payload| <= 0x7fff_ffff && attrs.Some?
    ensures ReadsBack(sender, host, DataMessage(attrs, payload), Encode(sender, DataMessage(attrs, payload)))
  {
    hide StoreWord, LoadUnsigned, ReadInt, ReadLong, ReadChecksum, Recognize, MessageKey, SumBytes, Stamp, ChecksumFor;
    var n, a, body := |payload|, |AttrBlock(attrs)|, AttrBlock(attrs) + payload;
    var header := DataHeader(sender, attrs, n);
    assert header + AttrBlock(attrs) + payload == header + body;
    StampedFourWords(sender, 0x434d4100, 0x434d4100, n, a, body);
    var f := Encode(sender, DataMessage(attrs, payload));
    TagReadBack(sender, host, f, 0x41, ChecksumFor(header + body), AttrFrame);
    ReadBack(sender, host, f, 8, n);
    ReadBack(sender, host, f, 12, a);
  }

  lemma DataFrameReadBack(sender: Order, host: Order, payload: seq<Byte>)
    requires |payload| <= 0x7fff_ffff
    ensures ReadsBack(sender, host, DataMessage(None, payload), Encode(sender, DataMessage(None, payload)))
  {
    hide StoreWord, LoadUnsigned, ReadInt, ReadLong, ReadChecksum, Recognize, MessageKey, SumBytes, Stamp, ChecksumFor;
    var tail := StoreWord(sender, |payload|) + payload;
    var raw := DataHeader(sender, None, |payload|) + AttrBlock(None) + payload;
    assert raw == StoreWord(sender, 0x434d4400) + tail;
    StampedTag(sender, 0x434d4400, tail);
    ChecksumAgrees(sender, 0x434d4400, tail);
    var f := Encode(sender, DataMessage(None, payload));
    assert f[4..] == tail && f[4..8] == StoreWord(sender, |payload|) && f[8..] == payload;
    TagReadBack(sender, host, f, 0x44, ChecksumFor(raw), DataFrame);
    ReadBack(sender, host, f, 4, |payload|);
  }

  lemma EventFrameReadBack(sender: Order, host: Order, attrs: Option<seq<Byte>>, stone: int, payload: seq<Byte>)
    requires Representable(EventMessage(attrs, stone, payload))
    ensures ReadsBack(sender, host, EventMessage(attrs, stone, payload), Encode(sender, EventMessage(attrs, stone, payload)))
  {
    hide StoreWord, LoadUnsigned, ReadInt, ReadLong, ReadChecksum, Recognize, MessageKey, SumBytes, Stamp, ChecksumFor;
    var n, a, body := |payload|, |AttrBlock(attrs)|, AttrBlock(attrs) + payload;
    var header := EventHeader(sender, attrs, stone, n);
    assert header + AttrBlock(attrs) + payload == header + body;
    StampedFourWords(sender, 0x434d4c00, n, a, stone, body);
    var f := Encode(sender, EventMessage(attrs, stone, payload));
    TagReadBack(sender, host, f, 0x4c, ChecksumFor(header + body), EventFrame);
    ReadBack(sender, host, f, 4, n);
    ReadBack(sender, host, f, 8, a);
    ReadBack(sender, host, f, 12, stone);
  }

  /** What ParseHeader finds in the frame of any data or event message. */
  lemma HeaderReadBack(sender: Order, host: Order, m: Message)
    requires Representable(m) && !m.HelloMessage?
    ensures ReadsBack(sender, host, m, Encode(sender, m))
  {
    hide *;
    if m.EventMessage? {
      EventFrameReadBack(sender, host, m.attrs, m.stone, m.payload);
    } else if |m.payload| > 0x7fff_ffff {
      LongFrameReadBack(sender, host, m.attrs, m.payload);
    } else if m.attrs.Some? {
      AttrFrameReadBack(sender, host, m.attrs, m.payload);
    } else {
      DataFrameReadBack(sender, host, m.payload);
    }
  }

  lemma HelloReadBack(sender: Order, host: Order, serverId: int, managerId: int)
    ensures var f := Encode(sender, HelloMessage(serverId, managerId));
      && |f| == 20 && AnnouncedSize(host, f) == 20 && KindOf(host, f).HelloFrame?
      && Deliver(host, f) == Hello(1, Signed32(serverId), Signed32(managerId)) && f[16..] == StoreWord(sender, 0)
  {
    hide StoreWord, LoadUnsigned, ReadInt, ReadChecksum, Recognize, MessageKey;
    var f := Encode(sender, HelloMessage(serverId, managerId));
    TagReadBack(sender, host, f, 0x48, 0, HelloFrame);
    ReadBack(sender, host, f, 4, 0x100_0000 + 20);
    ReadBack(sender, host, f, 8, serverId);
    ReadBack(sender, host, f, 12, managerId);
  }

  /** A performance frame announces its size as it is, in the low 56 bits, its function above them. */
  lemma PerformanceSize(host: Order, f: seq<Byte>)
    requires |f| >= 12 && KindOf(host, f).PerformanceFrame?
    ensures var word := ReadLong(host, ParseHeader(host, f).swapped, f, 4);
      && (word - AnnouncedSize(host, f)) % 0x100_0000_0000_0000 == 0 && 0 <= AnnouncedSize(host, f) < 0x100_0000_0000_0000
      && (0 <= word < 0x1_0000_0000_0000_0000 ==>
           word == ParseHeader(host, f).detail * 0x100_0000_0000_0000 + AnnouncedSize(host, f))
  {
    hide ReadLong, Recognize, MessageKey, ReadChecksum;
  }

  /** The announced size is the real size exactly when the header can carry it. */
  lemma AnnouncedSizeExact(sender: Order, host: Order, m: Message)
    requires Representable(m)
    ensures var f := Encode(sender, m);
      && |f| >= 4 && !KindOf(host, f).ForeignFrame? && |f| >= HeaderLength(KindOf(host, f))
      && (AnnouncedSize(host, f) == |f| <==> CanCarry(sender, host, m))
  {
    hide StoreWord, ReadInt, ReadChecksum, Recognize, MessageKey, SumBytes, Encode, ParseHeader;
    if m.HelloMessage? {
      HelloReadBack(sender, host, m.serverId, m.managerId);
    } else {
      HeaderReadBack(sender, host, m);
    }
  }

  /** Kind, lengths, attribute block, stone and payload come back, and an intact frame passes its checksum. */
  lemma RoundTrip(sender: Order, host: Order, m: Message)
    requires Representable(m) && CanCarry(sender, host, m)
    ensures Deliver(host, Encode(sender, m)) == Expected(m)
  {
    hide StoreWord, ReadInt, ReadChecksum, Recognize, MessageKey, SumBytes, Encode, ParseHeader, CanCarry;
    var f := Encode(sender, m);
    if m.HelloMessage? {
      HelloReadBack(sender, host, m.serverId, m.managerId);
    } else {
      HeaderReadBack(sender, host, m);
      SliceBody(f, HeaderLength(KindOf(host, f)), AttrBlock(m.attrs), m.payload);
    }
  }

  lemma SliceBody(f: seq<Byte>, start: nat, attrs: seq<Byte>, payload: seq<Byte>)
    requires start <= |f| && f[start..] == attrs + payload
    ensures start + |attrs| + |payload| == |f|
    ensures f[start..start + |attrs|] == attrs
    ensures f[start + |attrs|..start + |attrs| + |payload|] == payload
  {
    assert f[start..start + |attrs|] == f[start..][..|attrs|];
    assert f[start + |attrs|..start + |attrs| + |payload|] == f[start..][|attrs|..];
  }

  lemma PrefixKind(host: Order, b: seq<Byte>, n: nat)
    requires 4 <= n <= |b|
    ensures KindOf(host, b[..n]) == KindOf(host, b)
    ensures n >= HeaderLength(KindOf(host, b)) ==> ParseHeader(host, b[..n]) == ParseHeader(host, b)
  {
    hide LoadUnsigned, Recognize, Signed64;
    assert b[..n][..4] == b[..4];
    var p := b[..n];
    forall off: nat, sw: bool | off + 4 <= n
      ensures ReadInt(host, sw, p, off) == ReadInt(host, sw, b, off)
    {
      assert p[off..off + 4] == b[off..off + 4];
    }
  }

  /** The letter of a frame's tag. */
  function Letter(m: Message): Byte {
    match m
    case DataMessage(attrs, payload) => if |payload| > 0x7fff_ffff then 'B' as int else if attrs.Some? then 'A' as int else 'D' as int
    case EventMessage(_, _, _) => 'L' as int
    case HelloMessage(_, _) => 'H' as int
  }

  /** On the wire the first word is the letters C and M and a third one, and the checksum, in the sender's byte order. */
  lemma TagOnTheWire(sender: Order, m: Message)
    ensures var f := Encode(sender, m);
      && |f| >= 4
      && (sender.LittleEndian? ==> f[1..4] == [Letter(m), 'M' as int, 'C' as int])
      && (!sender.LittleEndian? ==> f[..3] == ['C' as int, 'M' as int, Letter(m)])
  {
    hide StoreWord, LoadUnsigned, SumBytes, ChecksumFor;
    var f := Encode(sender, m);
    var rest, magic := f[4..], 0x434d_0000 + 0x100 * Letter(m);
    if m.HelloMessage? {
      TagBytes(sender, Letter(m), 0);
      assert f[..4] == StoreWord(sender, magic);
    } else {
      var raw := (if m.EventMessage? then EventHeader(sender, m.attrs, m.stone, |m.payload|)
                  else DataHeader(sender, m.attrs, |m.payload|)) + AttrBlock(m.attrs) + m.payload;
      HeaderTag(sender, m);
      assert raw == StoreWord(sender, magic) + raw[4..];
      StampedTag(sender, magic, raw[4..]);
      TagBytes(sender, Letter(m), ChecksumFor(raw));
      assert f[..4] == StoreWord(sender, magic + ChecksumFor(raw));
    }
    assert f[1..4] == f[..4][1..] && f[..3] == f[..4][..3];
  }

  lemma HeaderTag(sender: Order, m: Message)
    requires !m.HelloMessage?
    ensures var header := if m.EventMessage? then EventHeader(sender, m.attrs, m.stone, |m.payload|)
                          else DataHeader(sender, m.attrs, |m.payload|);
      |header| >= 4 && header[..4] == StoreWord(sender, 0x434d_0000 + 0x100 * Letter(m))
  {
    hide StoreWord;
  }

  lemma SumChanged(s: seq<Byte>, i: nat, v: Byte)
    requires i < |s|
    ensures SumBytes(s[i := v]) == SumBytes(s) - s[i] + v && SumBytes(s) >= s[i]
  {
    hide SumBytes;
    var a, b := s[..i], s[i + 1..];
    assert s == a + ([s[i]] + b) && s[i := v] == a + ([v] + b);
    SumBytesAppend(a, [s[i]] + b);
    SumBytesAppend(a, [v] + b);
    SumBytesAppend([s[i]], b);
    SumBytesAppend([v], b);
    OneByte(s[i]);
    OneByte(v);
  }

  lemma OneByte(v: Byte)
    ensures SumBytes([v]) == v
  {
    assert [v][..0] == [];
  }

  /** A short frame with one byte behind its header changed is refused, unless its checksum is 0, which means none. */
  lemma CorruptionShows(sender: Order, host: Order, m: Message, i: nat, v: Byte)
    requires Representable(m) && CanCarry(sender, host, m) && !m.HelloMessage?
    requires var f := Encode(sender, m);
      && 4 <= |f| < 10240 && i < |f| && v != f[i] && SumBytes(f[4..]) % 0x100 != 0
      && HeaderLength(KindOf(host, f)) <= i
    ensures Deliver(host, Encode(sender, m)[i := v]) == Corrupt
  {
    hide StoreWord, ReadInt, ReadChecksum, Recognize, MessageKey, SumBytes, Encode, ParseHeader, CanCarry;
    var f := Encode(sender, m);
    var g, start := f[i := v], HeaderLength(KindOf(host, f));
    HeaderReadBack(sender, host, m);
    assert g[..start] == f[..start];
    PrefixKind(host, f, start);
    PrefixKind(host, g, start);
    assert g[4..] == f[4..][i - 4 := v];
    SumChanged(f[4..], i - 4, v);
    SumDiffers(SumBytes(f[4..]), f[i], v);
  }

  lemma SumDiffers(sum: nat, was: Byte, now: Byte)
    requires was != now && sum >= was
    ensures (sum - was + now) % 0x100 != sum % 0x100
  {
  }
}
