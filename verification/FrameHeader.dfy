/** WebSocket frame headers, section 5.2 of RFC 6455: what is written is what is read. */
module FrameHeader {
  import opened Words

  const PAYLOAD_SIZE_BASIC: bv64 := 125
  const PAYLOAD_SIZE_EXTENDED: bv64 := 0xFFFF
  const CODE_16BIT: uint8 := 0x7E
  const CODE_64BIT: uint8 := 0x7F
  const BASIC_HEADER_LENGTH: nat := 2
  const MAX_HEADER_LENGTH: nat := 14
  const MAX_EXTENDED_HEADER_LENGTH: nat := 12

  datatype Basic = Basic(b0: uint8, b1: uint8)

  datatype Flags = Flags(fin: bool, rsv1: bool, rsv2: bool, rsv3: bool)

  // Byte order

  function Word64(little: bool): Machine {
    Machine(8, little)
  }

  function Reversed8(b: seq<uint8>): (r: seq<uint8>)
    requires |b| == 8
    ensures |r| == 8
  {
    [b[7], b[6], b[5], b[4], b[3], b[2], b[1], b[0]]
  }

  /** _htonll, and _ntohll: on a little-endian machine the bytes of the word are swapped. */
  function Htonll(little: bool, w: bv64): bv64 {
    if little then WordOf(Word64(little), Reversed8(BytesOf(Word64(little), w))) else w
  }

  /** Network order: the most significant byte first, on either machine. */
  function Network(w: bv64): (r: seq<uint8>)
    ensures |r| == 8
  {
    seq(8, i requires 0 <= i < 8 => Lane(w, 7 - i))
  }

  lemma HtonllIsNetwork(little: bool, w: bv64)
    ensures BytesOf(Word64(little), Htonll(little, w)) == Network(w)
  {
    hide Lane, WordOf;
    var m := Word64(little);
    forall i | 0 <= i < 8 ensures BytesOf(m, Htonll(little, w))[i] == Network(w)[i] {
      if little {
        WordOfBytes(m, Reversed8(BytesOf(m, w)), i);
      }
    }
  }

  lemma NtohllReads(little: bool, w: bv64)
    ensures Htonll(little, WordOf(Word64(little), Network(w))) == w
  {
    hide Lane, WordOf, Htonll, Network;
    var m, v := Word64(little), WordOf(Word64(little), Network(w));
    HtonllIsNetwork(little, v);
    forall i | 0 <= i < 8 ensures Lane(Htonll(little, v), i) == Lane(w, i) {
      NetworkLane(little, v, w, i);
    }
    LanesEqual(Htonll(little, v), w);
  }

  lemma NetworkLane(little: bool, v: bv64, w: bv64, i: nat)
    requires i < 8 && v == WordOf(Word64(little), Network(w))
    ensures Lane(Htonll(little, v), i) == Lane(w, i)
  {
    hide Lane, WordOf;
    var m := Word64(little);
    var j := LaneAt(m, i);
    HtonllIsNetwork(little, v);
    assert BytesOf(m, Htonll(little, v))[j] == Network(v)[j];
    assert Lane(Htonll(little, v), i) == ByteAt(m, Htonll(little, v), j);
    WordOfBytes(m, Network(w), LaneAt(m, 7 - j));
  }

  /** The value of the uint16 union, and ntohs. */
  function Union16(little: bool, c0: uint8, c1: uint8): bv16 {
    if little then (c0 as bv16) | ((c1 as bv16) << 8) else ((c0 as bv16) << 8) | (c1 as bv16)
  }

  function Ntohs(little: bool, v: bv16): bv16 {
    if little then (v << 8) | (v >> 8) else v
  }

  lemma NtohsIs(little: bool, c0: uint8, c1: uint8)
    ensures Ntohs(little, Union16(little, c0, c1)) == ((c0 as bv16) << 8) | (c1 as bv16)
  {
    if little {
      assert (((c0 as bv16) | ((c1 as bv16) << 8)) << 8) | (((c0 as bv16) | ((c1 as bv16) << 8)) >> 8)
          == ((c0 as bv16) << 8) | (c1 as bv16);
    }
  }

  lemma LowBytes(w: bv64)
    requires w <= 0xFFFF
    ensures (((Lane(w, 1) as bv16) << 8) | (Lane(w, 0) as bv16)) as bv64 == w
  {
  }

  lemma NtohsReads(little: bool, w: bv64)
    requires w <= PAYLOAD_SIZE_EXTENDED
    ensures Ntohs(little, Union16(little, Lane(w, 1), Lane(w, 0))) as bv64 == w
  {
    hide Lane, Ntohs, Union16;
    NtohsIs(little, Lane(w, 1), Lane(w, 0));
    LowBytes(w);
  }

  // The basic header

  function Bit(b: bool, mask: uint8): uint8 {
    if b then mask else 0
  }

  function SizeCode(size: bv64): uint8 {
    if size <= PAYLOAD_SIZE_BASIC then (size & 0xFF) as uint8
    else if size <= PAYLOAD_SIZE_EXTENDED then CODE_16BIT
    else CODE_64BIT
  }

  /** The constructor of basic_header. */
  function MakeBasic(op: uint8, size: bv64, mask: bool, f: Flags): Basic {
    Basic(FirstByte(op, f), Or8(Bit(mask, 0x80), SizeCode(size)))
  }

  function FirstByte(op: uint8, f: Flags): uint8 {
    Or8(Or8(Or8(Or8(Bit(f.fin, 0x80), Bit(f.rsv1, 0x40)), Bit(f.rsv2, 0x20)), Bit(f.rsv3, 0x10)), op & 0x0F)
  }

  lemma OrBit(b: uint8, value: bool, mask: uint8)
    ensures Or8(b, Bit(value, mask)) == if value then Or8(b, mask) else b
  {
    Or8Zero(b);
  }

  function GetFlags(h: Basic): Flags {
    Flags(h.b0 & 0x80 == 0x80, h.b0 & 0x40 == 0x40, h.b0 & 0x20 == 0x20, h.b0 & 0x10 == 0x10)
  }

  function GetOpcode(h: Basic): uint8 { h.b0 & 0x0F }

  function GetMasked(h: Basic): bool { h.b1 & 0x80 == 0x80 }

  function GetBasicSize(h: Basic): uint8 { h.b1 & 0x7F }

  function GetMaskingKeyOffset(h: Basic): nat {
    if GetBasicSize(h) == CODE_16BIT then 2 else if GetBasicSize(h) == CODE_64BIT then 8 else 0
  }

  function GetHeaderLen(h: Basic): nat {
    BASIC_HEADER_LENGTH + GetMaskingKeyOffset(h) + if GetMasked(h) then 4 else 0
  }

  lemma BasicReadsBack(op: uint8, size: bv64, mask: bool, f: Flags)
    requires op <= 0x0F
    ensures var h := MakeBasic(op, size, mask, f);
            GetFlags(h) == f && GetOpcode(h) == op && GetMasked(h) == mask && GetBasicSize(h) == SizeCode(size)
  {
  }

  /** How many bytes the size takes behind the basic header: the least of the three forms. */
  function SizeLength(size: bv64): (n: nat)
    ensures n <= 8
  {
    if size <= PAYLOAD_SIZE_BASIC then 0 else if size <= PAYLOAD_SIZE_EXTENDED then 2 else 8
  }

  lemma SizeCodeIs(size: bv64)
    ensures SizeCode(size) == CODE_16BIT <==> SizeLength(size) == 2
    ensures SizeCode(size) == CODE_64BIT <==> SizeLength(size) == 8
    ensures SizeLength(size) == 0 ==> SizeCode(size) as bv64 == size && SizeCode(size) <= 125
  {
  }

  // The extended header

  /** The bytes of the size, then the key, then zeros. */
  function ExtendedBytes(size: bv64, key: seq<uint8>): (r: seq<uint8>)
    requires |key| <= 4
    ensures |r| == MAX_EXTENDED_HEADER_LENGTH
  {
    Network(size)[8 - SizeLength(size)..] + key + seq(12 - SizeLength(size) - |key|, i => 0)
  }

  /** prepare_header */
  function HeaderBytes(h: Basic, e: seq<uint8>): seq<uint8>
    requires |e| == MAX_EXTENDED_HEADER_LENGTH
  {
    LenFits(h);
    [h.b0, h.b1] + e[..GetHeaderLen(h) - BASIC_HEADER_LENGTH]
  }

  lemma LenFits(h: Basic)
    ensures BASIC_HEADER_LENGTH <= GetHeaderLen(h) <= MAX_HEADER_LENGTH
  {
  }

  function GetMaskingKey(h: Basic, e: seq<uint8>): Key
    requires |e| == MAX_EXTENDED_HEADER_LENGTH
  {
    if !GetMasked(h) then [0, 0, 0, 0] else e[GetMaskingKeyOffset(h)..GetMaskingKeyOffset(h) + 4]
  }

  function GetExtendedSize(little: bool, e: seq<uint8>): bv16
    requires |e| == MAX_EXTENDED_HEADER_LENGTH
  {
    Ntohs(little, Union16(little, e[0], e[1]))
  }

  function GetJumboSize(little: bool, e: seq<uint8>): bv64
    requires |e| == MAX_EXTENDED_HEADER_LENGTH
  {
    Htonll(little, WordOf(Word64(little), e[..8]))
  }

  function GetPayloadSize(little: bool, h: Basic, e: seq<uint8>): bv64
    requires |e| == MAX_EXTENDED_HEADER_LENGTH
  {
    if GetBasicSize(h) <= 125 then GetBasicSize(h) as bv64
    else if GetBasicSize(h) == CODE_16BIT then GetExtendedSize(little, e) as bv64
    else GetJumboSize(little, e)
  }

  /** The header for a frame: of a client, which masks with a key, or of a server. */
  function Header(op: uint8, size: bv64, f: Flags, key: seq<uint8>): seq<uint8>
    requires |key| <= 4
  {
    HeaderBytes(MakeBasic(op, size, key != [], f), ExtendedBytes(size, key))
  }

  /** What a reader has in its two header structures when these bytes have arrived. */
  predicate Received(s: seq<uint8>, h: Basic, e: seq<uint8>) {
    |s| >= 2 && |e| == MAX_EXTENDED_HEADER_LENGTH && h == Basic(s[0], s[1])
    && |s| - 2 <= |e| && e[..|s| - 2] == s[2..]
  }

  lemma HeaderParts(op: uint8, size: bv64, f: Flags, key: seq<uint8>)
    requires op <= 0x0F && (key == [] || |key| == 4)
    ensures var h := MakeBasic(op, size, key != [], f);
            && Header(op, size, f, key) == [h.b0, h.b1] + Network(size)[8 - SizeLength(size)..] + key
            && GetMaskingKeyOffset(h) == SizeLength(size)
            && GetHeaderLen(h) == 2 + SizeLength(size) + |key|
  {
    hide Network, MakeBasic;
    BasicReadsBack(op, size, key != [], f);
    SizeCodeIs(size);
    var n := SizeLength(size) + |key|;
    assert ExtendedBytes(size, key)[..n] == Network(size)[8 - SizeLength(size)..] + key;
  }

  /** Where the reader finds the size and the key. */
  lemma ReceivedParts(s: seq<uint8>, size: seq<uint8>, key: seq<uint8>, h: Basic, e: seq<uint8>)
    requires Received(s, h, e) && s == [h.b0, h.b1] + size + key
    ensures |s| == 2 + |size| + |key| && e[..|size|] == size && e[|size|..|size| + |key|] == key
  {
    assert s[2..] == size + key;
    assert e[..|s| - 2][..|size|] == e[..|size|] && e[..|s| - 2][|size|..] == e[|size|..|size| + |key|];
  }

  lemma PayloadSizeIs(little: bool, size: bv64, h: Basic, e: seq<uint8>)
    requires |e| == MAX_EXTENDED_HEADER_LENGTH && GetBasicSize(h) == SizeCode(size)
    requires e[..SizeLength(size)] == Network(size)[8 - SizeLength(size)..]
    ensures GetPayloadSize(little, h, e) == size
  {
    hide Network, Ntohs, Union16, Htonll, WordOf, Lane, GetBasicSize, SizeCode;
    SizeCodeIs(size);
    var n := SizeLength(size);
    if n == 2 {
      assert e[0] == e[..2][0] && e[1] == e[..2][1];
      NetworkLow(size);
      NtohsReads(little, size);
    } else if n == 8 {
      assert Network(size)[0..] == Network(size);
      NtohllReads(little, size);
    }
  }

  lemma NetworkLow(size: bv64)
    ensures Network(size)[6..][0] == Lane(size, 1) && Network(size)[6..][1] == Lane(size, 0)
  {
    hide Lane;
  }

  /** No header reads as a size with fewer bytes of length than SizeLength says, whatever its bytes are. */
  lemma {:induction false} ShortestForm(little: bool, h: Basic, e: seq<uint8>)
    requires |e| == MAX_EXTENDED_HEADER_LENGTH
    ensures SizeLength(GetPayloadSize(little, h, e)) <= GetMaskingKeyOffset(h)
  {
    hide GetBasicSize, GetExtendedSize, GetJumboSize;
    BasicIsSmall(GetBasicSize(h));
    ExtendedIsSmall(GetExtendedSize(little, e));
    CodesEnd(h);
  }

  lemma BasicIsSmall(b: uint8)
    ensures b <= 125 ==> b as bv64 <= PAYLOAD_SIZE_BASIC
  {
  }

  lemma ExtendedIsSmall(v: bv16)
    ensures v as bv64 <= PAYLOAD_SIZE_EXTENDED
  {
  }

  lemma CodesEnd(h: Basic)
    ensures GetBasicSize(h) <= 125 || GetBasicSize(h) == CODE_16BIT || GetBasicSize(h) == CODE_64BIT
  {
  }

  /**
   * Whoever reads the header finds the same flags, opcode, mask bit, payload size and masking key, for
   * every 64-bit size and on either byte order. The header is as long as its first two bytes say, at
   * most 14 bytes, and no header with a shorter length field reads as this size.
   */
  lemma HeaderReadsBack(little: bool, op: uint8, size: bv64, f: Flags, key: seq<uint8>, h: Basic, e: seq<uint8>)
    requires op <= 0x0F && (key == [] || |key| == 4) && Received(Header(op, size, f, key), h, e)
    ensures GetFlags(h) == f && GetOpcode(h) == op && GetMasked(h) == (key != [])
    ensures GetPayloadSize(little, h, e) == size
    ensures GetMaskingKey(h, e) == if key == [] then [0, 0, 0, 0] else key
    ensures |Header(op, size, f, key)| == GetHeaderLen(h) == 2 + GetMaskingKeyOffset(h) + |key| <= MAX_HEADER_LENGTH
    ensures forall g: Basic, x: seq<uint8> :: |x| == MAX_EXTENDED_HEADER_LENGTH && GetPayloadSize(little, g, x) == size ==>
              GetMaskingKeyOffset(h) <= GetMaskingKeyOffset(g)
  {
    hide Network, MakeBasic, Header, GetFlags, GetOpcode, GetMasked, GetBasicSize, SizeCode, SizeLength, GetPayloadSize,
         GetMaskingKeyOffset, GetHeaderLen;
    BasicReadsBack(op, size, key != [], f);
    HeaderParts(op, size, f, key);
    var s, b := Header(op, size, f, key), MakeBasic(op, size, key != [], f);
    assert s[0] == b.b0 && s[1] == b.b1;
    ReceivedParts(s, Network(size)[8 - SizeLength(size)..], key, h, e);
    PayloadSizeIs(little, size, h, e);
    LenFits(h);
    forall g: Basic, x: seq<uint8> | |x| == MAX_EXTENDED_HEADER_LENGTH && GetPayloadSize(little, g, x) == size
      ensures GetMaskingKeyOffset(h) <= GetMaskingKeyOffset(g)
    {
      ShortestForm(little, g, x);
    }
  }

  // The structures that the headers are written into

  class BasicHeader {
    var b0: uint8
    var b1: uint8

    function Value(): Basic
      reads this
    {
      Basic(b0, b1)
    }

    constructor (op: uint8, size: bv64, fin: bool, mask: bool, rsv1: bool, rsv2: bool, rsv3: bool)
      ensures Value() == MakeBasic(op, size, mask, Flags(fin, rsv1, rsv2, rsv3))
    {
      hide Or8, Bit, SizeCode;
      var c0: uint8, c1: uint8 := 0, 0;
      Or8Zero(Bit(fin, 0x80));
      OrBit(c0, fin, 0x80);
      if fin { c0 := Or8(c0, 0x80); }
      OrBit(c0, rsv1, 0x40);
      if rsv1 { c0 := Or8(c0, 0x40); }
      OrBit(c0, rsv2, 0x20);
      if rsv2 { c0 := Or8(c0, 0x20); }
      OrBit(c0, rsv3, 0x10);
      if rsv3 { c0 := Or8(c0, 0x10); }
      c0 := Or8(c0, op & 0x0F);
      Or8Zero(Bit(mask, 0x80));
      OrBit(c1, mask, 0x80);
      if mask { c1 := Or8(c1, 0x80); }
      var basicValue := SizeCode(size);
      c1 := Or8(c1, basicValue);
      b0, b1 := c0, c1;
    }

    /** Each setter changes what its reader reads, and nothing else. */
    method SetFin(value: bool)
      modifies this`b0
      ensures GetFlags(Value()) == GetFlags(old(Value())).(fin := value) && GetOpcode(Value()) == GetOpcode(old(Value()))
    {
      b0 := if value then b0 | 0x80 else b0 & 0x7F;
    }

    method SetRsv1(value: bool)
      modifies this`b0
      ensures GetFlags(Value()) == GetFlags(old(Value())).(rsv1 := value) && GetOpcode(Value()) == GetOpcode(old(Value()))
    {
      b0 := if value then b0 | 0x40 else b0 & 0xBF;
    }

    method SetRsv2(value: bool)
      modifies this`b0
      ensures GetFlags(Value()) == GetFlags(old(Value())).(rsv2 := value) && GetOpcode(Value()) == GetOpcode(old(Value()))
    {
      b0 := if value then b0 | 0x20 else b0 & 0xDF;
    }

    method SetRsv3(value: bool)
      modifies this`b0
      ensures GetFlags(Value()) == GetFlags(old(Value())).(rsv3 := value) && GetOpcode(Value()) == GetOpcode(old(Value()))
    {
      b0 := if value then b0 | 0x10 else b0 & 0xEF;
    }

    method SetMasked(value: bool)
      modifies this`b1
      ensures GetMasked(Value()) == value && GetBasicSize(Value()) == GetBasicSize(old(Value()))
    {
      b1 := if value then b1 | 0x80 else b1 & 0x7F;
    }
  }

  class ExtendedHeader {
    const bytes: array<uint8>

    /** Without a masking key. */
    constructor (little: bool, payloadSize: bv64)
      ensures fresh(bytes) && bytes[..] == ExtendedBytes(payloadSize, [])
    {
      bytes := new uint8[MAX_EXTENDED_HEADER_LENGTH](_ => 0);
      new;
      hide Network, SizeLength, Htonll, ExtendedBytes;
      var offset := CopyPayload(little, payloadSize);
      ExtendedIs(bytes[..], payloadSize, []);
    }

    constructor WithKey(little: bool, payloadSize: bv64, key: Key)
      ensures fresh(bytes) && bytes[..] == ExtendedBytes(payloadSize, key)
    {
      bytes := new uint8[MAX_EXTENDED_HEADER_LENGTH](_ => 0);
      new;
      hide Network, SizeLength, Htonll, ExtendedBytes;
      var offset := CopyPayload(little, payloadSize);
      for i := 0 to 4
        invariant bytes[..offset] == Network(payloadSize)[8 - offset..]
        invariant forall k :: 0 <= k < i ==> bytes[offset + k] == key[k]
        invariant forall k :: offset + i <= k < bytes.Length ==> bytes[k] == 0
      {
        bytes[offset + i] := key[i];
      }
      ExtendedIs(bytes[..], payloadSize, key);
    }

    /** std::copy to the start of the bytes. */
    method CopyFront(source: seq<uint8>)
      requires |source| <= bytes.Length
      modifies bytes
      ensures bytes[..|source|] == source
      ensures forall k :: |source| <= k < bytes.Length ==> bytes[k] == old(bytes[k])
    {
      for i := 0 to |source|
        invariant forall k :: 0 <= k < i ==> bytes[k] == source[k]
        invariant forall k :: i <= k < bytes.Length ==> bytes[k] == old(bytes[k])
      {
        bytes[i] := source[i];
      }
    }

    /** copy_payload: the size in network order, in as many bytes as it takes; none up to 125. */
    method CopyPayload(little: bool, payloadSize: bv64) returns (n: nat)
      requires bytes.Length == MAX_EXTENDED_HEADER_LENGTH && forall k :: 0 <= k < bytes.Length ==> bytes[k] == 0
      modifies bytes
      ensures n == SizeLength(payloadSize) && bytes[..n] == Network(payloadSize)[8 - n..]
      ensures forall k :: n <= k < bytes.Length ==> bytes[k] == 0
    {
      hide Network, Htonll, BytesOf, SizeLength;
      var payloadOffset := PayloadOffset(payloadSize);
      var temp64 := BytesOf(Word64(little), Htonll(little, payloadSize));
      HtonllIsNetwork(little, payloadSize);
      CopyFront(temp64[payloadOffset..]);
      n := 8 - payloadOffset;
    }
  }

  function PayloadOffset(size: bv64): (n: nat)
    ensures n + SizeLength(size) == 8
  {
    if size <= PAYLOAD_SIZE_BASIC then 8 else if size <= PAYLOAD_SIZE_EXTENDED then 6 else 0
  }

  lemma ExtendedIs(b: seq<uint8>, size: bv64, key: seq<uint8>)
    requires |b| == MAX_EXTENDED_HEADER_LENGTH && |key| <= 4
    requires b[..SizeLength(size)] == Network(size)[8 - SizeLength(size)..]
    requires forall k :: 0 <= k < |key| ==> b[SizeLength(size) + k] == key[k]
    requires forall k :: SizeLength(size) + |key| <= k < |b| ==> b[k] == 0
    ensures b == ExtendedBytes(size, key)
  {
    hide Network, SizeLength;
    var n := SizeLength(size);
    assert b == b[..n] + b[n..n + |key|] + b[n + |key|..];
    assert b[n..n + |key|] == key;
  }

  /** prepare_header: the header, in a string of its own. */
  method PrepareHeader(h: BasicHeader, e: ExtendedHeader) returns (s: seq<uint8>)
    requires e.bytes.Length == MAX_EXTENDED_HEADER_LENGTH
    ensures s == HeaderBytes(h.Value(), e.bytes[..])
  {
    LenFits(h.Value());
    s := [h.b0, h.b1];
    s := s + e.bytes[..GetHeaderLen(h.Value()) - BASIC_HEADER_LENGTH];
  }
}
