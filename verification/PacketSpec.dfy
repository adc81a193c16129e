/** The text form of a socket.io packet: packet::accept, packet::parse and packet::parse_buffer. */
module PacketSpec {
  import opened Bytes
  import opened Json
  import opened MessageSpec
  import W = WriterSpec
  import R = ReaderSpec
  import D = DocumentSpec

  const FRAME_MESSAGE: int := 4
  const TYPE_EVENT: int := 2
  const TYPE_ACK: int := 3
  const TYPE_BINARY_EVENT: int := 5
  const TYPE_BINARY_ACK: int := 6
  const TYPE_MAX: int := 6
  const UNDETERMINED: int := 0x10

  /** The fields of class packet. */
  datatype Packet = Packet(
    frame: int, kind: int, nsp: bytes, packId: int, message: Msg, pending: nat, buffers: seq<bytes>)

  /** The constructor for events and acks. */
  function MakeMessage(nsp: bytes, message: Msg, packId: int, isAck: bool): Packet {
    Packet(FRAME_MESSAGE, (if isAck then TYPE_ACK else TYPE_EVENT) + UNDETERMINED, nsp, packId, message, 0, [])
  }

  const SLASH: bytes := [0x2F]

  // accept

  /** `_type & ~type_undetermined`, for the types that occur. */
  function Determined(kind: int): int {
    if kind >= UNDETERMINED then kind - UNDETERMINED else kind
  }

  function BinaryKind(kind: int, hasBinary: bool): int {
    if kind == TYPE_EVENT && hasBinary then TYPE_BINARY_EVENT
    else if kind == TYPE_ACK && hasBinary then TYPE_BINARY_ACK
    else kind
  }

  datatype Accepted = Accepted(kind: int, payload: bytes, buffers: seq<bytes>, hasBinary: bool)

  /** packet::accept on an empty payload and no buffers. */
  function AcceptPacket(p: Packet): Accepted
    requires p.message.MNone? || NoNone(p.message)
  {
    var head: bytes := [(p.frame + 0x30) % 0x100];
    if p.frame != FRAME_MESSAGE then Accepted(p.kind, head, [], false)
    else
      var hasMessage := !p.message.MNone?;
      var e := if hasMessage then Accept(p.message, []) else Encoded(JNull, []);
      var hasBinary := |e.buffers| > 0;
      var kind := BinaryKind(Determined(p.kind), hasBinary);
      var text :=
        head + W.IntText(kind)
        + (if hasBinary then Decimal(|e.buffers|) + [0x2D] else [])
        + NspText(p, hasMessage)
        + (if p.packId >= 0 then W.IntText(p.packId) else [])
        + (if hasMessage then W.Print(true, e.value) else []);
      Accepted(kind, text, e.buffers, hasBinary)
  }

  /** The namespace, unless it is the default one, and the comma behind it. */
  function NspText(p: Packet, hasMessage: bool): bytes {
    if p.nsp == [] || p.nsp == SLASH then []
    else p.nsp + if hasMessage || p.packId >= 0 then [0x2C] else []
  }

  // parse

  datatype Outcome = Done | More | Throws | Aborts

  datatype Parsed = Parsed(outcome: Outcome, packet: Packet)

  /** A char minus '0': a char is signed. */
  function CharValue(c: byte): int {
    if c < 0x80 then c - 0x30 else c - 0x100 - 0x30
  }

  /** find and find_first_of: the first position from `p` on whose byte is in the set, or the length. */
  function FindFirst(s: bytes, among: bytes, p: nat): (q: nat)
    ensures q <= |s|
    ensures q < |s| ==> p <= q && s[q] in among
    ensures forall i :: p <= i < q ==> s[i] !in among
    decreases Left(s, p)
  {
    if p >= |s| then |s| else if s[p] in among then p else FindFirst(s, among, p + 1)
  }

  function WithoutPlus(t: bytes): bytes {
    if t != [] && t[0] == 0x2B then t[1..] else t
  }

  /** lexical_cast<unsigned>, on decimal digits behind an optional plus; a minus cannot occur. */
  function LexUnsigned(t: bytes): Option<nat> {
    var d := WithoutPlus(t);
    if d != [] && AllDigits(d) && Value(d) < TWO_TO_THE_32 then Some(Value(d)) else None
  }

  /** lexical_cast<int>, on decimal digits behind an optional sign. */
  function LexInt(t: bytes): Option<int> {
    if t != [] && t[0] == 0x2D then
      if |t| > 1 && AllDigits(t[1..]) && Value(t[1..]) <= TWO_TO_THE_31 then
        var n: int := Value(t[1..]);
        Some(-n)
      else None
    else
      var d := WithoutPlus(t);
      if d != [] && AllDigits(d) && Value(d) < TWO_TO_THE_31 then Some(Value(d)) else None
  }

  const JSON_STARTS: bytes := [0x22, 0x5B, 0x7B]       // "[{
  const NSP_OR_JSON: bytes := [0x7B, 0x5B, 0x22, 0x2F] // {["/

  function IsBinaryKind(kind: int): bool {
    kind == TYPE_BINARY_EVENT || kind == TYPE_BINARY_ACK
  }

  /** The packet that the empty constructor makes. */
  const EMPTY: Packet := Packet(0, UNDETERMINED, [], -1, MNone, 0, [])

  /** packet::parse on the packet `p0`. */
  function Parse(p0: Packet, s: bytes): (r: Parsed)
    ensures r.outcome == More ==> r.packet.buffers != []
  {
    var p := p0.(frame := CharValue(Peek(s, 0)), message := MNone, packId := -1, buffers := [], pending := 0);
    if p.frame == FRAME_MESSAGE then
      var p1 := p.(kind := CharValue(Peek(s, 1)));
      if p1.kind < 0 || p1.kind > TYPE_MAX then Parsed(Done, p1)
      else if IsBinaryKind(p1.kind) then ParseCount(p1, s)
      else ParseNsp(p1, s, 2)
    else ParseNsp(p, s, 1)
  }

  /** The number of attachments; without a dash the search for the namespace starts over at 0. */
  function ParseCount(p: Packet, s: bytes): (r: Parsed)
    ensures r.outcome == More ==> r.packet.buffers != []
  {
    var dash := FindFirst(s, [0x2D], 0);
    var count := if dash < 2 then None else LexUnsigned(s[2..dash]);
    if count == None then Parsed(Throws, p)
    else ParseNsp(p.(pending := count.value), s, if dash == |s| then 0 else dash + 1)
  }

  function ParseNsp(p: Packet, s: bytes, pos: nat): (r: Parsed)
    ensures r.outcome == More ==> r.packet.buffers != []
  {
    var start := FindFirst(s, NSP_OR_JSON, pos);
    if start == |s| then Parsed(Done, p.(nsp := SLASH))
    else if s[start] == 0x2F then
      var comma := FindFirst(s, [0x2C], 0);
      if comma == |s| then Parsed(Done, p.(nsp := s[start..]))
      else
        var p1 := p.(nsp := if comma < start then s[start..] else s[start..comma]);
        var json := FindFirst(s, JSON_STARTS, comma + 1);
        if json == |s| then Parsed(Done, p1) else ParseBody(p1, s, comma + 1, json)
    else ParseBody(p.(nsp := SLASH), s, pos, start)
  }

  /** The packet id between `pos` and `json`, and the JSON text from `json` on. */
  function ParseBody(p: Packet, s: bytes, pos: nat, json: nat): (r: Parsed)
    requires json < |s|
    ensures r.outcome == More ==> r.packet.buffers != []
  {
    var id := if pos < json then LexInt(s[pos..json]) else Some(p.packId);
    if id == None then Parsed(Throws, p)
    else
      var p1 := p.(packId := id.value);
      if p.frame == FRAME_MESSAGE && IsBinaryKind(p.kind) then Parsed(More, p1.(buffers := [s[json..]]))
      else
        var m := FromText(s[json..], []);
        if m == None then Parsed(Aborts, p1) else Parsed(Done, p1.(message := m.value))
  }

  /** Document::Parse with no flags, then from_json. */
  function FromText(t: bytes, buffers: seq<bytes>): Option<Msg> {
    FromJson(D.ParseStream(t, R.Flags(false, false)), buffers)
  }

  /** packet::parse_buffer */
  function ParseBuffer(p: Packet, payload: bytes): (r: Parsed)
    requires payload != [] && (p.pending > 0 ==> p.buffers != [])
    ensures r.outcome == More ==> r.packet.buffers != []
  {
    if p.pending == 0 then Parsed(Done, p)
    else
      var p1 := p.(buffers := p.buffers + [payload[1..]], pending := p.pending - 1);
      if p1.pending > 0 then Parsed(More, p1)
      else
        var m := FromText(p1.buffers[0], p1.buffers[1..]);
        if m == None then Parsed(Aborts, p1.(buffers := p1.buffers[1..]))
        else Parsed(Done, p1.(message := m.value, buffers := []))
  }

  predicate IsBinary(payload: bytes) {
    payload != [] && payload[0] == 4
  }

  predicate IsText(payload: bytes) {
    payload != [] && payload[0] == 0x34
  }
}
