/** packet_manager: which packets a sequence of payloads dispatches, and the wire round trip. */
module ManagerSpec {
  import opened Bytes
  import opened Json
  import opened MessageSpec
  import opened PacketSpec

  /** The partial packet, the packets handed to the callback, and whether an assertion has failed. */
  datatype Manager = Manager(partial: Option<Packet>, out: seq<Packet>, aborted: bool) {
    function Dispatch(p: Packet): Manager { this.(out := out + [p]) }
  }

  const IDLE: Manager := Manager(None, [], false)

  /** A partial packet still has the text that its attachments belong to. */
  predicate Valid(m: Manager) {
    m.partial.Some? ==> m.partial.value.buffers != []
  }

  /** put_payload. A conversion that throws leaves the manager as it was. */
  function PutPayload(m: Manager, payload: bytes): (r: Manager)
    requires Valid(m)
    ensures Valid(r)
  {
    if m.aborted then m
    else if IsBinary(payload) then PutBinary(m, payload)
    else PutText(m, Parse(EMPTY, payload))
  }

  /** A payload that is parsed at once, by what the parse gave. */
  function PutText(m: Manager, r: Parsed): Manager {
    match r.outcome
    case More => m.(partial := Some(r.packet))
    case Done => m.Dispatch(r.packet)
    case Throws => m
    case Aborts => m.(aborted := true)
  }

  function PutBinary(m: Manager, payload: bytes): Manager
    requires Valid(m) && IsBinary(payload)
  {
    if m.partial == None then m
    else
      var r := ParseBuffer(m.partial.value, payload);
      match r.outcome
      case More => m.(partial := Some(r.packet))
      case Done => m.(partial := None).Dispatch(r.packet)
      case _ => m.(aborted := true)
  }

  function PutAll(m: Manager, payloads: seq<bytes>): (r: Manager)
    requires Valid(m)
    ensures Valid(r)
    decreases |payloads|
  {
    if payloads == [] then m else PutAll(PutPayload(m, payloads[0]), payloads[1..])
  }

  lemma {:induction false} PutAllConcat(m: Manager, a: seq<bytes>, b: seq<bytes>)
    requires Valid(m)
    ensures PutAll(m, a + b) == PutAll(PutAll(m, a), b)
    decreases |a|
  {
    hide PutPayload;
    if a == [] {
      assert a + b == b;
    } else {
      assert (a + b)[1..] == a[1..] + b;
      PutAllConcat(PutPayload(m, a[0]), a[1..], b);
    }
  }

  lemma PutOne(m: Manager, payload: bytes)
    requires Valid(m)
    ensures PutAll(m, [payload]) == PutPayload(m, payload)
  {
    hide PutPayload;
    assert [payload][1..] == [];
    assert PutAll(PutPayload(m, payload), []) == PutPayload(m, payload);
  }

  // Reassembly

  /** Payloads that may come between an announcing header and its attachments. */
  predicate Between(payloads: seq<bytes>) {
    forall i :: 0 <= i < |payloads| && !IsBinary(payloads[i]) ==>
      Parse(EMPTY, payloads[i]).outcome == Done || Parse(EMPTY, payloads[i]).outcome == Throws
  }

  function PlainPacket(payload: bytes): seq<Packet> {
    if !IsBinary(payload) && Parse(EMPTY, payload).outcome == Done then [Parse(EMPTY, payload).packet] else []
  }

  /** What the text payloads dispatch, in order. */
  function PlainPackets(payloads: seq<bytes>): seq<Packet> {
    if payloads == [] then [] else PlainPacket(payloads[0]) + PlainPackets(payloads[1..])
  }

  function AttachedOne(payload: bytes): seq<bytes> {
    if IsBinary(payload) then [payload[1..]] else []
  }

  /** The contents of the binary payloads, in order of arrival. */
  function Attached(payloads: seq<bytes>): seq<bytes> {
    if payloads == [] then [] else AttachedOne(payloads[0]) + Attached(payloads[1..])
  }

  lemma IdleStep(m: Manager, payload: bytes)
    requires m.partial == None && !m.aborted && Between([payload])
    ensures PutPayload(m, payload) == m.(out := m.out + PlainPacket(payload))
  {
    hide Parse;
    assert [payload][0] == payload;
    assert m.out + [] == m.out;
  }

  lemma CollectStep(m: Manager, payload: bytes)
    requires m.partial.Some? && Valid(m) && !m.aborted && Between([payload])
    requires |AttachedOne(payload)| < m.partial.value.pending
    ensures var p := m.partial.value;
            PutPayload(m, payload) ==
            m.(out := m.out + PlainPacket(payload),
               partial := Some(p.(pending := p.pending - |AttachedOne(payload)|,
                                  buffers := p.buffers + AttachedOne(payload))))
  {
    hide Parse, FromText;
    var p := m.partial.value;
    assert [payload][0] == payload;
    assert m.out + [] == m.out && p.buffers + [] == p.buffers;
  }

  lemma BetweenParts(payloads: seq<bytes>)
    requires payloads != [] && Between(payloads)
    ensures Between([payloads[0]]) && Between(payloads[1..])
  {
    hide Parse;
  }

  /** Without a partial packet, binary payloads dispatch nothing and plain packets go out at once. */
  lemma {:induction false} StrayBinariesIgnored(m: Manager, payloads: seq<bytes>)
    requires m.partial == None && !m.aborted && Between(payloads)
    ensures PutAll(m, payloads) == m.(out := m.out + PlainPackets(payloads))
    decreases |payloads|
  {
    hide Between, PutPayload, PlainPacket;
    if payloads == [] {
      assert m.out + [] == m.out;
    } else {
      BetweenParts(payloads);
      IdleStep(m, payloads[0]);
      var m1 := PutPayload(m, payloads[0]);
      StrayBinariesIgnored(m1, payloads[1..]);
      assert m1.out + PlainPackets(payloads[1..]) == m.out + PlainPackets(payloads);
    }
  }

  /**
   * While attachments are missing, the partial packet collects them in order of arrival; plain packets
   * in between go out at once and do not disturb it.
   */
  lemma {:induction false} Collects(m: Manager, payloads: seq<bytes>)
    requires m.partial.Some? && Valid(m) && !m.aborted && Between(payloads)
    requires |Attached(payloads)| < m.partial.value.pending
    ensures var p := m.partial.value;
            PutAll(m, payloads) ==
            m.(out := m.out + PlainPackets(payloads),
               partial := Some(p.(pending := p.pending - |Attached(payloads)|,
                                  buffers := p.buffers + Attached(payloads))))
    decreases |payloads|
  {
    hide Between, PutPayload, PlainPacket, AttachedOne;
    var p := m.partial.value;
    if payloads == [] {
      assert m.out + [] == m.out && p.buffers + [] == p.buffers;
    } else {
      BetweenParts(payloads);
      CollectStep(m, payloads[0]);
      var m1 := PutPayload(m, payloads[0]);
      Collects(m1, payloads[1..]);
      assert m1.out + PlainPackets(payloads[1..]) == m.out + PlainPackets(payloads);
      assert m1.partial.value.buffers + Attached(payloads[1..]) == p.buffers + Attached(payloads);
    }
  }

  /** The packet that a partial packet becomes with all its attachments. */
  function Completed(p: Packet, attachments: seq<bytes>, message: Msg): Packet {
    p.(message := message, buffers := [], pending := 0)
  }

  /**
   * A partial packet that waits for n attachments is dispatched exactly once, on the n-th: after the
   * plain packets before it, before the plain packets behind it, with its message built from the
   * attachments in order of arrival. Later binary payloads dispatch nothing.
   */
  lemma {:induction false} DispatchedOnLast(
      m: Manager, before: seq<bytes>, last: bytes, after: seq<bytes>, message: Msg)
    requires m.partial.Some? && Valid(m) && !m.aborted && Between(before) && Between(after) && IsBinary(last)
    requires |Attached(before)| + 1 == m.partial.value.pending
    requires var p := m.partial.value;
             FromText(p.buffers[0], p.buffers[1..] + Attached(before) + [last[1..]]) == Some(message)
    ensures PutAll(m, before + [last] + after) ==
            Manager(None,
                    m.out + PlainPackets(before) + [Completed(m.partial.value, Attached(before) + [last[1..]], message)]
                    + PlainPackets(after), false)
  {
    hide Parse, FromText, Between, PlainPackets, Attached, PutAll;
    var p := m.partial.value;
    Collects(m, before);
    var m1 := PutAll(m, before);
    var buffers := m1.partial.value.buffers + [last[1..]];
    assert buffers[0] == p.buffers[0];
    assert buffers[1..] == p.buffers[1..] + Attached(before) + [last[1..]];
    PutOne(m1, last);
    PutAllConcat(m, before, [last]);
    StrayBinariesIgnored(PutPayload(m1, last), after);
    PutAllConcat(m, before + [last], after);
  }

  /** A partial packet whose text, with all attachments, fails an assertion. */
  lemma {:induction false} AbortsOnLast(m: Manager, before: seq<bytes>, last: bytes)
    requires m.partial.Some? && Valid(m) && !m.aborted && Between(before) && IsBinary(last)
    requires |Attached(before)| + 1 == m.partial.value.pending
    requires var p := m.partial.value;
             FromText(p.buffers[0], p.buffers[1..] + Attached(before) + [last[1..]]) == None
    ensures PutAll(m, before + [last]).aborted
  {
    hide Parse, FromText;
    var p := m.partial.value;
    Collects(m, before);
    var m1 := PutAll(m, before);
    var buffers := m1.partial.value.buffers + [last[1..]];
    assert buffers[0] == p.buffers[0];
    assert buffers[1..] == p.buffers[1..] + Attached(before) + [last[1..]];
    PutOne(m1, last);
    PutAllConcat(m, before, [last]);
  }

  /** A header that announces no attachment waits for a binary payload all the same, and then carries no message. */
  lemma ZeroAnnounced(m: Manager, payload: bytes)
    requires m.partial.Some? && Valid(m) && !m.aborted && m.partial.value.pending == 0 && IsBinary(payload)
    ensures PutPayload(m, payload) == Manager(None, m.out + [m.partial.value], false)
  {
  }
}
