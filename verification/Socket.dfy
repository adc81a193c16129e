/** socket::impl, when one thread runs it: the packet queue, the connection flag and the callbacks. */
module Socket {
  import opened Bytes
  import opened MessageSpec
  import P = PacketSpec
  import A = Acks
  import Wire = WireRoundTrip

  /** One call of emit: an event's name and arguments, and whether there is a callback. */
  datatype Emission = Emission(name: bytes, list: seq<Msg>, ack: bool)

  /** The packet of an emission under the id that comes next. */
  function PacketOf(nsp: bytes, e: Emission, nextId: nat): P.Packet {
    P.MakeMessage(nsp, MArray([MString(e.name)] + e.list), if e.ack then ToInt32(nextId) else -1, false)
  }

  function Registered(a: A.Acks, e: Emission): A.Acks {
    if e.ack then A.Register(a) else a
  }

  /** The packets of several emissions, in order. */
  function PacketsOf(nsp: bytes, es: seq<Emission>, a: A.Acks): seq<P.Packet> {
    if es == [] then []
    else [PacketOf(nsp, es[0], a.nextId)] + PacketsOf(nsp, es[1..], Registered(a, es[0]))
  }

  function RegisteredAll(a: A.Acks, es: seq<Emission>): A.Acks
    decreases |es|
  {
    if es == [] then a else RegisteredAll(Registered(a, es[0]), es[1..])
  }

  class Socket {
    /** Whether m_client is set. */
    var client: bool
    var connected: bool
    const nsp: bytes
    var queue: seq<P.Packet>
    var acks: A.Acks
    /** What m_client->send was given. */
    var sent: seq<P.Packet>

    /** `taken` ids have been handed out before. */
    constructor (nsp: bytes, taken: nat)
      ensures client && !connected && this.nsp == nsp && queue == [] && acks == A.Fresh(taken) && sent == []
    {
      client, connected, this.nsp := true, false, nsp;
      queue, acks, sent := [], A.Fresh(taken), [];
    }

    /** Another socket takes an id from the counter that all share. */
    method TakeIdElsewhere()
      modifies this`acks
      ensures acks == A.Elsewhere(old(acks))
    {
      acks := acks.(nextId := (acks.nextId + 1) % TWO_TO_THE_32, taken := acks.taken + 1);
    }

    /** A connected socket sends the queue and then the packet; otherwise the packet is queued. */
    method SendPacket(p: P.Packet)
      modifies this`queue, this`sent
      ensures !client ==> queue == old(queue) && sent == old(sent)
      ensures client && connected ==> queue == [] && sent == old(sent) + old(queue) + [p]
      ensures client && !connected ==> queue == old(queue) + [p] && sent == old(sent)
    {
      if !client {
        return;
      }
      if connected {
        Drain();
        sent := sent + [p];
      } else {
        queue := queue + [p];
      }
    }

    /** The loop of send_packet and on_connected: pop the front, send it. */
    method Drain()
      modifies this`queue, this`sent
      ensures queue == [] && sent == old(sent) + old(queue)
    {
      ghost var all := queue;
      while true
        invariant sent + queue == old(sent) + all
        decreases |queue|
      {
        if queue == [] {
          return;
        }
        var front := queue[0];
        assert queue == [front] + queue[1..];
        queue := queue[1..];
        sent := sent + [front];
      }
    }

    method Emit(e: Emission)
      modifies this`queue, this`sent, this`acks
      ensures !client ==> queue == old(queue) && sent == old(sent) && acks == old(acks)
      ensures client ==> acks == Registered(old(acks), e)
      ensures client && connected ==> queue == [] && sent == old(sent) + old(queue) + [PacketOf(nsp, e, old(acks).nextId)]
      ensures client && !connected ==> queue == old(queue) + [PacketOf(nsp, e, old(acks).nextId)] && sent == old(sent)
    {
      if !client {
        return;
      }
      var packId := -1;
      if e.ack {
        packId := ToInt32(acks.nextId);
        acks := A.Register(acks);
      }
      SendPacket(P.MakeMessage(nsp, MArray([MString(e.name)] + e.list), packId, false));
    }

    /**
     * on_connected; the open listener emits `listener` before the queue is drained. What was queued
     * goes out first all the same, then what the listener emitted.
     */
    method OnConnected(listener: seq<Emission>)
      requires client
      modifies this`connected, this`queue, this`sent, this`acks
      ensures connected
      ensures old(connected) ==> queue == old(queue) && sent == old(sent) && acks == old(acks)
      ensures !old(connected) ==>
                && queue == []
                && sent == old(sent) + old(queue) + PacketsOf(nsp, listener, old(acks))
                && acks == RegisteredAll(old(acks), listener)
    {
      if !connected {
        connected := true;
        OnSocketOpened(listener);
        Drain();
      }
    }

    /** The listener's emits, each of which drains the queue. */
    method OnSocketOpened(listener: seq<Emission>)
      requires client && connected
      modifies this`queue, this`sent, this`acks
      ensures sent + queue == old(sent) + old(queue) + PacketsOf(nsp, listener, old(acks))
      ensures acks == RegisteredAll(old(acks), listener)
    {
      var i := 0;
      while i < |listener|
        invariant i <= |listener|
        invariant sent + queue + PacketsOf(nsp, listener[i..], acks)
                  == old(sent) + old(queue) + PacketsOf(nsp, listener, old(acks))
        invariant RegisteredAll(acks, listener[i..]) == RegisteredAll(old(acks), listener)
      {
        assert listener[i..][0] == listener[i] && listener[i..][1..] == listener[i + 1..];
        ghost var p, rest := PacketOf(nsp, listener[i], acks.nextId),
                             PacketsOf(nsp, listener[i + 1..], Registered(acks, listener[i]));
        ghost var was := sent + queue;
        assert was + ([p] + rest) == (was + [p]) + [] + rest;
        Emit(listener[i]);
        i := i + 1;
      }
      assert listener[|listener|..] == [];
      assert sent + queue + [] == sent + queue;
    }

    method OnDisconnect()
      modifies this`connected, this`queue
      ensures !connected || !client
      ensures queue == if client && old(connected) then [] else old(queue)
      ensures !client ==> connected == old(connected)
    {
      if !client {
        return;
      }
      if connected {
        connected := false;
        Clear();
      }
    }

    method OnClose()
      modifies this`client, this`connected, this`queue
      ensures !client
      ensures old(client) ==> !connected && queue == []
      ensures !old(client) ==> connected == old(connected) && queue == old(queue)
    {
      if !client {
        return;
      }
      client := false;
      connected := false;
      Clear();
    }

    method Clear()
      modifies this`queue
      ensures queue == []
    {
      while queue != []
        decreases |queue|
      {
        queue := queue[1..];
      }
    }

    /** on_socketio_ack: whether a callback is called, and which. */
    method OnSocketioAck(msgId: int) returns (callback: Option<nat>)
      modifies this`acks
      ensures acks == A.Answer(old(acks), msgId % TWO_TO_THE_32)
      ensures callback == if msgId % TWO_TO_THE_32 in old(acks).table
                          then Some(old(acks).table[msgId % TWO_TO_THE_32]) else None
    {
      callback := None;
      var id := msgId % TWO_TO_THE_32;
      if id in acks.table {
        callback := Some(acks.table[id]);
        acks := acks.(table := acks.table - {id}, called := acks.called + [acks.table[id]]);
      }
    }
  }

  /** An id is written into the packet, and so can be answered, exactly while it is below 2^31. */
  lemma IdIsWritten(nsp: bytes, e: Emission, nextId: nat)
    requires e.ack && nextId < TWO_TO_THE_32
    ensures Wire.IdText(PacketOf(nsp, e, nextId).packId) != [] <==> nextId < TWO_TO_THE_31
    ensures nextId < TWO_TO_THE_31 ==> Value(Wire.IdText(PacketOf(nsp, e, nextId).packId)) == nextId
  {
    Wire.IdTextIsDigits(ToInt32(nextId));
  }
}
