/** The classes of sio_packet.cpp: the accept_message family, from_json, packet and packet_manager. */
module Packets {
  import opened Bytes
  import opened Json
  import opened MessageSpec
  import S = PacketSpec
  import M = ManagerSpec
  import W = WriterSpec
  import R = ReaderSpec
  import D = DocumentSpec
  import Wire = WireRoundTrip

  /** A vector of buffers that accept_message and its callees share. */
  class Buffers {
    var list: seq<bytes>

    constructor ()
      ensures list == []
    {
      list := [];
    }
  }

  /** accept_message: the value, with the attachments pushed behind those already there. */
  method AcceptMessage(msg: Msg, buffers: Buffers) returns (val: Json)
    requires NoNone(msg)
    modifies buffers
    ensures Encoded(val, buffers.list) == Accept(msg, old(buffers.list))
    decreases msg, 1
  {
    match msg
    case MInt(n) => val := JInt(n);
    case MDouble(t) => val := JDouble(t);
    case MString(s) => val := JString(s);
    case MBool(b) => val := JBool(b);
    case MNull => val := JNull;
    case MBinary(data) =>
      val := Placeholder(ToInt32(|buffers.list|));
      buffers.list := buffers.list + [[4] + data];
    case MArray(items) => val := AcceptArray(items, buffers);
    case MObject(entries) => val := AcceptObject(entries, buffers);
  }

  method AcceptArray(items: seq<Msg>, buffers: Buffers) returns (val: Json)
    requires forall i :: 0 <= i < |items| ==> NoNone(items[i])
    modifies buffers
    ensures var r := AcceptItems(items, old(buffers.list)); val == JArray(r.0) && buffers.list == r.1
    decreases items, 0
  {
    hide Accept, NoNone;
    var children: seq<Json> := [];
    var i := 0;
    assert items[0..] == items;
    assert forall rest: seq<Json> :: [] + rest == rest;
    while i < |items|
      invariant i <= |items|
      invariant var whole, rest := AcceptItems(items, old(buffers.list)), AcceptItems(items[i..], buffers.list);
                whole == (children + rest.0, rest.1)
    {
      var was := buffers.list;
      assert items[i..][0] == items[i] && items[i..][1..] == items[i + 1..];
      var child := AcceptMessage(items[i], buffers);
      var rest := AcceptItems(items[i + 1..], buffers.list);
      assert AcceptItems(items[i..], was) == ([child] + rest.0, rest.1);
      assert children + ([child] + rest.0) == (children + [child]) + rest.0;
      children := children + [child];
      i := i + 1;
    }
    assert items[|items|..] == [];
    assert children + [] == children;
    val := JArray(children);
  }

  method AcceptObject(entries: seq<Entry>, buffers: Buffers) returns (val: Json)
    requires forall i :: 0 <= i < |entries| ==> NoNone(entries[i].value)
    modifies buffers
    ensures var r := AcceptEntries(entries, old(buffers.list)); val == JObject(r.0) && buffers.list == r.1
    decreases entries, 0
  {
    hide Accept, NoNone;
    var members: seq<Member> := [];
    var i := 0;
    assert entries[0..] == entries;
    assert forall rest: seq<Member> :: [] + rest == rest;
    while i < |entries|
      invariant i <= |entries|
      invariant var whole, rest := AcceptEntries(entries, old(buffers.list)), AcceptEntries(entries[i..], buffers.list);
                whole == (members + rest.0, rest.1)
    {
      var was := buffers.list;
      assert entries[i..][0] == entries[i] && entries[i..][1..] == entries[i + 1..];
      var value := AcceptMessage(entries[i].value, buffers);
      var member := Member(entries[i].key, value);
      var rest := AcceptEntries(entries[i + 1..], buffers.list);
      assert AcceptEntries(entries[i..], was) == ([member] + rest.0, rest.1);
      assert members + ([member] + rest.0) == (members + [member]) + rest.0;
      members := members + [member];
      i := i + 1;
    }
    assert entries[|entries|..] == [];
    assert members + [] == members;
    val := JObject(members);
  }

  /** from_json; `None` where an assertion of the JSON library fails. */
  method ReadMessage(value: Json, buffers: seq<bytes>) returns (msg: Option<Msg>)
    ensures msg == FromJson(value, buffers)
    decreases value, 1
  {
    match value
    case JInt(n) => msg := Some(if FitsInt64(n) then MInt(n) else MNone);
    case JDouble(t) => msg := Some(MDouble(t));
    case JString(s) => msg := Some(MString(s));
    case JBool(b) => msg := Some(MBool(b));
    case JNull => msg := Some(MNull);
    case JArray(items) => msg := ReadArray(items, buffers);
    case JObject(members) =>
      var mark := Find(members, PLACEHOLDER);
      if mark.Some? && !mark.value.JBool? {
        msg := None;
      } else if mark.Some? && mark.value.b {
        msg := FromPlaceholder(Find(members, NUM), buffers);
      } else {
        msg := ReadObject(members, buffers);
      }
  }

  method ReadArray(items: seq<Json>, buffers: seq<bytes>) returns (msg: Option<Msg>)
    ensures var r := FromItems(items, buffers); msg == if r == None then None else Some(MArray(r.value))
    decreases items, 0
  {
    hide FromJson;
    var children: seq<Msg> := [];
    var i := 0;
    assert items[0..] == items;
    assert forall rest: seq<Msg> :: [] + rest == rest;
    while i < |items|
      invariant i <= |items|
      invariant var whole, rest := FromItems(items, buffers), FromItems(items[i..], buffers);
                whole == if rest == None then None else Some(children + rest.value)
    {
      assert items[i..][0] == items[i] && items[i..][1..] == items[i + 1..];
      var child := ReadMessage(items[i], buffers);
      if child == None {
        return None;
      }
      var rest := FromItems(items[i + 1..], buffers);
      assert rest.Some? ==> children + ([child.value] + rest.value) == (children + [child.value]) + rest.value;
      children := children + [child.value];
      i := i + 1;
    }
    assert items[|items|..] == [];
    assert children + [] == children;
    msg := Some(MArray(children));
  }

  method ReadObject(members: seq<Member>, buffers: seq<bytes>) returns (msg: Option<Msg>)
    ensures var r := FromMembers(members, buffers, []); msg == if r == None then None else Some(MObject(r.value))
    decreases members, 0
  {
    hide FromJson, MapPut;
    var entries: seq<Entry> := [];
    var i := 0;
    while i < |members|
      invariant i <= |members|
      invariant FromMembers(members, buffers, []) == FromMembers(members[i..], buffers, entries)
    {
      assert members[i..][0] == members[i] && members[i..][1..] == members[i + 1..];
      var value := ReadMessage(members[i].value, buffers);
      if value == None {
        return None;
      }
      entries := MapPut(entries, members[i].name, value.value);
      i := i + 1;
    }
    assert members[|members|..] == [];
    msg := Some(MObject(entries));
  }

  class Packet {
    var frame: int
    var kind: int
    var nsp: bytes
    var packId: int
    var message: Msg
    var pending: nat
    var buffers: seq<bytes>

    function Value(): S.Packet
      reads this
    {
      S.Packet(frame, kind, nsp, packId, message, pending, buffers)
    }

    /** The constructor for an event, or for an ack, which has an id. */
    constructor MakeMessage(nsp: bytes, message: Msg, packId: int, isAck: bool)
      requires isAck ==> packId >= 0
      ensures Value() == S.MakeMessage(nsp, message, packId, isAck)
    {
      frame, kind := S.FRAME_MESSAGE, (if isAck then S.TYPE_ACK else S.TYPE_EVENT) + S.UNDETERMINED;
      this.nsp, this.packId, this.message := nsp, packId, message;
      pending, buffers := 0, [];
    }

    constructor ()
      ensures Value() == S.EMPTY
    {
      frame, kind, nsp, packId, message, pending, buffers := 0, S.UNDETERMINED, [], -1, MNone, 0, [];
    }

    /** parse: whether attachments are missing, or that a conversion threw or an assertion failed. */
    method Parse(payload: bytes) returns (r: S.Outcome)
      requires !S.IsBinary(payload)
      modifies this
      ensures S.Parsed(r, Value()) == S.Parse(old(Value()), payload)
    {
      hide S.ParseNsp, S.LexUnsigned, S.FindFirst, S.CharValue;
      frame := S.CharValue(Peek(payload, 0));
      message, packId, buffers, pending := MNone, -1, [], 0;
      var pos := 1;
      if frame == S.FRAME_MESSAGE {
        kind := S.CharValue(Peek(payload, pos));
        if kind < 0 || kind > S.TYPE_MAX {
          return S.Done;
        }
        pos := pos + 1;
        if S.IsBinaryKind(kind) {
          var dash := S.FindFirst(payload, [0x2D], 0);
          var count := if dash < pos then None else S.LexUnsigned(payload[pos..dash]);
          if count == None {
            return S.Throws;
          }
          pending := count.value;
          pos := if dash == |payload| then 0 else dash + 1;
        }
      }
      r := ParseNsp(payload, pos);
    }

    /** The rest of parse: the namespace, the id and the JSON text. */
    method ParseNsp(payload: bytes, start: nat) returns (r: S.Outcome)
      requires buffers == []
      modifies this
      ensures S.Parsed(r, Value()) == S.ParseNsp(old(Value()), payload, start)
    {
      hide S.ParseBody, S.FindFirst;
      var pos, json := start, S.FindFirst(payload, S.NSP_OR_JSON, start);
      if json == |payload| {
        nsp := S.SLASH;
        return S.Done;
      }
      if payload[json] == 0x2F {
        var comma := S.FindFirst(payload, [0x2C], 0);
        if comma == |payload| {
          nsp := payload[json..];
          return S.Done;
        }
        nsp := if comma < json then payload[json..] else payload[json..comma];
        pos := comma + 1;
        json := S.FindFirst(payload, S.JSON_STARTS, pos);
        if json == |payload| {
          return S.Done;
        }
      } else {
        nsp := S.SLASH;
      }
      r := ParseBody(payload, pos, json);
    }

    /** The id, when there is one, and the JSON text, which waits when there are attachments. */
    method ParseBody(payload: bytes, pos: nat, json: nat) returns (r: S.Outcome)
      requires buffers == [] && json < |payload|
      modifies this
      ensures S.Parsed(r, Value()) == S.ParseBody(old(Value()), payload, pos, json)
    {
      hide S.FromText, D.ParseStream, FromJson, S.LexInt;
      if pos < json {
        var id := S.LexInt(payload[pos..json]);
        if id == None {
          return S.Throws;
        }
        packId := id.value;
      }
      if frame == S.FRAME_MESSAGE && S.IsBinaryKind(kind) {
        buffers := buffers + [payload[json..]];
        return S.More;
      }
      var m := ReadText(payload[json..], []);
      if m == None {
        return S.Aborts;
      }
      message := m.value;
      r := S.Done;
    }

    /** parse_buffer: takes one attachment; behind the last one builds the message. */
    method ParseBuffer(payload: bytes) returns (r: S.Outcome)
      requires S.IsBinary(payload) && (pending > 0 ==> buffers != [])
      modifies this
      ensures S.Parsed(r, Value()) == S.ParseBuffer(old(Value()), payload)
    {
      hide S.FromText, D.ParseStream, FromJson;
      if pending == 0 {
        return S.Done;
      }
      buffers := buffers + [payload[1..]];
      pending := pending - 1;
      if pending > 0 {
        return S.More;
      }
      var text := buffers[0];
      buffers := buffers[1..];
      var m := ReadText(text, buffers);
      if m == None {
        return S.Aborts;
      }
      message := m.value;
      buffers := [];
      r := S.Done;
    }

    /** accept: fixes the type, and gives the text frame and the attachments. */
    method Accept(out: Buffers) returns (payload: bytes, hasBinary: bool)
      requires message.MNone? || NoNone(message)
      requires out.list == []
      modifies this`kind, out
      ensures var a := S.AcceptPacket(old(Value()));
              && payload == a.payload && out.list == a.buffers && hasBinary == a.hasBinary
              && Value() == old(Value()).(kind := a.kind)
    {
      hide MessageSpec.Accept, W.Print, NoNone, Decimal;
      payload := [(frame + 0x30) % 0x100];
      if frame != S.FRAME_MESSAGE {
        return payload, false;
      }
      var hasMessage, doc := false, JNull;
      if !message.MNone? {
        doc := AcceptMessage(message, out);
        hasMessage := true;
      }
      hasBinary := |out.list| > 0;
      kind := S.Determined(kind);
      if kind == S.TYPE_EVENT {
        kind := if hasBinary then S.TYPE_BINARY_EVENT else S.TYPE_EVENT;
      } else if kind == S.TYPE_ACK {
        kind := if hasBinary then S.TYPE_BINARY_ACK else S.TYPE_ACK;
      }
      payload := payload + W.IntText(kind);
      var count: bytes := if hasBinary then Decimal(|out.list|) + [0x2D] else [];
      payload := payload + count + S.NspText(Value(), hasMessage);
      var id: bytes := if packId >= 0 then W.IntText(packId) else [];
      payload := payload + id;
      var text: bytes := if hasMessage then W.Print(true, doc) else [];
      payload := payload + text;
    }
  }

  /** Document::Parse on a text, then from_json on what it read. */
  method ReadText(text: bytes, buffers: seq<bytes>) returns (msg: Option<Msg>)
    ensures msg == S.FromText(text, buffers)
  {
    hide D.ParseStream, FromJson;
    var doc := D.ParseStream(text, R.Flags(false, false));
    msg := ReadMessage(doc, buffers);
  }

  /** One call of the encode callback. */
  datatype Frame = Frame(isBinary: bool, payload: bytes)

  class PacketManager {
    var partial: Packet?
    /** What the encode callback and the decode callback were given. */
    var sent: seq<Frame>
    var received: seq<S.Packet>

    ghost predicate Valid()
      reads this, partial
    {
      partial != null ==> partial.buffers != []
    }

    ghost function Value(): M.Manager
      reads this, partial
    {
      M.Manager(if partial == null then None else Some(partial.Value()), received, false)
    }

    constructor ()
      ensures Valid() && Value() == M.IDLE && sent == []
    {
      partial, sent, received := null, [], [];
    }

    method Reset()
      modifies this`partial
      ensures Valid() && Value() == old(Value()).(partial := None)
    {
      partial := null;
    }

    /** encode: the text frame, then the attachments. */
    method Encode(pack: Packet)
      requires pack.message.MNone? || NoNone(pack.message)
      modifies this`sent, pack`kind
      ensures var a := S.AcceptPacket(old(pack.Value()));
              && pack.Value() == old(pack.Value()).(kind := a.kind)
              && sent == old(sent) + Frames(Wire.Encode(old(pack.Value())))
    {
      hide S.AcceptPacket;
      ghost var a := S.AcceptPacket(pack.Value());
      NoBuffers(pack.Value());
      var buffers := new Buffers();
      var payload, hasBinary := pack.Accept(buffers);
      sent := sent + [Frame(false, payload)];
      ghost var frames := Frames([payload] + buffers.list);
      assert frames[..1] == [Frame(false, payload)];
      if hasBinary {
        var i := 0;
        while i < |buffers.list|
          invariant i <= |buffers.list|
          invariant sent == old(sent) + frames[..i + 1]
          modifies this`sent
        {
          sent := sent + [Frame(true, buffers.list[i])];
          assert frames[..i + 2] == frames[..i + 1] + [Frame(true, buffers.list[i])];
          i := i + 1;
        }
      }
      assert frames[..|frames|] == frames;
    }

    /** put_payload: `Done` when a packet was handed on; an assertion that fails leaves nothing to say. */
    method PutPayload(payload: bytes) returns (r: S.Outcome)
      requires Valid()
      modifies this`partial, this`received, partial
      ensures r != S.Aborts ==> Valid()
      ensures r == S.Done <==> received != old(received)
      ensures r != S.Aborts ==> Value() == M.PutPayload(old(Value()), payload)
      ensures r == S.Aborts ==> M.PutPayload(old(Value()), payload).aborted
    {
      hide S.ParseNsp, S.FromText;
      if S.IsBinary(payload) {
        if partial == null {
          return S.More;
        }
        r := partial.ParseBuffer(payload);
        if r == S.Done {
          var p := partial;
          partial := null;
          received := received + [p.Value()];
        }
      } else {
        var p := new Packet();
        r := p.Parse(payload);
        assert S.Parsed(r, p.Value()) == S.Parse(S.EMPTY, payload);
        if r == S.More {
          partial := p;
        } else if r == S.Done {
          received := received + [p.Value()];
        }
      }
    }
  }

  /** Without attachments accept reports none. */
  lemma NoBuffers(p: S.Packet)
    requires p.message.MNone? || NoNone(p.message)
    ensures var a := S.AcceptPacket(p); a.hasBinary == (|a.buffers| > 0)
  {
    hide Accept, W.Print, Decimal, NoNone;
  }

  /** How the callback is called with the payloads: only the first is text. */
  function Frames(payloads: seq<bytes>): seq<Frame> {
    seq(|payloads|, i requires 0 <= i < |payloads| => Frame(i > 0, payloads[i]))
  }
}
