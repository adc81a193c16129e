/** What encode puts on the wire, put_payload takes off it as the same packet. */
module WireRoundTrip {
  import opened Bytes
  import opened Json
  import opened MessageSpec
  import opened PacketSpec
  import opened ManagerSpec
  import W = WriterSpec
  import R = ReaderSpec
  import D = DocumentSpec
  import RoundTrip

  /** encode: the text frame, then one binary frame for each attachment. */
  function Encode(p: Packet): seq<bytes>
    requires p.message.MNone? || NoNone(p.message)
  {
    var a := AcceptPacket(p);
    [a.payload] + if a.hasBinary then a.buffers else []
  }

  /** A namespace that the text form can carry: the default one, or '/' and no comma. */
  predicate CarriedNsp(nsp: bytes) {
    nsp != [] && nsp[0] == 0x2F && 0x2C !in nsp
  }

  // The message part

  lemma {:induction false} AcceptIsExact(m: Msg, buffers: seq<bytes>)
    requires Carried(m)
    ensures var v := Accept(m, buffers).value;
            Exact(v) && Countable(v) && W.Printable(true, v) && RoundTrip.Valid(D.Input([], R.Flags(false, false)), true, v)
    decreases m, 1
  {
    hide AcceptItems, AcceptEntries, W.Writable;
    match m
    case MArray(items) => AcceptItemsAreExact(items, buffers);
    case MObject(entries) => AcceptEntriesAreExact(entries, buffers);
    case MString(s) => W.WritableIs(true, s, 0);
    case MBinary(data) => PlaceholderIsExact(ToInt32(|buffers|));
    case _ =>
  }

  lemma PlaceholderIsExact(num: int)
    requires FitsInt(num)
    ensures var v := Placeholder(num);
            Exact(v) && Countable(v) && W.Printable(true, v) && RoundTrip.Valid(D.Input([], R.Flags(false, false)), true, v)
  {
    hide W.Writable;
    W.WritableIs(true, PLACEHOLDER, 0);
    W.WritableIs(true, NUM, 0);
  }

  lemma {:induction false} AcceptItemsAreExact(items: seq<Msg>, buffers: seq<bytes>)
    requires forall i :: 0 <= i < |items| ==> Carried(items[i]) && NoNone(items[i])
    ensures forall i :: 0 <= i < |items| ==>
              var v := AcceptItems(items, buffers).0[i];
              Exact(v) && Countable(v) && W.Printable(true, v) && RoundTrip.Valid(D.Input([], R.Flags(false, false)), true, v)
    decreases items, 0
  {
    hide Accept, Exact, Countable, W.Printable, RoundTrip.Valid, Carried, NoNone;
    if items != [] {
      AcceptIsExact(items[0], buffers);
      AcceptItemsAreExact(items[1..], Accept(items[0], buffers).buffers);
    }
  }

  lemma {:induction false} AcceptEntriesAreExact(entries: seq<Entry>, buffers: seq<bytes>)
    requires forall i :: 0 <= i < |entries| ==> Carried(entries[i].value) && NoNone(entries[i].value)
    ensures forall i :: 0 <= i < |entries| ==>
              var m := AcceptEntries(entries, buffers).0[i];
              && Exact(m.value) && Countable(m.value) && W.Printable(true, m.value) && W.Writable(true, m.name, 0)
              && RoundTrip.Valid(D.Input([], R.Flags(false, false)), true, m.value)
    decreases entries, 0
  {
    hide Accept, Exact, Countable, W.Printable, RoundTrip.Valid, Carried, NoNone, W.Writable;
    if entries != [] {
      W.WritableIs(true, entries[0].key, 0);
      AcceptIsExact(entries[0].value, buffers);
      AcceptEntriesAreExact(entries[1..], Accept(entries[0].value, buffers).buffers);
    }
  }

  /** The JSON text of a message, read with its attachments, is the message exactly when it is unmarked. */
  lemma {:induction false} TextUndoesAccept(m: Msg)
    requires Carried(m) && |Binaries(m)| < TWO_TO_THE_31
    ensures FromText(W.Print(true, Accept(m, []).value), Binaries(m)) == Some(m) <==> Unmarked(m)
  {
    hide Accept, FromJson, W.Print, D.ParseStream, Exact, Countable, W.Printable, RoundTrip.Valid, Carried, NoNone, Unmarked;
    var v := Accept(m, []).value;
    AcceptIsExact(m, []);
    D.DocumentReadsBack(true, v, R.Flags(false, false));
    assert Binaries(m)[0..0 + |Binaries(m)|] == Binaries(m);
    FromJsonUndoesAccept(m, [], Binaries(m));
  }

  // The header part

  lemma {:induction false} FindFirstIs(s: bytes, among: bytes, p: nat, q: nat)
    requires p <= q < |s| && s[q] in among && forall i :: p <= i < q ==> s[i] !in among
    ensures FindFirst(s, among, p) == q
  {
    var r := FindFirst(s, among, p);
  }

  /** The text of an id, which may be absent. */
  function IdText(id: int): bytes {
    if id >= 0 then Decimal(id) else []
  }

  lemma IdTextIsDigits(id: int)
    ensures AllDigits(IdText(id))
    ensures id >= 0 ==> IdText(id) != [] && Value(IdText(id)) == id
  {
    if id >= 0 {
      ValueOfDecimal(id);
    }
  }

  /** The header of a message, in its parts. */
  function Header(kind: int, count: nat, nsp: bytes, id: int): bytes
    requires 0 <= kind <= TYPE_MAX
  {
    [0x34, 0x30 + kind] + (if count > 0 then Decimal(count) + [0x2D] else [])
    + (if nsp == SLASH then [] else nsp + [0x2C]) + IdText(id)
  }

  /** The packet that a carried packet arrives as, but for its message. */
  function Arrived(kind: int, nsp: bytes, id: int): Packet {
    Packet(FRAME_MESSAGE, kind, nsp, if id >= 0 then id else -1, MNone, 0, [])
  }

  /** Where the parts of a header and what follows it stand in the text. */
  lemma Parts(head: bytes, mid: bytes, ids: bytes, json: bytes)
    ensures var s := head + mid + ids + json;
            var k := |s| - |json|;
            && s[k..] == json && s[k - |ids|..k] == ids && k == |head| + |mid| + |ids|
            && (forall i :: 0 <= i < |head| ==> s[i] == head[i])
            && (forall i :: |head| <= i < |head| + |mid| ==> s[i] == mid[i - |head|])
            && (forall i :: k - |ids| <= i < k ==> s[i] == ids[i - (k - |ids|)])
            && (json != [] ==> s[k] == json[0])
  {
  }

  /** What ParseNsp makes of the default namespace, the id and a JSON array. */
  lemma {:induction false} ParseDefaultNsp(p: Packet, head: bytes, id: int, json: bytes)
    requires -1 <= id < TWO_TO_THE_31 && json != [] && json[0] == 0x5B
    ensures var s := head + [] + IdText(id) + json;
            var k := |s| - |json|;
            ParseNsp(p, s, |head|) == ParseBody(p.(nsp := SLASH), s, k - |IdText(id)|, k)
  {
    hide ParseBody, Decimal, FindFirst;
    IdTextIsDigits(id);
    Parts(head, [], IdText(id), json);
    var s := head + [] + IdText(id) + json;
    hide IdText;
    FindFirstIs(s, NSP_OR_JSON, |head|, |s| - |json|);
  }

  /** The namespace ends at the first comma of the text. */
  lemma {:induction false} FindNsp(head: bytes, nsp: bytes, rest: bytes)
    requires CarriedNsp(nsp) && 0x2C !in head
    ensures var s, h := head + (nsp + [0x2C]) + rest, |head|;
            && s[h] == 0x2F && s[h..h + |nsp|] == nsp
            && FindFirst(s, NSP_OR_JSON, h) == h && FindFirst(s, [0x2C], 0) == h + |nsp|
  {
    hide FindFirst;
    var s, h := head + (nsp + [0x2C]) + rest, |head|;
    assert s == head + (nsp + ([0x2C] + rest));
    assert s[h..h + |nsp|] == nsp;
    assert forall i :: h <= i < h + |nsp| ==> s[i] == nsp[i - h];
    FindFirstIs(s, NSP_OR_JSON, h, h);
    FindFirstIs(s, [0x2C], 0, h + |nsp|);
  }

  /** The JSON array begins behind the digits of the id. */
  lemma {:induction false} FindJson(front: bytes, ids: bytes, json: bytes)
    requires AllDigits(ids) && json != [] && json[0] == 0x5B
    ensures FindFirst(front + ids + json, JSON_STARTS, |front|) == |front| + |ids|
  {
    hide FindFirst;
    var s := front + ids + json;
    assert forall i :: |front| <= i < |front| + |ids| ==> s[i] == ids[i - |front|];
    FindFirstIs(s, JSON_STARTS, |front|, |front| + |ids|);
  }

  /** What ParseNsp makes of a namespace, its comma, the id and a JSON array. */
  lemma {:induction false} ParseNamedNsp(p: Packet, head: bytes, nsp: bytes, id: int, json: bytes)
    requires CarriedNsp(nsp) && -1 <= id < TWO_TO_THE_31
    requires json != [] && json[0] == 0x5B && 0x2C !in head
    ensures var s := head + (nsp + [0x2C]) + IdText(id) + json;
            var k := |s| - |json|;
            ParseNsp(p, s, |head|) == ParseBody(p.(nsp := nsp), s, k - |IdText(id)|, k)
  {
    hide ParseBody, IdText, FindFirst, CarriedNsp;
    IdTextIsDigits(id);
    FindJson(head + (nsp + [0x2C]), IdText(id), json);
    FindNsp(head, nsp, IdText(id) + json);
    assert head + (nsp + [0x2C]) + IdText(id) + json == head + (nsp + [0x2C]) + (IdText(id) + json);
  }

  /** What ParseNsp makes of the namespace, the id and a JSON array behind them. */
  lemma {:induction false} ParseNspReads(p: Packet, head: bytes, nsp: bytes, id: int, json: bytes)
    requires CarriedNsp(nsp) && -1 <= id < TWO_TO_THE_31
    requires json != [] && json[0] == 0x5B && 0x2C !in head
    ensures var s := head + (if nsp == SLASH then [] else nsp + [0x2C]) + IdText(id) + json;
            var k := |s| - |json|;
            && s[k..] == json && |IdText(id)| <= k
            && ParseNsp(p, s, |head|) == ParseBody(p.(nsp := nsp), s, k - |IdText(id)|, k)
            && s[k - |IdText(id)|..k] == IdText(id)
  {
    hide ParseBody, ParseNsp, IdText;
    var mid: bytes := if nsp == SLASH then [] else nsp + [0x2C];
    Parts(head, mid, IdText(id), json);
    if nsp == SLASH {
      ParseDefaultNsp(p, head, id, json);
    } else {
      ParseNamedNsp(p, head, nsp, id, json);
    }
  }

  lemma ReadId(id: int)
    requires -1 <= id < TWO_TO_THE_31
    ensures id >= 0 ==> IdText(id) != [] && LexInt(IdText(id)) == Some(id)
    ensures id < 0 ==> IdText(id) == []
  {
    IdTextIsDigits(id);
  }

  lemma ReadCount(count: nat)
    requires count < TWO_TO_THE_32
    ensures LexUnsigned(Decimal(count)) == Some(count)
  {
    ValueOfDecimal(count);
  }

  /** The id, and the JSON text behind it. */
  lemma {:induction false} ReadBody(p: Packet, s: bytes, k: nat, id: int, json: bytes)
    requires p.packId == -1 && -1 <= id < TWO_TO_THE_31 && |IdText(id)| <= k < |s|
    requires s[k - |IdText(id)|..k] == IdText(id) && s[k..] == json && p.frame == FRAME_MESSAGE
    ensures var p1, message := p.(packId := if id >= 0 then id else -1), FromText(json, []);
            ParseBody(p, s, k - |IdText(id)|, k) ==
            if IsBinaryKind(p.kind) then Parsed(More, p1.(buffers := [json]))
            else if message == None then Parsed(Aborts, p1)
            else Parsed(Done, p1.(message := message.value))
  {
    hide FromText, LexInt, IdText;
    ReadId(id);
  }

  /** A text frame without attachments. */
  lemma {:induction false} ParsePlain(kind: int, nsp: bytes, id: int, json: bytes)
    requires kind == TYPE_EVENT || kind == TYPE_ACK
    requires CarriedNsp(nsp) && -1 <= id < TWO_TO_THE_31 && json != [] && json[0] == 0x5B
    ensures var s, p, message := Header(kind, 0, nsp, id) + json, Arrived(kind, nsp, id), FromText(json, []);
            Parse(EMPTY, s) ==
            if message == None then Parsed(Aborts, p) else Parsed(Done, p.(message := message.value))
  {
    hide FromText, ParseNsp, ParseBody, IdText;
    var s, head := Header(kind, 0, nsp, id) + json, [0x34, 0x30 + kind];
    var p := EMPTY.(frame := FRAME_MESSAGE, kind := kind);
    assert s == head + (if nsp == SLASH then [] else nsp + [0x2C]) + IdText(id) + json;
    ParseNspReads(p, head, nsp, id, json);
    ReadBody(p.(nsp := nsp), s, |s| - |json|, id, json);
  }

  /** A text frame that announces `count` attachments. */
  lemma {:induction false} ParseAnnouncing(kind: int, count: nat, nsp: bytes, id: int, json: bytes)
    requires IsBinaryKind(kind) && 0 < count < TWO_TO_THE_32
    requires CarriedNsp(nsp) && -1 <= id < TWO_TO_THE_31 && json != [] && json[0] == 0x5B
    ensures var s := Header(kind, count, nsp, id) + json;
            Parse(EMPTY, s) == Parsed(More, Arrived(kind, nsp, id).(pending := count, buffers := [json]))
  {
    hide FromText, ParseNsp, ParseBody, Decimal, FindFirst, IdText, LexUnsigned;
    var n := Decimal(count);
    var s := Header(kind, count, nsp, id) + json;
    var head := [0x34, 0x30 + kind] + (n + [0x2D]);
    var p := EMPTY.(frame := FRAME_MESSAGE, kind := kind);
    assert s == head + (if nsp == SLASH then [] else nsp + [0x2C]) + IdText(id) + json;
    CountParts(s, head, n);
    FindFirstIs(s, [0x2D], 0, 2 + |n|);
    ReadCount(count);
    ParseNspReads(p.(pending := count), head, nsp, id, json);
    ReadBody(p.(pending := count, nsp := nsp), s, |s| - |json|, id, json);
  }

  lemma CountParts(s: bytes, head: bytes, n: bytes)
    requires |head| >= 2 && head == head[..2] + (n + [0x2D]) && |s| >= |head| && s[..|head|] == head
    requires head[0] != 0x2C && head[1] != 0x2C && head[0] != 0x2D && head[1] != 0x2D && AllDigits(n)
    ensures s[0] == head[0] && s[1] == head[1] && s[2..2 + |n|] == n && s[2 + |n|] == 0x2D
    ensures forall i :: 0 <= i < 2 + |n| ==> s[i] != 0x2D
    ensures 0x2C !in head
  {
    assert forall i :: 0 <= i < |head| ==> s[i] == s[..|head|][i];
    assert forall i :: 0 <= i < |n| ==> head[2 + i] == n[i];
    assert s[2..2 + |n|] == s[..|head|][2..2 + |n|];
  }

  /** The text frame that accept builds is the header and the JSON text of the message. */
  lemma AcceptText(p: Packet)
    requires p.kind == UNDETERMINED + TYPE_EVENT || p.kind == UNDETERMINED + TYPE_ACK
    requires p.frame == FRAME_MESSAGE && CarriedNsp(p.nsp) && !p.message.MNone? && NoNone(p.message)
    ensures var a := AcceptPacket(p);
            var n := |Binaries(p.message)|;
            && a.kind == BinaryKind(p.kind - UNDETERMINED, n > 0)
            && a.hasBinary == (n > 0) && a.buffers == Wrap(Binaries(p.message))
            && a.payload == Header(a.kind, n, p.nsp, p.packId) + W.Print(true, Accept(p.message, []).value)
  {
    hide Accept, W.Print, Decimal, NoNone;
    AcceptAttaches(p.message, []);
    assert [] + Wrap(Binaries(p.message)) == Wrap(Binaries(p.message));
    var a := AcceptPacket(p);
    KindText(a.kind);
    assert [(p.frame + 0x30) % 0x100] + W.IntText(a.kind) == [0x34, 0x30 + a.kind];
  }

  lemma KindText(kind: int)
    requires 0 <= kind <= TYPE_MAX
    ensures W.IntText(kind) == [0x30 + kind]
  {
  }

  /** The packet that arrives for an event or ack that was sent. */
  function Delivered(nsp: bytes, message: Msg, id: int, isAck: bool): Packet {
    var kind := BinaryKind(if isAck then TYPE_ACK else TYPE_EVENT, Binaries(message) != []);
    Arrived(kind, nsp, id).(message := message)
  }

  predicate Sendable(nsp: bytes, message: Msg, id: int, isAck: bool) {
    && CarriedNsp(nsp) && message.MArray? && Carried(message)
    && |Binaries(message)| < TWO_TO_THE_31
    && -1 <= id < TWO_TO_THE_31 && (isAck ==> id >= 0)
  }

  lemma ArrayText(items: seq<Msg>)
    requires NoNone(MArray(items))
    ensures var t := W.Print(true, Accept(MArray(items), []).value); t != [] && t[0] == 0x5B
  {
    hide AcceptItems, W.PrintItems;
  }

  /** The message as its text and attachments say: what from_json makes of it. */
  function Read(message: Msg): Option<Msg>
    requires NoNone(message)
  {
    FromText(W.Print(true, Accept(message, []).value), Binaries(message))
  }

  /** All frames of one packet; if it has attachments, its header takes the place of any partial packet. */
  lemma {:induction false} FramesThenPut(m: Manager, nsp: bytes, message: Msg, id: int, isAck: bool)
    requires Sendable(nsp, message, id, isAck) && !m.aborted && Valid(m)
    requires m.partial == None || Binaries(message) != []
    ensures var put := PutAll(m, Encode(MakeMessage(nsp, message, id, isAck)));
            if Read(message) == None then put.aborted
            else put == m.(partial := None).Dispatch(Delivered(nsp, message, id, isAck).(message := Read(message).value))
  {
    hide Accept, NoNone, Carried, W.Print, FromText, Parse, ParseBuffer, Header, AcceptPacket, Binaries, PutAll;
    var p := MakeMessage(nsp, message, id, isAck);
    var a := AcceptPacket(p);
    var bs := Binaries(message);
    var json := W.Print(true, Accept(message, []).value);
    AcceptText(p);
    ArrayText(message.items);
    HeaderIsText(a.kind, |bs|, nsp, id, json);
    PutOne(m, a.payload);
    if bs == [] {
      ParsePlain(a.kind, nsp, id, json);
      assert Encode(p) == [a.payload];
    } else {
      ParseAnnouncing(a.kind, |bs|, nsp, id, json);
      var m1 := PutPayload(m, a.payload);
      AllAttached(m1, nsp, message, id, isAck);
      PutAllConcat(m, [a.payload], Wrap(bs));
    }
  }

  /** The announced packet, when all its attachments are put behind it. */
  lemma {:induction false} AllAttached(m: Manager, nsp: bytes, message: Msg, id: int, isAck: bool)
    requires Sendable(nsp, message, id, isAck) && !m.aborted && Binaries(message) != []
    requires var json := W.Print(true, Accept(message, []).value);
             m.partial == Some(Delivered(nsp, message, id, isAck).(
               message := MNone, pending := |Binaries(message)|, buffers := [json]))
    ensures var put := PutAll(m, Wrap(Binaries(message)));
            if Read(message) == None then put.aborted
            else put == m.(partial := None).Dispatch(Delivered(nsp, message, id, isAck).(message := Read(message).value))
  {
    hide Accept, NoNone, Carried, W.Print, FromText, Binaries, PutAll;
    var json := W.Print(true, Accept(message, []).value);
    AllPut(m, m.partial.value, json, Binaries(message));
  }

  /** All attachments of a partial packet. */
  lemma {:induction false} AllPut(m: Manager, p: Packet, json: bytes, bs: seq<bytes>)
    requires !m.aborted && m.partial == Some(p) && p.buffers == [json] && bs != [] && p.pending == |bs|
    ensures var put, message := PutAll(m, Wrap(bs)), FromText(json, bs);
            if message == None then put.aborted
            else put == m.(partial := None).Dispatch(Completed(p, bs, message.value))
  {
    hide FromText, PutAll, Between, PlainPackets, Attached, IsBinary;
    var front, last := WrapLast(bs);
    assert [json][1..] + bs[..|bs| - 1] + [last[1..]] == bs && bs[..|bs| - 1] + [last[1..]] == bs;
    if FromText(json, bs) == None {
      AbortsOnLast(m, front, last);
    } else {
      NothingAfter();
      DispatchedOnLast(m, front, last, [], FromText(json, bs).value);
      assert front + [last] + [] == Wrap(bs);
      var d := Completed(p, bs, FromText(json, bs).value);
      assert m.out + [] + [d] + [] == m.out + [d];
    }
  }

  lemma NothingAfter()
    ensures PlainPackets([]) == [] && Between([])
  {
  }

  /** The frames of the attachments, and the last of them. */
  lemma {:induction false} WrapLast(bs: seq<bytes>) returns (front: seq<bytes>, last: bytes)
    requires bs != []
    ensures front + [last] == Wrap(bs) && Between(front) && IsBinary(last) && PlainPackets(front) == []
    ensures last != [] && Attached(front) == bs[..|bs| - 1] && last[1..] == bs[|bs| - 1]
  {
    hide Between;
    front, last := Wrap(bs)[..|bs| - 1], Wrap(bs)[|bs| - 1];
    AllBinary(bs[..|bs| - 1]);
    assert front == Wrap(bs[..|bs| - 1]);
    assert last == [4] + bs[|bs| - 1];
  }

  /**
   * The frames of one packet deliver exactly that packet, with its namespace, its id and its message
   * tree, and typed binary when the tree holds a binary leaf - if and only if the tree is unmarked.
   */
  lemma {:induction false} EncodeThenPut(m: Manager, nsp: bytes, message: Msg, id: int, isAck: bool)
    requires Sendable(nsp, message, id, isAck) && m.partial == None && !m.aborted
    ensures PutAll(m, Encode(MakeMessage(nsp, message, id, isAck))) == m.Dispatch(Delivered(nsp, message, id, isAck))
            <==> Unmarked(message)
  {
    hide Accept, NoNone, Carried, W.Print, FromText, Binaries, PutAll, Encode, Unmarked;
    FramesThenPut(m, nsp, message, id, isAck);
    TextUndoesAccept(message);
    var d := Delivered(nsp, message, id, isAck);
    if Read(message).Some? {
      var e := d.(message := Read(message).value);
      assert (m.out + [d])[|m.out|] == d && (m.out + [e])[|m.out|] == e;
    }
  }

  lemma HeaderIsText(kind: int, count: nat, nsp: bytes, id: int, json: bytes)
    requires 0 <= kind <= TYPE_MAX
    ensures IsText(Header(kind, count, nsp, id) + json) && !IsBinary(Header(kind, count, nsp, id) + json)
  {
    hide Decimal, IdText;
  }

  lemma {:induction false} AllBinary(bs: seq<bytes>)
    ensures Between(Wrap(bs)) && Attached(Wrap(bs)) == bs && PlainPackets(Wrap(bs)) == []
    decreases |bs|
  {
    hide Parse;
    if bs != [] {
      AllBinary(bs[1..]);
      assert Wrap(bs)[1..] == Wrap(bs[1..]);
      assert Wrap(bs)[0] == [4] + bs[0] && Wrap(bs)[0][1..] == bs[0];
      assert [bs[0]] + bs[1..] == bs;
    }
  }

  datatype Message = Message(nsp: bytes, message: Msg, id: int, isAck: bool)

  function EncodeAll(ms: seq<Message>): seq<bytes>
    requires forall i :: 0 <= i < |ms| ==> NoNone(ms[i].message)
  {
    if ms == [] then []
    else Encode(MakeMessage(ms[0].nsp, ms[0].message, ms[0].id, ms[0].isAck)) + EncodeAll(ms[1..])
  }

  function DeliveredAll(ms: seq<Message>): seq<Packet> {
    if ms == [] then []
    else [Delivered(ms[0].nsp, ms[0].message, ms[0].id, ms[0].isAck)] + DeliveredAll(ms[1..])
  }

  /**
   * For every list of events and acks, the frames that encode produces deliver exactly one packet for
   * each, in order, with the same namespace, id and message tree, typed binary exactly when the tree
   * holds a binary leaf; nothing is left pending.
   */
  lemma {:induction false} WireRoundTrip(m: Manager, ms: seq<Message>)
    requires m.partial == None && !m.aborted
    requires forall i :: 0 <= i < |ms| ==>
               && Sendable(ms[i].nsp, ms[i].message, ms[i].id, ms[i].isAck)
               && NoNone(ms[i].message) && Unmarked(ms[i].message)
    ensures PutAll(m, EncodeAll(ms)) == m.(out := m.out + DeliveredAll(ms))
    decreases |ms|
  {
    hide Sendable, NoNone, Unmarked, Encode, Delivered, PutAll, EncodeAll, DeliveredAll;
    NoMessages();
    if ms == [] {
      assert m.out + [] == m.out;
      PutNone(m);
    } else {
      var x := ms[0];
      FirstMessage(ms);
      EncodeThenPut(m, x.nsp, x.message, x.id, x.isAck);
      var d := Delivered(x.nsp, x.message, x.id, x.isAck);
      WireRoundTrip(m.Dispatch(d), ms[1..]);
      PutAllConcat(m, Encode(MakeMessage(x.nsp, x.message, x.id, x.isAck)), EncodeAll(ms[1..]));
      Assoc(m.out, [d], DeliveredAll(ms[1..]));
    }
  }

  lemma NoMessages()
    ensures EncodeAll([]) == [] && DeliveredAll([]) == []
  {
  }

  lemma FirstMessage(ms: seq<Message>)
    requires ms != [] && forall i :: 0 <= i < |ms| ==> NoNone(ms[i].message)
    ensures var x := ms[0];
            && EncodeAll(ms) == Encode(MakeMessage(x.nsp, x.message, x.id, x.isAck)) + EncodeAll(ms[1..])
            && DeliveredAll(ms) == [Delivered(x.nsp, x.message, x.id, x.isAck)] + DeliveredAll(ms[1..])
  {
    hide NoNone, Encode, Delivered;
  }

  lemma PutNone(m: Manager)
    requires Valid(m)
    ensures PutAll(m, []) == m
  {
  }

  // A second announcing header

  function FramesOf(x: Message): (frames: seq<bytes>)
    requires NoNone(x.message)
    ensures frames != []
  {
    Encode(MakeMessage(x.nsp, x.message, x.id, x.isAck))
  }

  function DeliveredOf(x: Message): Packet {
    Delivered(x.nsp, x.message, x.id, x.isAck)
  }

  ghost predicate Sends(x: Message) {
    Sendable(x.nsp, x.message, x.id, x.isAck) && NoNone(x.message) && Unmarked(x.message) && Binaries(x.message) != []
  }

  /** The frames of a packet with attachments: the header and the attachments. */
  lemma {:induction false} HeaderThenPut(m: Manager, x: Message)
    requires Sends(x) && !m.aborted && Valid(m)
    ensures FramesOf(x) == [FramesOf(x)[0]] + Wrap(Binaries(x.message))
    ensures var json := W.Print(true, Accept(x.message, []).value);
            PutPayload(m, FramesOf(x)[0]) ==
            m.(partial := Some(DeliveredOf(x).(message := MNone, pending := |Binaries(x.message)|, buffers := [json])))
  {
    hide Accept, NoNone, Carried, W.Print, FromText, Parse, Header, AcceptPacket, Binaries, Unmarked;
    var p := MakeMessage(x.nsp, x.message, x.id, x.isAck);
    var a, n := AcceptPacket(p), |Binaries(x.message)|;
    var json := W.Print(true, Accept(x.message, []).value);
    AcceptText(p);
    ArrayText(x.message.items);
    HeaderIsText(a.kind, n, x.nsp, x.id, json);
    ParseAnnouncing(a.kind, n, x.nsp, x.id, json);
  }

  lemma {:induction false} StrayWrap(m: Manager, bs: seq<bytes>)
    requires m.partial == None && !m.aborted
    ensures PutAll(m, Wrap(bs)) == m
  {
    hide Between, PutAll;
    AllBinary(bs);
    StrayBinariesIgnored(m, Wrap(bs));
    assert m.out + [] == m.out;
  }

  /**
   * The frames of a second packet with attachments come before the attachments of the first: the second is
   * delivered, the first never, and its attachments are dropped.
   */
  lemma {:induction false} FirstIsLost(m: Manager, first: Message, second: Message)
    requires m.partial == None && !m.aborted && Sends(first) && Sends(second)
    ensures PutAll(m, [FramesOf(first)[0]] + FramesOf(second) + FramesOf(first)[1..]) == m.Dispatch(DeliveredOf(second))
  {
    hide PutAll, PutPayload, FramesOf, Encode, Accept, W.Print, FromText, Binaries, Carried, NoNone, Unmarked;
    var f, g := FramesOf(first), FramesOf(second);
    HeaderThenPut(m, first);
    var m1 := PutPayload(m, f[0]);
    PutOne(m, f[0]);
    SecondDelivered(m1, second);
    PutAllConcat(m, [f[0]], g);
    PutAllConcat(m, [f[0]] + g, f[1..]);
    assert f[1..] == Wrap(Binaries(first.message));
    StrayWrap(m.Dispatch(DeliveredOf(second)), Binaries(first.message));
  }

  lemma {:induction false} SecondDelivered(m: Manager, x: Message)
    requires Sends(x) && !m.aborted && Valid(m)
    ensures PutAll(m, FramesOf(x)) == m.(partial := None).Dispatch(DeliveredOf(x))
  {
    hide PutAll, Encode, Accept, W.Print, FromText, Binaries, Carried, NoNone, Unmarked;
    FramesThenPut(m, x.nsp, x.message, x.id, x.isAck);
    TextUndoesAccept(x.message);
  }

  /**
   * The header of a second packet comes before the attachments of the first, and both have the same JSON text:
   * the second packet is delivered with the attachments of the first.
   */
  lemma {:induction false} AttachmentsMixedUp(m: Manager, first: Message, second: Message)
    requires m.partial == None && !m.aborted && Sends(first) && Sends(second)
    requires Accept(first.message, []).value == Accept(second.message, []).value
    requires |Binaries(first.message)| == |Binaries(second.message)|
    ensures PutAll(m, [FramesOf(first)[0], FramesOf(second)[0]] + FramesOf(first)[1..] + FramesOf(second)[1..]) ==
            m.Dispatch(DeliveredOf(second).(message := first.message))
  {
    hide PutAll, PutPayload, FramesOf, Encode, Accept, W.Print, FromText, Binaries, Carried, NoNone, Unmarked;
    var f, g := FramesOf(first), FramesOf(second);
    HeaderThenPut(m, first);
    PutOne(m, f[0]);
    var m1 := PutPayload(m, f[0]);
    HeaderThenPut(m1, second);
    PutOne(m1, g[0]);
    var m2 := PutPayload(m1, g[0]);
    PutAllConcat(m, [f[0]], [g[0]]);
    assert [f[0]] + [g[0]] == [f[0], g[0]];
    TextUndoesAccept(first.message);
    AllAttached(m2, second.nsp, first.message, second.id, second.isAck);
    assert f[1..] == Wrap(Binaries(first.message)) && g[1..] == Wrap(Binaries(second.message));
    var d := DeliveredOf(second).(message := first.message);
    PutAllConcat(m, [f[0], g[0]], f[1..]);
    PutAllConcat(m, [f[0], g[0]] + f[1..], g[1..]);
    StrayWrap(m.Dispatch(d), Binaries(second.message));
  }

  /** Two events of one binary argument each, with ids 1 and 2. */
  const ONE: Message := Message(SLASH, MArray([MBinary([1])]), 1, false)
  const TWO: Message := Message(SLASH, MArray([MBinary([2])]), 2, false)

  /** Runs in which the first of them is lost, and in which the second gets its attachment. */
  lemma {:induction false} OneIsLost()
    ensures NoNone(ONE.message) && NoNone(TWO.message)
    ensures PutAll(IDLE, [FramesOf(ONE)[0]] + FramesOf(TWO) + FramesOf(ONE)[1..]).out == [DeliveredOf(TWO)]
    ensures PutAll(IDLE, [FramesOf(ONE)[0], FramesOf(TWO)[0]] + FramesOf(ONE)[1..] + FramesOf(TWO)[1..]).out
            == [DeliveredOf(TWO).(message := ONE.message)]
  {
    OneBinary([1]);
    OneBinary([2]);
    hide PutAll, FramesOf, Encode, Accept, Binaries, Carried, NoNone, Unmarked;
    FirstIsLost(IDLE, ONE, TWO);
    AttachmentsMixedUp(IDLE, ONE, TWO);
  }

  lemma {:induction false} OneBinary(data: bytes)
    ensures var m := MArray([MBinary(data)]);
            && NoNone(m) && Carried(m) && Unmarked(m) && Binaries(m) == [data]
            && Accept(m, []).value == JArray([Placeholder(0)])
  {
    var items: seq<Msg> := [MBinary(data)];
    var none: seq<Msg> := items[1..];
    assert none == [];
    assert ItemBinaries(items) == Binaries(items[0]) + ItemBinaries(none) == [data] + [];
    var buffers: seq<bytes> := [[4] + data];
    assert [] + [[4] + data] == buffers;
    assert Accept(items[0], []) == Encoded(Placeholder(0), buffers);
    assert AcceptItems(none, buffers).0 == [];
    assert AcceptItems(items, []).0 == [Placeholder(0)] + [];
  }

  /** The text `450-[]` announces no attachment. */
  const ZERO_HEADER: bytes := [0x34, 0x35, 0x30, 0x2D, 0x5B, 0x5D]

  /** It waits for one all the same, and is then dispatched without its message. */
  lemma {:induction false} ZeroHeaderWaits(m: Manager, payload: bytes)
    requires !m.aborted && Valid(m) && IsBinary(payload)
    ensures var p := Arrived(TYPE_BINARY_EVENT, SLASH, -1);
            && Parse(EMPTY, ZERO_HEADER) == Parsed(More, p.(buffers := [[0x5B, 0x5D]]))
            && PutAll(m, [ZERO_HEADER]).out == m.out
            && PutAll(m, [ZERO_HEADER, payload]).out == m.out + [p.(buffers := [[0x5B, 0x5D]])]
  {
    ParseZero();
    hide Parse, PutAll;
    PutOne(m, ZERO_HEADER);
    var m1 := PutPayload(m, ZERO_HEADER);
    ZeroAnnounced(m1, payload);
    PutOne(m1, payload);
    PutAllConcat(m, [ZERO_HEADER], [payload]);
    assert [ZERO_HEADER] + [payload] == [ZERO_HEADER, payload];
  }

  lemma {:induction false} ParseZero()
    ensures Parse(EMPTY, ZERO_HEADER) ==
            Parsed(More, Arrived(TYPE_BINARY_EVENT, SLASH, -1).(buffers := [[0x5B, 0x5D]]))
  {
    var s := ZERO_HEADER;
    hide FindFirst, LexUnsigned, FromText;
    FindFirstIs(s, [0x2D], 0, 3);
    FindFirstIs(s, NSP_OR_JSON, 4, 4);
    assert s[2..3] == [0x30] && s[4..] == [0x5B, 0x5D];
    assert LexUnsigned([0x30]) == Some(0) by { ZeroIsRead(); }
  }

  lemma ZeroIsRead()
    ensures LexUnsigned([0x30]) == Some(0)
  {
    assert Decimal(0) == [0x30];
    ReadCount(0);
  }
}
