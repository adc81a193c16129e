/** socket.io messages as JSON values and binary attachments: the accept_message family and from_json. */
module MessageSpec {
  import opened Bytes
  import opened Json

  /** A message tree; MNone is the empty pointer. An object lists its entries in the order of std::map. */
  datatype Msg =
    | MInt(n: int)
    | MDouble(text: bytes)
    | MString(str: bytes)
    | MBinary(data: bytes)
    | MArray(items: seq<Msg>)
    | MObject(entries: seq<Entry>)
    | MBool(b: bool)
    | MNull
    | MNone

  datatype Entry = Entry(key: bytes, value: Msg)

  const PLACEHOLDER: bytes := [0x5F, 0x70, 0x6C, 0x61, 0x63, 0x65, 0x68, 0x6F, 0x6C, 0x64, 0x65, 0x72] // "_placeholder"
  const NUM: bytes := [0x6E, 0x75, 0x6D]                                                             // "num"

  /** The order of std::string: by unsigned bytes, a proper prefix first. */
  predicate Less(a: bytes, b: bytes) {
    b != [] && (a == [] || a[0] < b[0] || (a[0] == b[0] && Less(a[1..], b[1..])))
  }

  lemma {:induction false} LessIsStrict(a: bytes)
    ensures !Less(a, a)
    decreases |a|
  {
    if a != [] {
      LessIsStrict(a[1..]);
    }
  }

  lemma {:induction false} LessTransitive(a: bytes, b: bytes, c: bytes)
    requires Less(a, b) && Less(b, c)
    ensures Less(a, c)
    decreases |a|
  {
    if a != [] && a[0] == b[0] == c[0] {
      LessTransitive(a[1..], b[1..], c[1..]);
    }
  }

  predicate Sorted(es: seq<Entry>) {
    forall i, j :: 0 <= i < j < |es| ==> Less(es[i].key, es[j].key)
  }

  /** `get_map()[key] = value` */
  function MapPut(es: seq<Entry>, key: bytes, value: Msg): seq<Entry> {
    if es == [] then [Entry(key, value)]
    else if es[0].key == key then [Entry(key, value)] + es[1..]
    else if Less(key, es[0].key) then [Entry(key, value)] + es
    else [es[0]] + MapPut(es[1..], key, value)
  }

  /** A key above all others is appended. */
  lemma {:induction false} MapPutLast(es: seq<Entry>, key: bytes, value: Msg)
    requires forall i :: 0 <= i < |es| ==> Less(es[i].key, key)
    ensures MapPut(es, key, value) == es + [Entry(key, value)]
  {
    if es != [] {
      LessIsStrict(key);
      if Less(key, es[0].key) {
        LessTransitive(key, es[0].key, key);
      }
      MapPutLast(es[1..], key, value);
    }
  }

  // accept_message

  datatype Encoded = Encoded(value: Json, buffers: seq<bytes>)

  /** The cast of a buffer count to int. */
  function ToInt32(n: nat): int {
    var m := n % TWO_TO_THE_32;
    if m < TWO_TO_THE_31 then m else m - TWO_TO_THE_32
  }

  function Placeholder(num: int): Json {
    JObject([Member(PLACEHOLDER, JBool(true)), Member(NUM, JInt(num))])
  }

  /** accept_message: the JSON value, and the shared buffers with the attachments pushed. */
  function Accept(m: Msg, buffers: seq<bytes>): Encoded
    requires NoNone(m)
    decreases m
  {
    match m
    case MInt(n) => Encoded(JInt(n), buffers)
    case MDouble(t) => Encoded(JDouble(t), buffers)
    case MString(s) => Encoded(JString(s), buffers)
    case MBool(b) => Encoded(JBool(b), buffers)
    case MNull => Encoded(JNull, buffers)
    case MBinary(data) => Encoded(Placeholder(ToInt32(|buffers|)), buffers + [[4] + data])
    case MArray(items) =>
      var r := AcceptItems(items, buffers);
      Encoded(JArray(r.0), r.1)
    case MObject(entries) =>
      var r := AcceptEntries(entries, buffers);
      Encoded(JObject(r.0), r.1)
  }

  function AcceptItems(items: seq<Msg>, buffers: seq<bytes>): (r: (seq<Json>, seq<bytes>))
    requires forall i :: 0 <= i < |items| ==> NoNone(items[i])
    ensures |r.0| == |items|
    decreases items
  {
    if items == [] then ([], buffers)
    else
      var e := Accept(items[0], buffers);
      var rest := AcceptItems(items[1..], e.buffers);
      ([e.value] + rest.0, rest.1)
  }

  function AcceptEntries(entries: seq<Entry>, buffers: seq<bytes>): (r: (seq<Member>, seq<bytes>))
    requires forall i :: 0 <= i < |entries| ==> NoNone(entries[i].value)
    ensures |r.0| == |entries|
    decreases entries
  {
    if entries == [] then ([], buffers)
    else
      var e := Accept(entries[0].value, buffers);
      var rest := AcceptEntries(entries[1..], e.buffers);
      ([Member(entries[0].key, e.value)] + rest.0, rest.1)
  }

  /** No empty pointer in the tree: accept_message dereferences every child. */
  predicate NoNone(m: Msg)
    decreases m
  {
    match m
    case MNone => false
    case MArray(items) => forall i :: 0 <= i < |items| ==> NoNone(items[i])
    case MObject(entries) => forall i :: 0 <= i < |entries| ==> NoNone(entries[i].value)
    case _ => true
  }

  // from_json

  /** FindMember: the first member of that name. */
  function Find(members: seq<Member>, name: bytes): Option<Json> {
    if members == [] then None
    else if members[0].name == name then Some(members[0].value)
    else Find(members[1..], name)
  }

  /** from_json; nothing where an accessor's assertion fails. */
  function FromJson(v: Json, buffers: seq<bytes>): Option<Msg>
    decreases v
  {
    match v
    case JInt(n) => Some(if FitsInt64(n) then MInt(n) else MNone)
    case JDouble(t) => Some(MDouble(t))
    case JString(s) => Some(MString(s))
    case JBool(b) => Some(MBool(b))
    case JNull => Some(MNull)
    case JArray(items) =>
      var r := FromItems(items, buffers);
      if r == None then None else Some(MArray(r.value))
    case JObject(members) =>
      var mark := Find(members, PLACEHOLDER);
      if mark.Some? && !mark.value.JBool? then None
      else if mark.Some? && mark.value.b then FromPlaceholder(Find(members, NUM), buffers)
      else
        var r := FromMembers(members, buffers, []);
        if r == None then None else Some(MObject(r.value))
  }

  function FromPlaceholder(num: Option<Json>, buffers: seq<bytes>): (r: Option<Msg>)
    ensures r.Some? ==> r.value.MBinary? || r.value.MNone?
  {
    if num == None || !num.value.JInt? || !FitsInt(num.value.n) then None
    else if 0 <= num.value.n < |buffers| then Some(MBinary(buffers[num.value.n]))
    else Some(MNone)
  }

  function FromItems(items: seq<Json>, buffers: seq<bytes>): Option<seq<Msg>>
    decreases items
  {
    if items == [] then Some([])
    else
      var m := FromJson(items[0], buffers);
      var rest := FromItems(items[1..], buffers);
      if m == None || rest == None then None else Some([m.value] + rest.value)
  }

  /** The members are put into the map one by one. */
  function FromMembers(members: seq<Member>, buffers: seq<bytes>, es: seq<Entry>): Option<seq<Entry>>
    decreases members
  {
    if members == [] then Some(es)
    else
      var m := FromJson(members[0].value, buffers);
      if m == None then None else FromMembers(members[1..], buffers, MapPut(es, members[0].name, m.value))
  }

  // The messages that the wire carries

  /** 64-bit integers, no doubles, no empty pointers, maps in order, countable sizes. */
  predicate Carried(m: Msg): (r: bool)
    ensures r ==> NoNone(m)
    decreases m
  {
    match m
    case MInt(n) => FitsInt64(n)
    case MDouble(_) => false
    case MNone => false
    case MArray(items) => |items| < TWO_TO_THE_32 && forall i :: 0 <= i < |items| ==> Carried(items[i])
    case MObject(entries) =>
      && |entries| < TWO_TO_THE_32 && Sorted(entries)
      && forall i :: 0 <= i < |entries| ==> Carried(entries[i].value)
    case _ => true
  }

  /** No object of the tree can be taken for an attachment: a key "_placeholder" comes with false only. */
  predicate Unmarked(m: Msg)
    decreases m
  {
    match m
    case MArray(items) => forall i :: 0 <= i < |items| ==> Unmarked(items[i])
    case MObject(entries) => forall i :: 0 <= i < |entries| ==> UnmarkedEntry(entries[i])
    case _ => true
  }

  predicate UnmarkedEntry(e: Entry)
    decreases e
  {
    Unmarked(e.value) && (e.key == PLACEHOLDER ==> e.value == MBool(false))
  }

  /** The binary leaves of a tree, in the order in which they are attached. */
  function Binaries(m: Msg): seq<bytes>
    decreases m
  {
    match m
    case MBinary(data) => [data]
    case MArray(items) => ItemBinaries(items)
    case MObject(entries) => EntryBinaries(entries)
    case _ => []
  }

  function ItemBinaries(items: seq<Msg>): seq<bytes>
    decreases items
  {
    if items == [] then [] else Binaries(items[0]) + ItemBinaries(items[1..])
  }

  function EntryBinaries(entries: seq<Entry>): seq<bytes>
    decreases entries
  {
    if entries == [] then [] else Binaries(entries[0].value) + EntryBinaries(entries[1..])
  }

  /** The frame that carries an attachment: the byte frame_message, then the data. */
  function Wrap(data: seq<bytes>): (r: seq<bytes>)
    ensures |r| == |data|
  {
    seq(|data|, i requires 0 <= i < |data| => [4] + data[i])
  }

  lemma WrapConcat(a: seq<bytes>, b: seq<bytes>)
    ensures Wrap(a + b) == Wrap(a) + Wrap(b)
  {
  }

  /** accept_message attaches exactly the binary leaves, in order. */
  lemma {:induction false} AcceptAttaches(m: Msg, buffers: seq<bytes>)
    requires NoNone(m)
    ensures Accept(m, buffers).buffers == buffers + Wrap(Binaries(m))
    decreases m, 1
  {
    match m
    case MArray(items) => AcceptItemsAttaches(items, buffers);
    case MObject(entries) => AcceptEntriesAttaches(entries, buffers);
    case MBinary(data) => assert Wrap([data]) == [[4] + data];
    case MNone =>
    case _ => assert buffers + Wrap([]) == buffers;
  }

  lemma {:induction false} AcceptItemsAttaches(items: seq<Msg>, buffers: seq<bytes>)
    requires forall i :: 0 <= i < |items| ==> NoNone(items[i])
    ensures AcceptItems(items, buffers).1 == buffers + Wrap(ItemBinaries(items))
    decreases items, 0
  {
    hide Accept, NoNone, Binaries;
    if items == [] {
      assert buffers + Wrap([]) == buffers;
    } else {
      AcceptAttaches(items[0], buffers);
      AcceptItemsAttaches(items[1..], Accept(items[0], buffers).buffers);
      WrapConcat(Binaries(items[0]), ItemBinaries(items[1..]));
      assert buffers + Wrap(Binaries(items[0])) + Wrap(ItemBinaries(items[1..]))
          == buffers + (Wrap(Binaries(items[0])) + Wrap(ItemBinaries(items[1..])));
    }
  }

  lemma {:induction false} AcceptEntriesAttaches(entries: seq<Entry>, buffers: seq<bytes>)
    requires forall i :: 0 <= i < |entries| ==> NoNone(entries[i].value)
    ensures AcceptEntries(entries, buffers).1 == buffers + Wrap(EntryBinaries(entries))
    decreases entries, 0
  {
    hide Accept, NoNone, Binaries;
    if entries == [] {
      assert buffers + Wrap([]) == buffers;
    } else {
      var m := entries[0].value;
      AcceptAttaches(m, buffers);
      AcceptEntriesAttaches(entries[1..], Accept(m, buffers).buffers);
      WrapConcat(Binaries(m), EntryBinaries(entries[1..]));
      assert buffers + Wrap(Binaries(m)) + Wrap(EntryBinaries(entries[1..]))
          == buffers + (Wrap(Binaries(m)) + Wrap(EntryBinaries(entries[1..])));
    }
  }

  /**
   * The attachments of a message are found again among all attachments, however many came before and
   * after: from_json gives the message back if and only if no object looks like an attachment.
   */
  lemma {:induction false} FromJsonUndoesAccept(m: Msg, buffers: seq<bytes>, all: seq<bytes>)
    requires Carried(m) && |all| < TWO_TO_THE_31
    requires |buffers| + |Binaries(m)| <= |all|
    requires all[|buffers|..|buffers| + |Binaries(m)|] == Binaries(m)
    ensures FromJson(Accept(m, buffers).value, all) == Some(m) <==> Unmarked(m)
    decreases m, 2
  {
    hide AcceptItems, AcceptEntries, FromItems, FromMembers, FromPlaceholder, ItemBinaries, EntryBinaries, Less, Find;
    match m
    case MArray(items) => FromItemsUndoes(items, buffers, all);
    case MObject(entries) => ObjectUndoes(entries, buffers, all);
    case MBinary(data) =>
      assert all[|buffers|] == all[|buffers|..|buffers| + 1][0];
      FindPlaceholder(|buffers|, all);
    case _ =>
  }

  lemma FindPlaceholder(num: nat, all: seq<bytes>)
    requires num < |all| < TWO_TO_THE_31
    ensures FromJson(Placeholder(num), all) == Some(MBinary(all[num]))
  {
    var ms := Placeholder(num).members;
    assert |PLACEHOLDER| != |NUM|;
    assert ms[1..][0] == Member(NUM, JInt(num));
    assert Find(ms, PLACEHOLDER) == Some(JBool(true));
    assert Find(ms, NUM) == Find(ms[1..], NUM) == Some(JInt(num));
  }

  lemma {:induction false} ObjectUndoes(entries: seq<Entry>, buffers: seq<bytes>, all: seq<bytes>)
    requires Sorted(entries)
    requires forall i :: 0 <= i < |entries| ==> Carried(entries[i].value) && NoNone(entries[i].value)
    requires |all| < TWO_TO_THE_31 && |buffers| + |EntryBinaries(entries)| <= |all|
    requires all[|buffers|..|buffers| + |EntryBinaries(entries)|] == EntryBinaries(entries)
    ensures FromJson(Accept(MObject(entries), buffers).value, all) == Some(MObject(entries)) <==>
            Unmarked(MObject(entries))
    decreases entries, 1
  {
    hide AcceptEntries, FromMembers, EntryBinaries, Less, Find, FromPlaceholder, Sorted, Carried, NoNone;
    assert NoNone(MObject(entries)) by { AllNoNone(entries); }
    var k, b := FindMark(entries, buffers);
    if k < |entries| && entries[k].value != MBool(false) {
      assert !UnmarkedEntry(entries[k]);
      MarkIsBool(entries[k].value, b);
    } else {
      assert [] + entries == entries;
      FromMembersUndoes([], entries, buffers, all);
      if k < |entries| {
        MarkIsBool(entries[k].value, b);
        OneMark(entries, k);
      }
    }
  }

  lemma AllNoNone(entries: seq<Entry>)
    requires forall i :: 0 <= i < |entries| ==> NoNone(entries[i].value)
    ensures NoNone(MObject(entries))
  {
  }

  lemma MarkIsBool(m: Msg, buffers: seq<bytes>)
    requires NoNone(m)
    ensures Accept(m, buffers).value.JBool? <==> m.MBool?
    ensures m.MBool? ==> Accept(m, buffers).value == JBool(m.b)
  {
    hide AcceptItems, AcceptEntries;
  }

  lemma OneMark(entries: seq<Entry>, k: nat)
    requires Sorted(entries) && k < |entries|
    ensures forall i :: 0 <= i < |entries| && i != k ==> entries[i].key != entries[k].key
  {
    hide Less;
    LessIsStrict(entries[k].key);
  }

  /** The entry that FindMember finds, and the buffers before it. */
  lemma {:induction false} FindMark(entries: seq<Entry>, buffers: seq<bytes>) returns (k: nat, b: seq<bytes>)
    requires forall i :: 0 <= i < |entries| ==> NoNone(entries[i].value)
    ensures k <= |entries| && forall i :: 0 <= i < k ==> entries[i].key != PLACEHOLDER
    ensures k < |entries| ==>
              && entries[k].key == PLACEHOLDER
              && Find(AcceptEntries(entries, buffers).0, PLACEHOLDER) == Some(Accept(entries[k].value, b).value)
    ensures k == |entries| ==> Find(AcceptEntries(entries, buffers).0, PLACEHOLDER) == None
    decreases |entries|
  {
    hide Accept, NoNone;
    k, b := 0, buffers;
    if entries != [] && entries[0].key != PLACEHOLDER {
      var next := Accept(entries[0].value, buffers).buffers;
      k, b := FindMark(entries[1..], next);
      assert AcceptEntries(entries, buffers).0[1..] == AcceptEntries(entries[1..], next).0;
      k := k + 1;
    }
  }

  lemma {:induction false} FromItemsUndoes(items: seq<Msg>, buffers: seq<bytes>, all: seq<bytes>)
    requires forall i :: 0 <= i < |items| ==> Carried(items[i]) && NoNone(items[i])
    requires |all| < TWO_TO_THE_31 && |buffers| + |ItemBinaries(items)| <= |all|
    requires all[|buffers|..|buffers| + |ItemBinaries(items)|] == ItemBinaries(items)
    ensures FromItems(AcceptItems(items, buffers).0, all) == Some(items) <==>
            forall i :: 0 <= i < |items| ==> Unmarked(items[i])
    decreases items, 0
  {
    hide Accept, NoNone, Carried, Binaries, FromJson, Unmarked;
    if items != [] {
      var e := Accept(items[0], buffers);
      Window(all, |buffers|, Binaries(items[0]), ItemBinaries(items[1..]));
      AcceptAttaches(items[0], buffers);
      FromJsonUndoesAccept(items[0], buffers, all);
      FromItemsUndoes(items[1..], e.buffers, all);
      var js := AcceptItems(items, buffers).0;
      assert js[0] == e.value && js[1..] == AcceptItems(items[1..], e.buffers).0;
      SameList(FromItems(js, all), FromJson(js[0], all), FromItems(js[1..], all), items);
      AllOf(items);
    }
  }

  lemma SameList(whole: Option<seq<Msg>>, first: Option<Msg>, rest: Option<seq<Msg>>, items: seq<Msg>)
    requires items != []
    requires whole == if first == None || rest == None then None else Some([first.value] + rest.value)
    ensures whole == Some(items) <==> first == Some(items[0]) && rest == Some(items[1..])
  {
    assert [items[0]] + items[1..] == items;
    if whole.Some? {
      assert whole.value[0] == first.value && whole.value[1..] == rest.value;
    }
  }

  lemma AllOf(items: seq<Msg>)
    requires items != []
    ensures (forall i :: 0 <= i < |items| ==> Unmarked(items[i])) <==>
            Unmarked(items[0]) && forall i :: 0 <= i < |items[1..]| ==> Unmarked(items[1..][i])
  {
    hide Unmarked;
    if Unmarked(items[0]) && forall i :: 0 <= i < |items[1..]| ==> Unmarked(items[1..][i]) {
      forall i | 0 <= i < |items| ensures Unmarked(items[i]) {
        if i > 0 {
          assert items[i] == items[1..][i - 1];
        }
      }
    }
  }

  lemma Window(all: seq<bytes>, k: nat, a: seq<bytes>, b: seq<bytes>)
    requires k + |a + b| <= |all| && all[k..k + |a + b|] == a + b
    ensures all[k..k + |a|] == a && all[k + |a|..k + |a| + |b|] == b
  {
    assert all[k..k + |a|] == all[k..k + |a + b|][..|a|];
    assert all[k + |a|..k + |a| + |b|] == all[k..k + |a + b|][|a|..];
  }

  /** Entries with growing keys are appended to the map, whatever their values. */
  lemma {:induction false} FromMembersAppends(done: seq<Entry>, entries: seq<Entry>, buffers: seq<bytes>, all: seq<bytes>)
    requires Sorted(done + entries)
    requires forall i :: 0 <= i < |entries| ==> NoNone(entries[i].value)
    ensures var r := FromMembers(AcceptEntries(entries, buffers).0, all, done); r.Some? ==> done <= r.value
    decreases |entries|
  {
    hide Accept, NoNone, FromJson, MapPut, Less;
    if entries != [] {
      var e := Accept(entries[0].value, buffers);
      var js := AcceptEntries(entries, buffers).0;
      assert js[0] == Member(entries[0].key, e.value) && js[1..] == AcceptEntries(entries[1..], e.buffers).0;
      var m := FromJson(e.value, all);
      if m.Some? {
        PutNext(done, entries, m.value);
        FromMembersAppends(done + [Entry(entries[0].key, m.value)], entries[1..], e.buffers, all);
      }
    }
  }

  /** The key that comes next is above those already in the map. */
  lemma PutNext(done: seq<Entry>, entries: seq<Entry>, m: Msg)
    requires entries != [] && Sorted(done + entries)
    ensures MapPut(done, entries[0].key, m) == done + [Entry(entries[0].key, m)]
    ensures Sorted(done + [Entry(entries[0].key, m)] + entries[1..])
  {
    hide MapPut, Less;
    var key, whole := entries[0].key, done + entries;
    assert forall i :: 0 <= i < |done| ==> whole[i] == done[i] && whole[|done|] == entries[0];
    MapPutLast(done, key, m);
    var next := done + [Entry(key, m)] + entries[1..];
    assert forall i :: 0 <= i < |next| ==> next[i].key == whole[i].key;
  }

  /** `done` holds the entries already put into the map; all their keys are smaller. */
  lemma {:induction false} FromMembersUndoes(done: seq<Entry>, entries: seq<Entry>, buffers: seq<bytes>, all: seq<bytes>)
    requires Sorted(done + entries)
    requires forall i :: 0 <= i < |entries| ==> Carried(entries[i].value) && NoNone(entries[i].value)
    requires |all| < TWO_TO_THE_31 && |buffers| + |EntryBinaries(entries)| <= |all|
    requires all[|buffers|..|buffers| + |EntryBinaries(entries)|] == EntryBinaries(entries)
    ensures FromMembers(AcceptEntries(entries, buffers).0, all, done) == Some(done + entries) <==>
            forall i :: 0 <= i < |entries| ==> Unmarked(entries[i].value)
    decreases entries, 0
  {
    hide Accept, NoNone, Carried, Binaries, FromJson, MapPut, Less, Sorted, Unmarked;
    if entries == [] {
      assert done + entries == done;
    } else {
      var m, key := entries[0].value, entries[0].key;
      var e := Accept(m, buffers);
      Window(all, |buffers|, Binaries(m), EntryBinaries(entries[1..]));
      AcceptAttaches(m, buffers);
      FromJsonUndoesAccept(m, buffers, all);
      var js := AcceptEntries(entries, buffers).0;
      assert js[0] == Member(key, e.value) && js[1..] == AcceptEntries(entries[1..], e.buffers).0;
      var read := FromJson(e.value, all);
      if read.Some? {
        var next := done + [Entry(key, read.value)];
        PutNext(done, entries, read.value);
        if read.value == m {
          FromMembersUndoes(next, entries[1..], e.buffers, all);
          assert next + entries[1..] == done + entries;
          AllOfEntries(entries);
        } else {
          FromMembersAppends(next, entries[1..], e.buffers, all);
          assert next[|done|] != (done + entries)[|done|];
        }
      }
    }
  }

  lemma AllOfEntries(entries: seq<Entry>)
    requires entries != []
    ensures (forall i :: 0 <= i < |entries| ==> Unmarked(entries[i].value)) <==>
            Unmarked(entries[0].value) && forall i :: 0 <= i < |entries[1..]| ==> Unmarked(entries[1..][i].value)
  {
    hide Unmarked;
    if Unmarked(entries[0].value) && forall i :: 0 <= i < |entries[1..]| ==> Unmarked(entries[1..][i].value) {
      forall i | 0 <= i < |entries| ensures Unmarked(entries[i].value) {
        if i > 0 {
          assert entries[i] == entries[1..][i - 1];
        }
      }
    }
  }

  /** An object that says it is an attachment comes back as one, or not at all. */
  lemma MarkedObjectIsLost(all: seq<bytes>)
    ensures var m := MObject([Entry(PLACEHOLDER, MBool(true))]);
            Carried(m) && FromJson(Accept(m, []).value, all) != Some(m)
  {
    var e := [Entry(PLACEHOLDER, MBool(true))];
    assert AcceptEntries(e, []).0 == [Member(PLACEHOLDER, JBool(true))] by {
      assert e[1..] == [];
      assert [Member(PLACEHOLDER, JBool(true))] + [] == [Member(PLACEHOLDER, JBool(true))];
    }
  }
}
