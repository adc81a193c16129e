/** What Writer prints: the text of strings and trees, and its level stack as a state machine over events. */
module WriterSpec {
  import opened Bytes
  import opened Json
  import opened Encodings

  // Text of scalars

  const NULL_TEXT: bytes := [0x6E, 0x75, 0x6C, 0x6C]
  const TRUE_TEXT: bytes := [0x74, 0x72, 0x75, 0x65]
  const FALSE_TEXT: bytes := [0x66, 0x61, 0x6C, 0x73, 0x65]

  /** The decimal text that itoa prints. */
  function IntText(n: int): bytes {
    if n < 0 then [0x2D] + Decimal(-n) else Decimal(n)
  }

  /** The writer's escape table; 0 where there is no entry. */
  function Escape(c: byte): byte {
    if c == 0x08 then 0x62       // 'b'
    else if c == 0x09 then 0x74  // 't'
    else if c == 0x0A then 0x6E  // 'n'
    else if c == 0x0C then 0x66  // 'f'
    else if c == 0x0D then 0x72  // 'r'
    else if c < 0x20 then 0x75   // 'u'
    else if c == 0x22 then 0x22  // '"'
    else if c == 0x5C then 0x5C  // '\'
    else 0
  }

  function HexDigit(n: nat): byte
    requires n < 16
  {
    if n < 10 then 0x30 + n else 0x41 + n - 10
  }

  /** `\uXXXX` */
  function HexEscape(u: nat): (t: bytes)
    requires u < 0x10000
    ensures |t| == 6
  {
    [0x5C, 0x75, HexDigit(u / 0x1000), HexDigit(u / 0x100 % 16), HexDigit(u / 16 % 16), HexDigit(u % 16)]
  }

  /** A byte that is not decoded: copied, or escaped by the table. */
  function UnitText(c: byte): (t: bytes)
    ensures t != []
  {
    if Escape(c) == 0 then [c]
    else if Escape(c) == 0x75 then HexEscape(c)
    else [0x5C, Escape(c)]
  }

  /** A decoded code point in a target without Unicode: one escape, or a surrogate pair of them. */
  function CodePointText(cp: nat): (t: bytes)
    requires Scalar(cp)
    ensures t != []
  {
    if cp <= 0xFFFF then HexEscape(cp)
    else
      HexEscape((cp - 0x10000) / 0x400 + 0xD800) + HexEscape((cp - 0x10000) % 0x400 + 0xDC00)
  }

  /**
   * The loop of WriteString from position `p` on. `unicode` tells a UTF8 target from an ASCII one. The
   * loop ends early, and WriteString fails, where an ASCII target meets bytes that do not decode.
   */
  function UnitTexts(unicode: bool, s: bytes, p: nat): bytes
    decreases Left(s, p)
  {
    if p >= |s| then []
    else if unicode || s[p] < 0x80 then UnitText(s[p]) + UnitTexts(unicode, s, p + 1)
    else if !Decode8(s, p).ok then []
    else
      DecodeIsShortest(s, p);
      CodePointText(Decode8(s, p).cp) + UnitTexts(unicode, s, Decode8(s, p).pos)
  }

  /** Does WriteString succeed from position `p` on? */
  predicate Writable(unicode: bool, s: bytes, p: nat)
    decreases Left(s, p)
  {
    p >= |s| ||
    if unicode || s[p] < 0x80 then Writable(unicode, s, p + 1)
    else Decode8(s, p).ok && Writable(unicode, s, Decode8(s, p).pos)
  }

  /** A UTF8 target takes every byte string; an ASCII target exactly the well-formed UTF-8. */
  lemma {:induction false} WritableIs(unicode: bool, s: bytes, p: nat)
    requires p <= |s|
    ensures Writable(unicode, s, p) <==> unicode || WellFormed8(s[p..])
    decreases |s| - p
  {
    if p < |s| {
      ValidateIsGrammar(s, p);
      DecodeAgreesWithValidate(s, p);
      if unicode || s[p] < 0x80 {
        assert s[p..][1..] == s[p + 1..];
        WritableIs(unicode, s, p + 1);
      } else if Decode8(s, p).ok {
        assert s[p..][CharLength(s[p..])..] == s[Decode8(s, p).pos..];
        WritableIs(unicode, s, Decode8(s, p).pos);
      }
    }
  }

  /** What WriteString puts for a string it can write. */
  function StringText(unicode: bool, s: bytes): bytes {
    [0x22] + UnitTexts(unicode, s, 0) + [0x22]
  }

  // The level stack. In what follows `u` says whether the target supports Unicode.

  datatype Level = Level(valueCount: nat, inArray: bool)

  datatype State = State(os: bytes, levels: seq<Level>, hasRoot: bool)

  /** The separator that Prefix puts before the next value of a level. */
  function Separator(l: Level): bytes {
    if l.valueCount == 0 then []
    else if l.inArray then [0x2C]
    else if l.valueCount % 2 == 0 then [0x2C] else [0x3A]
  }

  /** Prefix; nothing when one of its assertions fails. */
  function Prefix(w: State, isString: bool): Option<State> {
    if w.levels == [] then
      if w.hasRoot then None else Some(w.(hasRoot := true))
    else
      var top := w.levels[|w.levels| - 1];
      if !top.inArray && top.valueCount % 2 == 0 && !isString then None
      else Some(w.(os := w.os + Separator(top),
                   levels := w.levels[..|w.levels| - 1] + [top.(valueCount := top.valueCount + 1)]))
  }

  function PutScalar(w: State, isString: bool, text: bytes): Option<State> {
    var w' := Prefix(w, isString);
    if w' == None then None else Some(w'.value.(os := w'.value.os + text))
  }

  function Open(w: State, inArray: bool): Option<State> {
    var w' := Prefix(w, false);
    if w' == None then None
    else Some(w'.value.(os := w'.value.os + [if inArray then 0x5B else 0x7B],
                        levels := w'.value.levels + [Level(0, inArray)]))
  }

  function Close(w: State, inArray: bool): Option<State> {
    if w.levels == [] || w.levels[|w.levels| - 1].inArray != inArray then None
    else Some(w.(os := w.os + [if inArray then 0x5D else 0x7D], levels := w.levels[..|w.levels| - 1]))
  }

  /** One handler call; nothing when it breaks one of the writer's assertions. */
  function Put(u: bool, w: State, e: Event): Option<State> {
    match e
    case Null => PutScalar(w, false, NULL_TEXT)
    case Bool(b) => PutScalar(w, false, if b then TRUE_TEXT else FALSE_TEXT)
    case Int(n) => PutScalar(w, false, IntText(n))
    case Uint(n) => PutScalar(w, false, IntText(n))
    case Int64(n) => PutScalar(w, false, IntText(n))
    case Uint64(n) => PutScalar(w, false, IntText(n))
    case Double(t) => PutScalar(w, false, t)
    case String(s) => if Writable(u, s, 0) then PutScalar(w, true, StringText(u, s)) else None
    case Key(s) => if Writable(u, s, 0) then PutScalar(w, true, StringText(u, s)) else None
    case StartObject => Open(w, false)
    case EndObject(_) => Close(w, false)
    case StartArray => Open(w, true)
    case EndArray(_) => Close(w, true)
  }

  function PutAll(u: bool, w: State, es: seq<Event>): Option<State>
    decreases |es|
  {
    if es == [] then Some(w)
    else
      var w' := Put(u, w, es[0]);
      if w' == None then None else PutAll(u, w'.value, es[1..])
  }

  // The text of a tree, defined on the tree alone

  function Print(u: bool, v: Json): bytes
    decreases v
  {
    match v
    case JNull => NULL_TEXT
    case JBool(b) => if b then TRUE_TEXT else FALSE_TEXT
    case JInt(n) => IntText(n)
    case JDouble(t) => t
    case JString(s) => StringText(u, s)
    case JArray(items) => [0x5B] + PrintItems(u, items, true) + [0x5D]
    case JObject(members) => [0x7B] + PrintMembers(u, members, true) + [0x7D]
  }

  /** The items of an array; `first` says whether no item stands before them. */
  function PrintItems(u: bool, items: seq<Json>, first: bool): bytes
    decreases items
  {
    if items == [] then []
    else (if first then [] else [0x2C]) + Print(u, items[0]) + PrintItems(u, items[1..], false)
  }

  function PrintMembers(u: bool, members: seq<Member>, first: bool): bytes
    decreases members
  {
    if members == [] then []
    else (if first then [] else [0x2C]) + StringText(u, members[0].name) + [0x3A] + Print(u, members[0].value)
         + PrintMembers(u, members[1..], false)
  }

  /** Can every string of the tree be written? */
  predicate Printable(u: bool, v: Json)
    decreases v
  {
    match v
    case JString(s) => Writable(u, s, 0)
    case JArray(items) => forall i :: 0 <= i < |items| ==> Printable(u, items[i])
    case JObject(members) =>
      forall i :: 0 <= i < |members| ==> Writable(u, members[i].name, 0) && Printable(u, members[i].value)
    case _ => true
  }

  // The level stack prints the text of the tree

  lemma {:induction false} PutAllConcat(u: bool, w: State, a: seq<Event>, b: seq<Event>)
    ensures PutAll(u, w, a + b) == var w' := PutAll(u, w, a); if w' == None then None else PutAll(u, w'.value, b)
    decreases |a|
  {
    if a == [] {
      assert a + b == b;
    } else {
      assert (a + b)[1..] == a[1..] + b;
      var w' := Put(u, w, a[0]);
      if w'.Some? {
        PutAllConcat(u, w'.value, a[1..], b);
      }
    }
  }

  lemma PutOne(u: bool, w: State, e: Event)
    ensures PutAll(u, w, [e]) == Put(u, w, e)
  {
    assert [e][1..] == [];
    assert Put(u, w, e).Some? ==> PutAll(u, Put(u, w, e).value, []) == Put(u, w, e);
  }

  /** The events of a number may come in any integer class. */
  ghost predicate Numbers(num: int -> Event) {
    forall n :: Plain(num(n)) == Int(n)
  }

  /** May a value that is not a name come next? */
  predicate Ready(w: State) {
    if w.levels == [] then !w.hasRoot
    else var top := w.levels[|w.levels| - 1]; top.inArray || top.valueCount % 2 == 1
  }

  /** The state after a value with this text. */
  function After(w: State, text: bytes): State
    requires Ready(w)
  {
    var w' := Prefix(w, false).value;
    w'.(os := w'.os + text)
  }

  lemma PutThen(u: bool, w: State, a: seq<Event>, w1: State, b: seq<Event>, w2: State)
    requires PutAll(u, w, a) == Some(w1) && PutAll(u, w1, b) == Some(w2)
    ensures PutAll(u, w, a + b) == Some(w2)
  {
    PutAllConcat(u, w, a, b);
  }

  lemma AfterInArray(w: State, base: seq<Level>, k: nat, text: bytes)
    requires w.levels == base + [Level(k, true)]
    ensures Ready(w)
    ensures After(w, text) ==
            State(w.os + (if k == 0 then [] else [0x2C]) + text, base + [Level(k + 1, true)], w.hasRoot)
  {
  }

  lemma AfterInObject(w: State, base: seq<Level>, k: nat, text: bytes)
    requires w.levels == base + [Level(2 * k + 1, false)]
    ensures Ready(w)
    ensures After(w, text) == State(w.os + [0x3A] + text, base + [Level(2 * k + 2, false)], w.hasRoot)
  {
  }

  /** A name, where one is due: the comma, the text, and one more entry on the level. */
  lemma NameInObject(u: bool, w: State, base: seq<Level>, k: nat, name: bytes)
    requires w.levels == base + [Level(2 * k, false)]
    ensures Prefix(w, true).Some? && Put(u, w, Key(name)) == Put(u, w, String(name))
    ensures Put(u, w, String(name)) ==
            if Writable(u, name, 0) then
              Some(State(w.os + (if k == 0 then [] else [0x2C]) + StringText(u, name),
                         base + [Level(2 * k + 1, false)], w.hasRoot))
            else None
  {
    hide UnitTexts, Writable;
    assert 2 * k % 2 == 0;
  }

  lemma KeyInObject(u: bool, w: State, base: seq<Level>, k: nat, name: bytes)
    requires w.levels == base + [Level(2 * k, false)] && Writable(u, name, 0)
    ensures PutAll(u, w, [Key(name)]) ==
            Some(State(w.os + (if k == 0 then [] else [0x2C]) + StringText(u, name),
                       base + [Level(2 * k + 1, false)], w.hasRoot))
  {
    hide UnitTexts, Writable, Put;
    NameInObject(u, w, base, k, name);
    PutOne(u, w, Key(name));
  }

  lemma ReadyPrefix(w: State)
    requires Ready(w)
    ensures Prefix(w, false).Some?
  {
  }

  lemma OpenPut(u: bool, w: State, inArray: bool)
    requires Ready(w)
    ensures var w0 := Prefix(w, false).value;
            PutAll(u, w, [if inArray then StartArray else StartObject]) ==
            Some(State(w0.os + [if inArray then 0x5B else 0x7B], w0.levels + [Level(0, inArray)], w0.hasRoot))
  {
    hide PutAll, Prefix, StringText, Writable;
    ReadyPrefix(w);
    PutOne(u, w, if inArray then StartArray else StartObject);
  }

  lemma ClosePut(u: bool, os: bytes, base: seq<Level>, inArray: bool, k: nat, hasRoot: bool, end: Event)
    requires if inArray then end.EndArray? else end.EndObject?
    ensures PutAll(u, State(os, base + [Level(k, inArray)], hasRoot), [end]) ==
            Some(State(os + [if inArray then 0x5D else 0x7D], base, hasRoot))
  {
    hide PutAll, Prefix, StringText, Writable;
    var w := State(os, base + [Level(k, inArray)], hasRoot);
    PutOne(u, w, end);
    assert w.levels[..|w.levels| - 1] == base;
  }

  lemma OpenThenClose(u: bool, w: State, inArray: bool, k: nat, text: bytes, end: Event)
    requires Ready(w) && if inArray then end.EndArray? else end.EndObject?
    ensures var base := Prefix(w, false).value.levels;
            var os1 := Prefix(w, false).value.os + [if inArray then 0x5B else 0x7B];
            && PutAll(u, w, [if inArray then StartArray else StartObject]) ==
               Some(State(os1, base + [Level(0, inArray)], Prefix(w, false).value.hasRoot))
            && PutAll(u, State(os1 + text, base + [Level(k, inArray)], Prefix(w, false).value.hasRoot), [end]) ==
               Some(After(w, [if inArray then 0x5B else 0x7B] + text + [if inArray then 0x5D else 0x7D]))
  {
    hide PutAll, Prefix, Put;
    ReadyPrefix(w);
    var w0 := Prefix(w, false).value;
    var os1 := w0.os + [if inArray then 0x5B else 0x7B];
    OpenPut(u, w, inArray);
    ClosePut(u, os1 + text, w0.levels, inArray, k, w0.hasRoot, end);
    assert w0.os + ([if inArray then 0x5B else 0x7B] + text + [if inArray then 0x5D else 0x7D])
        == os1 + text + [if inArray then 0x5D else 0x7D];
  }

  /** The events of a tree print the text of the tree, after the separator that is due. */
  lemma {:induction false} PutValue(u: bool, w: State, v: Json, num: int -> Event)
    requires Ready(w) && Numbers(num) && Printable(u, v)
    ensures PutAll(u, w, Events(v, num)) == Some(After(w, Print(u, v)))
    decreases v, 1
  {
    match v
    case JArray(items) =>
      PutArray(u, w, items, num);
    case JObject(members) =>
      PutObject(u, w, members, num);
    case JInt(n) =>
      assert Plain(num(n)) == Int(n);
      PutOne(u, w, num(n));
    case _ =>
      PutOne(u, w, Events(v, num)[0]);
  }

  lemma {:induction false} PutArray(u: bool, w: State, items: seq<Json>, num: int -> Event)
    requires Ready(w) && Numbers(num) && Printable(u, JArray(items))
    ensures PutAll(u, w, Events(JArray(items), num)) == Some(After(w, Print(u, JArray(items))))
    decreases items, 2
  {
    hide Put, PutAll, After;
    var w0, end := Prefix(w, false).value, EndArray(SizeType(|items|));
    OpenThenClose(u, w, true, |items|, PrintItems(u, items, true), end);
    var w1 := State(w0.os + [0x5B], w0.levels + [Level(0, true)], w0.hasRoot);
    var w2 := State(w0.os + [0x5B] + PrintItems(u, items, true), w0.levels + [Level(|items|, true)], w0.hasRoot);
    PutItems(u, w1, w0.levels, 0, items, num);
    PutThen(u, w, [StartArray], w1, ItemEvents(items, num), w2);
    PutThen(u, w, [StartArray] + ItemEvents(items, num), w2, [end], After(w, Print(u, JArray(items))));
  }

  lemma {:induction false} PutItems(u: bool, w: State, base: seq<Level>, k: nat, items: seq<Json>, num: int -> Event)
    requires w.levels == base + [Level(k, true)] && Numbers(num) && Printable(u, JArray(items))
    ensures PutAll(u, w, ItemEvents(items, num)) ==
            Some(State(w.os + PrintItems(u, items, k == 0), base + [Level(k + |items|, true)], w.hasRoot))
    decreases items, 0
  {
    hide Put, After, Ready, Events, Print;
    if items == [] {
      assert w.os + [] == w.os;
    } else {
      var sep: bytes := if k == 0 then [] else [0x2C];
      AfterInArray(w, base, k, Print(u, items[0]));
      PutValue(u, w, items[0], num);
      var w1 := After(w, Print(u, items[0]));
      PutItems(u, w1, base, k + 1, items[1..], num);
      var w2 := State(w1.os + PrintItems(u, items[1..], false), base + [Level(k + |items|, true)], w.hasRoot);
      PutThen(u, w, Events(items[0], num), w1, ItemEvents(items[1..], num), w2);
      hide PrintItems, PutAll;
      JoinItem(u, w.os, sep, items);
    }
  }

  lemma JoinItem(u: bool, os: bytes, sep: bytes, items: seq<Json>)
    requires items != []
    ensures os + sep + Print(u, items[0]) + PrintItems(u, items[1..], false)
         == os + (sep + Print(u, items[0]) + PrintItems(u, items[1..], false))
  {
    hide Print, PrintItems;
  }

  lemma {:induction false} PutObject(u: bool, w: State, members: seq<Member>, num: int -> Event)
    requires Ready(w) && Numbers(num) && Printable(u, JObject(members))
    ensures PutAll(u, w, Events(JObject(members), num)) == Some(After(w, Print(u, JObject(members))))
    decreases members, 2
  {
    hide Put, PutAll, After;
    var w0, end := Prefix(w, false).value, EndObject(SizeType(|members|));
    var text, k := PrintMembers(u, members, true), 2 * |members|;
    OpenThenClose(u, w, false, k, text, end);
    var w1 := State(w0.os + [0x7B], w0.levels + [Level(0, false)], w0.hasRoot);
    var w2 := State(w0.os + [0x7B] + text, w0.levels + [Level(k, false)], w0.hasRoot);
    PutMembers(u, w1, w0.levels, 0, members, num);
    PutThen(u, w, [StartObject], w1, MemberEvents(members, num), w2);
    PutThen(u, w, [StartObject] + MemberEvents(members, num), w2, [end], After(w, Print(u, JObject(members))));
  }

  /** In an object the valueCount counts names and values: it is even where a name is due. */
  lemma {:induction false} PutMembers(u: bool, w: State, base: seq<Level>, k: nat, members: seq<Member>, num: int -> Event)
    requires w.levels == base + [Level(2 * k, false)] && Numbers(num) && Printable(u, JObject(members))
    ensures PutAll(u, w, MemberEvents(members, num)) ==
            Some(State(w.os + PrintMembers(u, members, k == 0), base + [Level(2 * (k + |members|), false)], w.hasRoot))
    decreases members, 0
  {
    hide Put, After, Ready, Events, Print, StringText;
    if members == [] {
      assert w.os + [] == w.os;
    } else {
      var m := members[0];
      var sep: bytes := if k == 0 then [] else [0x2C];
      KeyInObject(u, w, base, k, m.name);
      var w1 := State(w.os + sep + StringText(u, m.name), base + [Level(2 * k + 1, false)], w.hasRoot);
      AfterInObject(w1, base, k, Print(u, m.value));
      PutValue(u, w1, m.value, num);
      var w2 := After(w1, Print(u, m.value));
      PutMembers(u, w2, base, k + 1, members[1..], num);
      var w3 := State(w2.os + PrintMembers(u, members[1..], false), base + [Level(2 * (k + |members|), false)], w.hasRoot);
      PutThen(u, w, [Key(m.name)], w1, Events(m.value, num), w2);
      PutThen(u, w, [Key(m.name)] + Events(m.value, num), w2, MemberEvents(members[1..], num), w3);
      JoinMember(w.os, sep, StringText(u, m.name), Print(u, m.value), PrintMembers(u, members[1..], false));
    }
  }

  lemma JoinMember(os: bytes, sep: bytes, name: bytes, value: bytes, rest: bytes)
    ensures os + sep + name + [0x3A] + value + rest == os + (sep + name + [0x3A] + value + rest)
  {
  }

  const FRESH: State := State([], [], false)

  /** A fresh writer fed with the events of a tree has printed exactly the text of that tree, and is complete. */
  lemma WriterPrintsTree(u: bool, v: Json, num: int -> Event)
    requires Numbers(num) && Printable(u, v)
    ensures PutAll(u, FRESH, Events(v, num)) == Some(State(Print(u, v), [], true))
  {
    PutValue(u, FRESH, v, num);
    assert [] + Print(u, v) == Print(u, v);
  }
}
