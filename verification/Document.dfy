/** GenericDocument as it runs: handler calls that push and pop a stack of values, and Accept. */
module Document {
  import opened Bytes
  import opened Json
  import R = ReaderSpec
  import W = WriterSpec
  import Spec = DocumentSpec
  import Reader
  import Writer

  class Document {
    var stack: seq<Json>
    var root: Json

    constructor ()
      ensures stack == [] && root == JNull
    {
      stack, root := [], JNull;
    }

    method Push(v: Json)
      modifies this`stack
      ensures stack == old(stack) + [v]
    {
      stack := stack + [v];
    }

    /** Pops `n` values; the assertion of the original is the precondition. */
    method Pop(n: nat) returns (values: seq<Json>)
      requires |stack| >= n
      modifies this`stack
      ensures stack == old(stack)[..|old(stack)| - n] && values == old(stack)[|old(stack)| - n..]
    {
      values := stack[|stack| - n..];
      stack := stack[..|stack| - n];
    }

    method EndArray(elementCount: nat)
      requires Spec.Apply(stack, Event.EndArray(elementCount)).Some?
      modifies this`stack
      ensures stack == Spec.Apply(old(stack), Event.EndArray(elementCount)).value
    {
      var elements := Pop(elementCount);
      stack := stack[..|stack| - 1] + [JArray(elements)];
    }

    method EndObject(memberCount: nat)
      requires Spec.Apply(stack, Event.EndObject(memberCount)).Some?
      modifies this`stack
      ensures stack == Spec.Apply(old(stack), Event.EndObject(memberCount)).value
    {
      var members := Pop(2 * memberCount);
      stack := stack[..|stack| - 1] + [JObject(Spec.ToMembers(members).value)];
    }

    /** One handler call. */
    method Handle(e: Event)
      requires Spec.Apply(stack, e).Some?
      modifies this`stack
      ensures stack == Spec.Apply(old(stack), e).value
    {
      match e
      case Null => Push(JNull);
      case Bool(b) => Push(JBool(b));
      case Int(n) => Push(JInt(n));
      case Uint(n) => Push(JInt(n));
      case Int64(n) => Push(JInt(n));
      case Uint64(n) => Push(JInt(n));
      case Double(t) => Push(JDouble(t));
      case String(s) => Push(JString(s));
      case Key(s) => Push(JString(s));
      case StartObject => Push(JObject([]));
      case StartArray => Push(JArray([]));
      case EndObject(count) => EndObject(count);
      case EndArray(count) => EndArray(count);
    }

    method HandleAll(es: seq<Event>)
      requires Spec.ApplyAll(stack, es).Some?
      modifies this`stack
      ensures stack == Spec.ApplyAll(old(stack), es).value
    {
      hide Spec.Apply;
      var i := 0;
      while i < |es|
        invariant i <= |es|
        invariant Spec.ApplyAll(stack, es[i..]) == Spec.ApplyAll(old(stack), es)
      {
        assert es[i..][0] == es[i] && es[i..][1..] == es[i + 1..];
        Handle(es[i]);
        i := i + 1;
      }
    }

    /**
     * ParseStream. The reader's events reach the handler in the order of the log; since the handler
     * answers every call with true, handing the log over at the end changes nothing.
     */
    method ParseStream(s: bytes, flags: R.Flags) returns (ok: bool)
      requires stack == [] && Spec.Asserted(s, flags)
      modifies this
      ensures stack == [] && root == Spec.ParseStream(s, flags)
      ensures ok <==> R.Parse(Spec.Input(s, flags)).Ok()
    {
      hide R.Parse;
      root := JNull;
      var reader := new Reader.Reader(Spec.Input(s, flags));
      reader.Parse();
      ok := reader.err.None?;
      if ok {
        HandleAll(reader.out);
        var one := Pop(1);
        root := one[0];
      }
    }

    /** GenericValue::Accept with this document as the handler, which answers every call with true. */
    method Replay(v: Json)
      requires Countable(v)
      modifies this`stack
      ensures Some(stack) == Spec.ApplyAll(old(stack), Events(v, ValueNum))
      ensures stack == old(stack) + [v]
      decreases v, 1
    {
      hide Spec.ApplyAll, Events;
      Spec.BuildsTree(stack, v, ValueNum);
      match v
      case JNull => Handle(Event.Null);
      case JBool(b) => Handle(Event.Bool(b));
      case JInt(n) => Handle(ValueNum(n));
      case JDouble(t) => Handle(Event.Double(t));
      case JString(s) => Handle(Event.String(s));
      case JArray(items) => ReplayArray(items);
      case JObject(members) => ReplayObject(members);
    }

    method ReplayArray(items: seq<Json>)
      requires Countable(JArray(items))
      modifies this`stack
      ensures stack == old(stack) + [JArray(items)]
      decreases items, 2
    {
      Handle(Event.StartArray);
      ghost var mid := stack;
      for i := 0 to |items|
        invariant stack == mid + items[..i]
      {
        Replay(items[i]);
        assert items[..i + 1] == items[..i] + [items[i]];
      }
      assert items[..|items|] == items;
      assert stack[|mid|..] == items && stack[..|mid| - 1] == old(stack);
      Handle(Event.EndArray(|items|));
    }

    method ReplayObject(members: seq<Member>)
      requires Countable(JObject(members))
      modifies this`stack
      ensures stack == old(stack) + [JObject(members)]
      decreases members, 2
    {
      hide Spec.FromMembers, Spec.Apply;
      ghost var mid := stack + [JObject([])];
      Spec.OpensObject(stack);
      Handle(Event.StartObject);
      for i := 0 to |members|
        invariant stack == mid + Spec.FromMembers(members[..i])
      {
        ReplayMember(members[i]);
        Spec.LastMember(mid, members, i);
      }
      assert members[..|members|] == members;
      Spec.ClosesObject(old(stack), members);
      Handle(Event.EndObject(|members|));
    }

    method ReplayMember(m: Member)
      requires Countable(m.value)
      modifies this`stack
      ensures stack == old(stack) + [JString(m.name)] + [m.value]
      decreases m, 3
    {
      Handle(Event.Key(m.name));
      Replay(m.value);
    }
  }

  /** The deep-copy constructor: containers are replayed into a new document, everything else is copied. */
  method DeepCopy(v: Json) returns (copy: Json)
    requires Countable(v)
    ensures copy == v
  {
    match v
    case JArray(_) => copy := CopyByDocument(v);
    case JObject(_) => copy := CopyByDocument(v);
    case JString(s) => copy := JString(s);
    case _ => copy := v;
  }

  method CopyByDocument(v: Json) returns (copy: Json)
    requires Countable(v)
    ensures copy == v
  {
    var d := new Document();
    d.Replay(v);
    var one := d.Pop(1);
    copy := one[0];
  }

  /** GenericValue::Accept with a Writer as the handler; it ends early where the writer refuses a string. */
  method Accept(v: Json, w: Writer.Writer) returns (ok: bool)
    requires W.Ready(w.Now())
    modifies w
    ensures ok <==> W.Printable(w.u, v)
    ensures ok ==> w.Now() == W.After(old(w.Now()), W.Print(w.u, v))
    decreases v, 1
  {
    hide W.UnitTexts, W.Writable, W.PrintItems, W.PrintMembers;
    ok := true;
    match v
    case JNull => w.Null();
    case JBool(b) => w.Bool(b);
    case JInt(n) => w.Number(ValueNum(n));
    case JDouble(t) => w.Double(t);
    case JString(s) => ok := w.String(s);
    case JArray(items) => ok := AcceptArray(items, w);
    case JObject(members) => ok := AcceptObject(members, w);
  }

  method AcceptArray(items: seq<Json>, w: Writer.Writer) returns (ok: bool)
    requires W.Ready(w.Now())
    modifies w
    ensures ok <==> W.Printable(w.u, JArray(items))
    ensures ok ==> w.Now() == W.After(old(w.Now()), W.Print(w.u, JArray(items)))
    decreases items, 2
  {
    hide W.Print, W.PrintItems, W.After, W.Put, W.PutAll;
    ghost var w0 := W.Prefix(w.Now(), false).value;
    W.OpenThenClose(w.u, w.Now(), true, |items|, W.PrintItems(w.u, items, true), Event.EndArray(|items|));
    W.PutOne(w.u, w.Now(), Event.StartArray);
    w.StartArray();
    var i := 0;
    while i < |items|
      invariant i <= |items|
      invariant w.os + W.PrintItems(w.u, items[i..], i == 0) == w0.os + [0x5B] + W.PrintItems(w.u, items, true)
      invariant w.levelStack == w0.levels + [W.Level(i, true)] && w.hasRoot == w0.hasRoot
      invariant forall j :: 0 <= j < i ==> W.Printable(w.u, items[j])
    {
      W.AfterInArray(w.Now(), w0.levels, i, W.Print(w.u, items[i]));
      NextItem(w.u, w.os, items[i..], i == 0);
      ok := Accept(items[i], w);
      if !ok {
        return;
      }
      assert items[i..][1..] == items[i + 1..];
      i := i + 1;
    }
    assert items[i..] == [];
    NoItems(w.u, w.os, i == 0);
    assert w.Now() == W.State(w0.os + [0x5B] + W.PrintItems(w.u, items, true), w0.levels + [W.Level(|items|, true)], w0.hasRoot);
    W.PutOne(w.u, w.Now(), Event.EndArray(|items|));
    w.EndArray(|items|);
    ArrayText(w.u, items);
    ok := true;
  }

  lemma ArrayText(u: bool, items: seq<Json>)
    ensures W.Print(u, JArray(items)) == [0x5B] + W.PrintItems(u, items, true) + [0x5D]
  {
  }

  lemma NoItems(u: bool, os: bytes, first: bool)
    ensures os + W.PrintItems(u, [], first) == os == os + W.PrintMembers(u, [], first)
  {
  }

  lemma NextItem(u: bool, os: bytes, items: seq<Json>, first: bool)
    requires items != []
    ensures os + W.PrintItems(u, items, first) ==
            (os + (if first then [] else [0x2C]) + W.Print(u, items[0])) + W.PrintItems(u, items[1..], false)
  {
    hide W.Print;
    var sep: bytes := if first then [] else [0x2C];
    var t, rest := W.Print(u, items[0]), W.PrintItems(u, items[1..], false);
    assert os + (sep + t + rest) == (os + sep + t) + rest;
  }

  method AcceptObject(members: seq<Member>, w: Writer.Writer) returns (ok: bool)
    requires W.Ready(w.Now())
    modifies w
    ensures ok <==> W.Printable(w.u, JObject(members))
    ensures ok ==> w.Now() == W.After(old(w.Now()), W.Print(w.u, JObject(members)))
    decreases members, 2
  {
    hide W.Print, W.PrintMembers, W.After, W.StringText, W.Writable, W.Put, W.PutAll;
    ghost var w0 := W.Prefix(w.Now(), false).value;
    W.OpenThenClose(w.u, w.Now(), false, 2 * |members|, W.PrintMembers(w.u, members, true), Event.EndObject(|members|));
    W.PutOne(w.u, w.Now(), Event.StartObject);
    w.StartObject();
    var i := 0;
    while i < |members|
      invariant i <= |members|
      invariant w.os + W.PrintMembers(w.u, members[i..], i == 0) == w0.os + [0x7B] + W.PrintMembers(w.u, members, true)
      invariant w.levelStack == w0.levels + [W.Level(2 * i, false)] && w.hasRoot == w0.hasRoot
      invariant forall j :: 0 <= j < i ==> W.Writable(w.u, members[j].name, 0) && W.Printable(w.u, members[j].value)
    {
      NextMember(w.u, w.os, members[i..], i == 0);
      ok := AcceptMember(members[i], w, w0.levels, i);
      if !ok {
        return;
      }
      assert members[i..][1..] == members[i + 1..];
      i := i + 1;
    }
    assert members[i..] == [];
    NoItems(w.u, w.os, i == 0);
    assert w.Now() == W.State(w0.os + [0x7B] + W.PrintMembers(w.u, members, true), w0.levels + [W.Level(2 * |members|, false)], w0.hasRoot);
    W.PutOne(w.u, w.Now(), Event.EndObject(|members|));
    w.EndObject(|members|);
    ObjectText(w.u, members);
    ok := true;
  }

  /** One Key call and one value, the `i`-th of its object. */
  method AcceptMember(m: Member, w: Writer.Writer, ghost base: seq<W.Level>, ghost i: nat) returns (ok: bool)
    requires w.levelStack == base + [W.Level(2 * i, false)]
    modifies w
    ensures ok <==> W.Writable(w.u, m.name, 0) && W.Printable(w.u, m.value)
    ensures ok ==> w.Now() == W.State(old(w.os) + MemberText(w.u, m, i == 0), base + [W.Level(2 * i + 2, false)], old(w.hasRoot))
    decreases m, 3
  {
    hide W.Print, W.StringText, W.Writable, W.After, W.Put, W.Prefix, W.Printable, W.Ready;
    ghost var sep: bytes := if i == 0 then [] else [0x2C];
    W.NameInObject(w.u, w.Now(), base, i, m.name);
    ok := w.String(m.name);
    if !ok {
      return;
    }
    W.AfterInObject(w.Now(), base, i, W.Print(w.u, m.value));
    ok := Accept(m.value, w);
    assert old(w.os) + sep + W.StringText(w.u, m.name) + [0x3A] + W.Print(w.u, m.value)
        == old(w.os) + MemberText(w.u, m, i == 0);
  }

  function MemberText(u: bool, m: Member, first: bool): bytes {
    (if first then [] else [0x2C]) + W.StringText(u, m.name) + [0x3A] + W.Print(u, m.value)
  }

  lemma ObjectText(u: bool, members: seq<Member>)
    ensures W.Print(u, JObject(members)) == [0x7B] + W.PrintMembers(u, members, true) + [0x7D]
  {
  }

  lemma NextMember(u: bool, os: bytes, members: seq<Member>, first: bool)
    requires members != []
    ensures os + W.PrintMembers(u, members, first) ==
            (os + MemberText(u, members[0], first)) + W.PrintMembers(u, members[1..], false)
  {
    hide W.Print, W.StringText;
    var t, rest := MemberText(u, members[0], first), W.PrintMembers(u, members[1..], false);
    assert os + (t + rest) == (os + t) + rest;
  }
}
