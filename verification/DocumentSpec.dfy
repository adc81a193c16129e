/** GenericDocument as a stack machine over events, and the flags that GenericValue gives an integer. */
module DocumentSpec {
  import opened Bytes
  import opened Json
  import R = ReaderSpec
  import W = WriterSpec
  import EventTrees
  import G = Grammar
  import GrammarComplete
  import RoundTrip

  // The flags of a number

  datatype NumFlags = NumFlags(isInt: bool, isUint: bool, isInt64: bool, isUint64: bool)

  function IntFlags(i: int): NumFlags {
    NumFlags(true, i >= 0, true, i >= 0)
  }

  /** `!(u & 0x80000000)` */
  function UintFlags(u: nat): NumFlags {
    NumFlags(u / 0x8000_0000 % 2 == 0, true, true, true)
  }

  /** The tests on the upper 32 and upper 33 bits of the 64. */
  function Int64Flags(i: int): NumFlags {
    if i >= 0 then NumFlags(i / 0x8000_0000 == 0, i / 0x1_0000_0000 == 0, true, true)
    else NumFlags(i >= -0x8000_0000, false, true, false)
  }

  function Uint64Flags(u: nat): NumFlags {
    NumFlags(u / 0x8000_0000 == 0, u / 0x1_0000_0000 == 0, u / 0x8000_0000_0000_0000 % 2 == 0, true)
  }

  /** Is this an integer event whose argument its parameter type can hold? */
  predicate Typed(e: Event) {
    match e
    case Int(n) => FitsInt(n)
    case Uint(n) => FitsUint(n)
    case Int64(n) => FitsInt64(n)
    case Uint64(n) => FitsUint64(n)
    case _ => false
  }

  function FlagsOf(e: Event): NumFlags
    requires Typed(e)
  {
    match e
    case Int(n) => IntFlags(n)
    case Uint(n) => UintFlags(n)
    case Int64(n) => Int64Flags(n)
    case Uint64(n) => Uint64Flags(n)
  }

  /**
   * Whatever class an integer arrives in, its flags say exactly which of the four types hold its value:
   * a value needs no memory of its class.
   */
  lemma FlagsAreRanges(e: Event)
    requires Typed(e)
    ensures FlagsOf(e) == NumFlags(FitsInt(e.n), FitsUint(e.n), FitsInt64(e.n), FitsUint64(e.n))
  {
  }

  /** The class in which Accept replays a number with these flags. */
  function Replayed(n: int, f: NumFlags): Event {
    if f.isInt then Int(n)
    else if f.isUint then Uint(n)
    else if f.isInt64 then Int64(n)
    else Uint64(n)
  }

  /** Accept replays an integer with its value, in the narrowest class, whatever class it came in. */
  lemma ReplayIsNarrowest(e: Event)
    requires Typed(e)
    ensures Replayed(e.n, FlagsOf(e)) == ValueNum(e.n) && Typed(ValueNum(e.n))
  {
    FlagsAreRanges(e);
  }

  // The handler

  /** Pairs of stack values as members; nothing when a name is not a string. */
  function ToMembers(values: seq<Json>): Option<seq<Member>>
    requires |values| % 2 == 0
    decreases |values|
  {
    if values == [] then Some([])
    else if !values[0].JString? then None
    else
      var rest := ToMembers(values[2..]);
      if rest == None then None else Some([Member(values[0].str, values[1])] + rest.value)
  }

  /** One handler call; nothing where Pop or Top would reach below the stack. */
  function Apply(stack: seq<Json>, e: Event): Option<seq<Json>> {
    match e
    case Null => Some(stack + [JNull])
    case Bool(b) => Some(stack + [JBool(b)])
    case Int(n) => Some(stack + [JInt(n)])
    case Uint(n) => Some(stack + [JInt(n)])
    case Int64(n) => Some(stack + [JInt(n)])
    case Uint64(n) => Some(stack + [JInt(n)])
    case Double(t) => Some(stack + [JDouble(t)])
    case String(s) => Some(stack + [JString(s)])
    case Key(s) => Some(stack + [JString(s)])
    case StartObject => Some(stack + [JObject([])])
    case StartArray => Some(stack + [JArray([])])
    case EndObject(count) =>
      if |stack| < 2 * count + 1 then None
      else
        var k := |stack| - 2 * count;
        var members := ToMembers(stack[k..]);
        if members == None then None else Some(stack[..k - 1] + [JObject(members.value)])
    case EndArray(count) =>
      if |stack| < count + 1 then None
      else
        var k := |stack| - count;
        Some(stack[..k - 1] + [JArray(stack[k..])])
  }

  function ApplyAll(stack: seq<Json>, es: seq<Event>): Option<seq<Json>>
    decreases |es|
  {
    if es == [] then Some(stack)
    else
      var s := Apply(stack, es[0]);
      if s == None then None else ApplyAll(s.value, es[1..])
  }

  lemma {:induction false} ApplyConcat(stack: seq<Json>, a: seq<Event>, b: seq<Event>)
    ensures ApplyAll(stack, a + b) == var s := ApplyAll(stack, a); if s == None then None else ApplyAll(s.value, b)
    decreases |a|
  {
    hide Apply;
    if a == [] {
      assert a + b == b;
    } else {
      assert (a + b)[1..] == a[1..] + b;
      var s := Apply(stack, a[0]);
      if s.Some? {
        ApplyConcat(s.value, a[1..], b);
      }
    }
  }

  lemma ApplyOne(stack: seq<Json>, e: Event)
    ensures ApplyAll(stack, [e]) == Apply(stack, e)
  {
    hide Apply;
    assert [e][1..] == [];
    assert Apply(stack, e).Some? ==> ApplyAll(Apply(stack, e).value, []) == Apply(stack, e);
  }

  lemma ApplyThen(stack: seq<Json>, a: seq<Event>, s1: seq<Json>, b: seq<Event>, s2: seq<Json>)
    requires ApplyAll(stack, a) == Some(s1) && ApplyAll(s1, b) == Some(s2)
    ensures ApplyAll(stack, a + b) == Some(s2)
  {
    ApplyConcat(stack, a, b);
  }

  /** Pops never reach below the starting height: what runs on a stack runs the same above any base. */
  lemma {:induction false} BaseUntouched(base: seq<Json>, stack: seq<Json>, es: seq<Event>)
    requires ApplyAll(stack, es).Some?
    ensures ApplyAll(base + stack, es) == Some(base + ApplyAll(stack, es).value)
    decreases |es|
  {
    hide Apply;
    if es != [] {
      BaseUntouchedOnce(base, stack, es[0]);
      BaseUntouched(base, Apply(stack, es[0]).value, es[1..]);
    }
  }

  lemma BaseUntouchedOnce(base: seq<Json>, stack: seq<Json>, e: Event)
    requires Apply(stack, e).Some?
    ensures Apply(base + stack, e) == Some(base + Apply(stack, e).value)
  {
    var r := Apply(stack, e).value;
    if e.EndObject? || e.EndArray? {
      var k := |stack| - if e.EndObject? then 2 * e.count else e.count;
      var x := r[k - 1];
      assert (base + stack)[|base| + k..] == stack[k..];
      assert (base + stack)[..|base| + k - 1] == base + stack[..k - 1];
      assert base + stack[..k - 1] + [x] == base + (stack[..k - 1] + [x]);
    } else {
      var x := r[|stack|];
      assert base + stack + [x] == base + (stack + [x]);
    }
  }

  /** The members of an object as the stack holds them. */
  function FromMembers(members: seq<Member>): (r: seq<Json>)
    ensures |r| == 2 * |members|
  {
    if members == [] then [] else [JString(members[0].name), members[0].value] + FromMembers(members[1..])
  }

  lemma {:induction false} ToMembersUndoes(members: seq<Member>)
    ensures ToMembers(FromMembers(members)) == Some(members)
    decreases |members|
  {
    if members != [] {
      ToMembersUndoes(members[1..]);
      assert FromMembers(members)[2..] == FromMembers(members[1..]);
      assert members == [Member(members[0].name, members[0].value)] + members[1..];
    }
  }

  /** The events of a tree leave the stack as it was, plus that one tree. */
  lemma {:induction false} BuildsTree(stack: seq<Json>, v: Json, num: int -> Event)
    requires Countable(v) && W.Numbers(num)
    ensures ApplyAll(stack, Events(v, num)) == Some(stack + [v])
    decreases v, 1
  {
    hide ItemEvents, MemberEvents, ApplyAll;
    match v
    case JArray(items) =>
      BuildsArray(stack, items, num);
    case JObject(members) =>
      BuildsObject(stack, members, num);
    case JInt(n) =>
      assert Plain(num(n)) == Int(n);
      ApplyOne(stack, num(n));
    case _ =>
      ApplyOne(stack, Events(v, num)[0]);
  }

  lemma {:induction false} BuildsArray(stack: seq<Json>, items: seq<Json>, num: int -> Event)
    requires Countable(JArray(items)) && W.Numbers(num)
    ensures ApplyAll(stack, Events(JArray(items), num)) == Some(stack + [JArray(items)])
    decreases items, 1
  {
    hide ItemEvents, MemberEvents, ApplyAll;
    var mid := stack + [JArray([])];
    ApplyOne(stack, StartArray);
    BuildsItems(mid, items, num);
    ApplyThen(stack, [StartArray], mid, ItemEvents(items, num), mid + items);
    ApplyOne(mid + items, EndArray(|items|));
    assert (mid + items)[|stack| + 1..] == items;
    assert (mid + items)[..|stack|] == stack;
    ApplyThen(stack, [StartArray] + ItemEvents(items, num), mid + items, [EndArray(|items|)],
              stack + [JArray(items)]);
  }

  lemma {:induction false} BuildsObject(stack: seq<Json>, members: seq<Member>, num: int -> Event)
    requires Countable(JObject(members)) && W.Numbers(num)
    ensures ApplyAll(stack, Events(JObject(members), num)) == Some(stack + [JObject(members)])
    decreases members, 1
  {
    hide ItemEvents, MemberEvents, ApplyAll, FromMembers, ToMembers;
    var mid, flat := stack + [JObject([])], FromMembers(members);
    ApplyOne(stack, StartObject);
    BuildsMembers(mid, members, num);
    ApplyThen(stack, [StartObject], mid, MemberEvents(members, num), mid + flat);
    ApplyOne(mid + flat, EndObject(|members|));
    ClosesObject(stack, members);
    ApplyThen(stack, [StartObject] + MemberEvents(members, num), mid + flat, [EndObject(|members|)],
              stack + [JObject(members)]);
  }

  lemma {:induction false} BuildsItems(stack: seq<Json>, items: seq<Json>, num: int -> Event)
    requires (forall i :: 0 <= i < |items| ==> Countable(items[i])) && W.Numbers(num)
    ensures ApplyAll(stack, ItemEvents(items, num)) == Some(stack + items)
    decreases items, 0
  {
    hide Events, Countable;
    if items == [] {
      assert stack + items == stack;
    } else {
      var s1 := stack + [items[0]];
      BuildsTree(stack, items[0], num);
      BuildsItems(s1, items[1..], num);
      assert s1 + items[1..] == stack + items;
      ApplyThen(stack, Events(items[0], num), s1, ItemEvents(items[1..], num), stack + items);
    }
  }

  lemma BuildsNothing(stack: seq<Json>, num: int -> Event)
    ensures ApplyAll(stack, MemberEvents([], num)) == Some(stack)
  {
  }

  lemma PushesKey(stack: seq<Json>, name: bytes)
    ensures ApplyAll(stack, [Key(name)]) == Some(stack + [JString(name)])
  {
    ApplyOne(stack, Key(name));
  }

  lemma NextMember(stack: seq<Json>, members: seq<Member>)
    requires members != []
    ensures stack + [JString(members[0].name)] + [members[0].value] + FromMembers(members[1..])
            == stack + FromMembers(members)
  {
  }

  lemma OpensObject(stack: seq<Json>)
    ensures Apply(stack, StartObject) == Some(stack + [JObject([])] + FromMembers([]))
  {
    assert stack + [JObject([])] + [] == stack + [JObject([])];
  }

  /** The end of an object turns what its members left on the stack into the object. */
  lemma {:induction false} ClosesObject(stack: seq<Json>, members: seq<Member>)
    ensures Apply(stack + [JObject([])] + FromMembers(members), EndObject(|members|)) ==
            Some(stack + [JObject(members)])
  {
    hide FromMembers, ToMembers;
    var mid, flat := stack + [JObject([])], FromMembers(members);
    ToMembersUndoes(members);
    assert (mid + flat)[|stack| + 1..] == flat;
    assert (mid + flat)[..|stack|] == stack;
  }

  lemma {:induction false} FromLast(members: seq<Member>, i: nat)
    requires i < |members|
    ensures FromMembers(members[..i + 1]) ==
            FromMembers(members[..i]) + [JString(members[i].name), members[i].value]
    decreases i
  {
    assert members[..i + 1][1..] == members[1..][..i];
    if i == 0 {
      assert members[..0] == [] && members[1..][..0] == [];
    } else {
      assert members[..i][1..] == members[1..][..i - 1];
      FromLast(members[1..], i - 1);
    }
  }

  lemma {:induction false} LastMember(stack: seq<Json>, members: seq<Member>, i: nat)
    requires i < |members|
    ensures stack + FromMembers(members[..i]) + [JString(members[i].name)] + [members[i].value] ==
            stack + FromMembers(members[..i + 1])
  {
    hide FromMembers;
    FromLast(members, i);
  }

  lemma {:induction false} BuildsMembers(stack: seq<Json>, members: seq<Member>, num: int -> Event)
    requires (forall i :: 0 <= i < |members| ==> Countable(members[i].value)) && W.Numbers(num)
    ensures ApplyAll(stack, MemberEvents(members, num)) == Some(stack + FromMembers(members))
    decreases members, 0
  {
    hide Events, Countable, ApplyAll, Apply, FromMembers;
    if members == [] {
      assert FromMembers(members) == [] && stack + [] == stack;
      BuildsNothing(stack, num);
    } else {
      var m := members[0];
      var s1, s2 := stack + [JString(m.name)], stack + [JString(m.name)] + [m.value];
      PushesKey(stack, m.name);
      BuildsTree(s1, m.value, num);
      BuildsMembers(s2, members[1..], num);
      ApplyThen(stack, [Key(m.name)], s1, Events(m.value, num), s2);
      NextMember(stack, members);
      ApplyThen(stack, [Key(m.name)] + Events(m.value, num), s2, MemberEvents(members[1..], num),
                stack + FromMembers(members));
    }
  }

  // A container with more entries than SizeType counts leaves some of them behind.

  /** The events of a tree leave at least one value more, and more than one unless the tree is countable. */
  lemma {:induction false} TreeHeight(stack: seq<Json>, v: Json, num: int -> Event)
    requires W.Numbers(num)
    ensures var r := ApplyAll(stack, Events(v, num));
            r.Some? ==> |r.value| >= |stack| + 1 && (|r.value| == |stack| + 1 ==> Countable(v))
    decreases v, 1
  {
    hide ItemEvents, MemberEvents, ApplyAll;
    match v
    case JArray(items) =>
      ApplyOne(stack, StartArray);
      ItemsHeight(stack + [JArray([])], items, num);
      CloseHeight(stack, StartArray, ItemEvents(items, num), EndArray(SizeType(|items|)));
    case JObject(members) =>
      ApplyOne(stack, StartObject);
      MembersHeight(stack + [JObject([])], members, num);
      CloseHeight(stack, StartObject, MemberEvents(members, num), EndObject(SizeType(|members|)));
    case JInt(n) =>
      assert Plain(num(n)) == Int(n);
      ApplyOne(stack, num(n));
    case _ =>
      ApplyOne(stack, Events(v, num)[0]);
  }

  /** What a container leaves, when its entries leave the stack `mid`. */
  lemma {:induction false} CloseHeight(stack: seq<Json>, start: Event, es: seq<Event>, end: Event)
    requires start.StartArray? || start.StartObject?
    requires end.EndArray? || end.EndObject?
    ensures var mid := ApplyAll(stack + [if start.StartArray? then JArray([]) else JObject([])], es);
            var r := ApplyAll(stack, [start] + es + [end]);
            r.Some? ==> mid.Some? && |r.value| == |mid.value| - if end.EndArray? then end.count else 2 * end.count
  {
    hide ApplyAll;
    ApplyOne(stack, start);
    ApplyConcat(stack, [start], es);
    ApplyConcat(stack, [start] + es, [end]);
    var mid := ApplyAll(stack + [if start.StartArray? then JArray([]) else JObject([])], es);
    if mid.Some? {
      ApplyOne(mid.value, end);
    }
  }

  lemma {:induction false} ItemsHeight(stack: seq<Json>, items: seq<Json>, num: int -> Event)
    requires W.Numbers(num)
    ensures var r := ApplyAll(stack, ItemEvents(items, num));
            r.Some? ==>
              && |r.value| >= |stack| + |items|
              && (|r.value| == |stack| + |items| ==> forall i :: 0 <= i < |items| ==> Countable(items[i]))
    decreases items, 0
  {
    hide Events, Countable, Apply;
    if items != [] {
      TreeHeight(stack, items[0], num);
      ApplyConcat(stack, Events(items[0], num), ItemEvents(items[1..], num));
      var s1 := ApplyAll(stack, Events(items[0], num));
      if s1.Some? {
        ItemsHeight(s1.value, items[1..], num);
        assert forall i :: 0 < i < |items| ==> items[i] == items[1..][i - 1];
      }
    }
  }

  lemma {:induction false} MembersHeight(stack: seq<Json>, members: seq<Member>, num: int -> Event)
    requires W.Numbers(num)
    ensures var r := ApplyAll(stack, MemberEvents(members, num));
            r.Some? ==>
              && |r.value| >= |stack| + 2 * |members|
              && (|r.value| == |stack| + 2 * |members| ==>
                    forall i :: 0 <= i < |members| ==> Countable(members[i].value))
    decreases members, 0
  {
    hide Events, Countable, Apply;
    if members != [] {
      var m := members[0];
      PushesKey(stack, m.name);
      TreeHeight(stack + [JString(m.name)], m.value, num);
      ApplyConcat(stack, [Key(m.name)], Events(m.value, num));
      ApplyConcat(stack, [Key(m.name)] + Events(m.value, num), MemberEvents(members[1..], num));
      var s2 := ApplyAll(stack, [Key(m.name)] + Events(m.value, num));
      if s2.Some? {
        MembersHeight(s2.value, members[1..], num);
        assert forall i :: 0 < i < |members| ==> members[i] == members[1..][i - 1];
      }
    }
  }

  /** The events of a tree leave one single value if and only if the tree is countable: and then that tree. */
  lemma {:induction false} OneValueIff(v: Json, num: int -> Event)
    requires W.Numbers(num)
    ensures OneValue(ApplyAll([], Events(v, num))) <==> Countable(v)
    ensures Countable(v) ==> ApplyAll([], Events(v, num)) == Some([v])
  {
    hide Countable, Events, ApplyAll;
    TreeHeight([], v, num);
    if Countable(v) {
      BuildsTree([], v, num);
      assert [] + [v] == [v];
    }
  }

  /** The stack machine does not look at the class of an integer. */
  lemma {:induction false} ClassIgnored(stack: seq<Json>, es: seq<Event>)
    ensures ApplyAll(stack, PlainAll(es)) == ApplyAll(stack, es)
    decreases |es|
  {
    if es != [] {
      assert PlainAll(es)[1..] == PlainAll(es[1..]);
      assert Apply(stack, Plain(es[0])) == Apply(stack, es[0]);
      var s := Apply(stack, es[0]);
      if s.Some? {
        ClassIgnored(s.value, es[1..]);
      }
    }
  }

  // Parsing into a document

  /** The document's handler returns true from every call. */
  function Input(s: bytes, flags: R.Flags): R.Input {
    R.Input(s, es => true, flags)
  }

  predicate OneValue(stack: Option<seq<Json>>) {
    stack.Some? && |stack.value| == 1
  }

  /** What the handler makes of a parse; nothing where it would pop below its stack. */
  function Built(s: bytes, flags: R.Flags): Option<seq<Json>> {
    ApplyAll([], R.Parse(Input(s, flags)).out)
  }

  /** The assertions of ParseStream hold: no pop underflows, and an accepted text leaves one and only one root. */
  predicate Asserted(s: bytes, flags: R.Flags) {
    R.Parse(Input(s, flags)).Ok() ==> OneValue(Built(s, flags))
  }

  /** ParseStream: the one value left on the stack, or null after an error. */
  function ParseStream(s: bytes, flags: R.Flags): Json {
    if R.Parse(Input(s, flags)).Ok() && OneValue(Built(s, flags)) then Built(s, flags).value[0] else JNull
  }

  /**
   * The assertions hold for an accepted text if and only if no container of the tree that it stands for has
   * 2^32 entries or more, so for every text shorter than that; the root is then that tree.
   */
  lemma {:induction false} OneRoot(s: bytes, flags: R.Flags) returns (v: Json)
    requires R.Parse(Input(s, flags)).Ok()
    ensures G.Readable(Input(s, flags), v) && Ranged(v)
    ensures Asserted(s, flags) <==> Countable(v)
    ensures |s| < TWO_TO_THE_32 ==> Asserted(s, flags)
    ensures Asserted(s, flags) ==> Built(s, flags) == Some([v]) && ParseStream(s, flags) == v
    ensures PlainAll(R.Parse(Input(s, flags)).out) == Events(v, PlainNum)
  {
    hide R.Parse, Ranged, Countable, G.Readable, Events, ApplyAll, PlainAll;
    v := EventTrees.AcceptedIsTree(Input(s, flags));
    ClassIgnored([], R.Parse(Input(s, flags)).out);
    OneValueIff(v, PlainNum);
  }

  /** Writer and document together: parsing the text of a tree gives that tree, for either target. */
  lemma {:induction false} DocumentReadsBack(u: bool, v: Json, flags: R.Flags)
    requires Exact(v) && Countable(v) && W.Printable(u, v) && RoundTrip.Valid(Input([], flags), u, v)
    ensures R.Parse(Input(W.Print(u, v), flags)).Ok() && Built(W.Print(u, v), flags) == Some([v])
    ensures ParseStream(W.Print(u, v), flags) == v
  {
    hide R.Parse, W.Print, Exact, Countable, W.Printable, ApplyAll, Events;
    var c := Input(W.Print(u, v), flags);
    ValidIgnoresText(c, Input([], flags), u, v);
    RoundTrip.ParseUndoesPrint(c, u, v);
    BuildsTree([], v, ReaderNum);
    assert [] + [v] == [v];
  }

  lemma {:induction false} ValidIgnoresText(c: R.Input, c': R.Input, u: bool, v: Json)
    requires c.flags == c'.flags
    ensures RoundTrip.Valid(c, u, v) == RoundTrip.Valid(c', u, v)
    decreases v
  {
    match v
    case JArray(items) =>
      forall i | 0 <= i < |items| ensures RoundTrip.Valid(c, u, items[i]) == RoundTrip.Valid(c', u, items[i]) {
        ValidIgnoresText(c, c', u, items[i]);
      }
    case JObject(members) =>
      forall i | 0 <= i < |members|
        ensures RoundTrip.Valid(c, u, members[i].value) == RoundTrip.Valid(c', u, members[i].value)
      {
        ValidIgnoresText(c, c', u, members[i].value);
      }
    case _ =>
  }

  /** The deep-copy constructor: Accept replays the tree into a new document. */
  lemma DeepCopyIsEqual(v: Json)
    requires Countable(v)
    ensures ApplyAll([], Events(v, ValueNum)) == Some([v])
  {
    BuildsTree([], v, ValueNum);
    assert [] + [v] == [v];
  }

  /** The events of a tree differ at most in the integer class, whatever class is chosen. */
  lemma {:induction false} EventsPlain(v: Json, num: int -> Event)
    requires W.Numbers(num)
    ensures PlainAll(Events(v, num)) == Events(v, PlainNum)
    decreases v, 1
  {
    hide ItemEvents, MemberEvents, SizeType, PlainAll;
    assert forall e :: PlainAll([e]) == [Plain(e)] by { PlainOne(); }
    match v
    case JArray(items) =>
      ItemEventsPlain(items, num);
      var e := EndArray(SizeType(|items|));
      PlainConcat([StartArray] + ItemEvents(items, num), [e]);
      PlainConcat([StartArray], ItemEvents(items, num));
    case JObject(members) =>
      MemberEventsPlain(members, num);
      var e := EndObject(SizeType(|members|));
      PlainConcat([StartObject] + MemberEvents(members, num), [e]);
      PlainConcat([StartObject], MemberEvents(members, num));
    case _ =>
  }

  lemma PlainOne()
    ensures forall e :: PlainAll([e]) == [Plain(e)]
  {
  }

  lemma {:induction false} ItemEventsPlain(items: seq<Json>, num: int -> Event)
    requires W.Numbers(num)
    ensures PlainAll(ItemEvents(items, num)) == ItemEvents(items, PlainNum)
    decreases items, 0
  {
    hide Events, Plain;
    if items != [] {
      EventsPlain(items[0], num);
      ItemEventsPlain(items[1..], num);
      PlainConcat(Events(items[0], num), ItemEvents(items[1..], num));
    }
  }

  lemma {:induction false} MemberEventsPlain(members: seq<Member>, num: int -> Event)
    requires W.Numbers(num)
    ensures PlainAll(MemberEvents(members, num)) == MemberEvents(members, PlainNum)
    decreases members, 0
  {
    hide Events;
    if members != [] {
      var m := members[0];
      EventsPlain(m.value, num);
      MemberEventsPlain(members[1..], num);
      PlainConcat([Key(m.name)], Events(m.value, num));
      PlainConcat([Key(m.name)] + Events(m.value, num), MemberEvents(members[1..], num));
    }
  }

  /** Accept on a parsed document replays the events of the parse, up to the integer class. */
  lemma {:induction false} AcceptReplaysParse(s: bytes, flags: R.Flags)
    requires R.Parse(Input(s, flags)).Ok() && Asserted(s, flags)
    ensures PlainAll(Events(ParseStream(s, flags), ValueNum)) == PlainAll(R.Parse(Input(s, flags)).out)
  {
    hide R.Parse, Ranged, Countable, PlainAll, Events, ParseStream, Built, G.Readable;
    var v := OneRoot(s, flags);
    EventsPlain(v, ValueNum);
  }

  /**
   * The document is the meaning of the text: a text stands for a tree with countable containers, and has no
   * exception, if and only if it is accepted and what is built from it is that one tree. So no text stands
   * for two such trees.
   */
  lemma {:induction false} DocumentIsMeaning(s: bytes, flags: R.Flags, v: Json)
    ensures G.Readable(Input(s, flags), v) && Countable(v) <==>
            R.Parse(Input(s, flags)).Ok() && Built(s, flags) == Some([v])
  {
    hide R.Parse, Ranged, Countable, PlainAll, Events, ParseStream, ApplyAll, G.Readable;
    var c := Input(s, flags);
    if G.Readable(c, v) && Countable(v) {
      GrammarComplete.TextIsAccepted(c, v);
      ClassIgnored([], R.Parse(c).out);
      OneValueIff(v, PlainNum);
    }
    if R.Parse(c).Ok() && Built(s, flags) == Some([v]) {
      var w := OneRoot(s, flags);
    }
  }

  /** What the writer prints for a tree stands for that tree, and holds no exception. */
  lemma {:induction false} PrintedMeans(u: bool, v: Json, flags: R.Flags)
    requires Exact(v) && Countable(v) && W.Printable(u, v) && RoundTrip.Valid(Input([], flags), u, v)
    ensures G.Readable(Input(W.Print(u, v), flags), v)
  {
    hide R.Parse, W.Print, Exact, Countable, W.Printable, RoundTrip.Valid, ParseStream, G.Readable, ApplyAll;
    DocumentReadsBack(u, v, flags);
    DocumentIsMeaning(W.Print(u, v), flags, v);
  }
}
