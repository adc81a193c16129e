/**
 * What an accepted text delivers: it is a text of the grammar, and the events are those of the tree that it
 * stands for, with the counts of its containers.
 */
module EventTrees {
  import opened Bytes
  import opened Json
  import opened ReaderSpec
  import opened Grammar
  import opened GrammarTokens

  /** A text shorter than 2^32 has no container that SizeType could not count. */
  predicate Counted(c: Input, v: Json) {
    |c.s| < TWO_TO_THE_32 ==> Countable(v)
  }

  /** One event, or none, was added, and the number class of what was added does not matter. */
  predicate Adds(st: St, r: St, es: seq<Event>) {
    PlainAll(r.out) == PlainAll(st.out) + es
  }

  lemma AddsTrans(a: St, b: St, c: St, es: seq<Event>, fs: seq<Event>)
    requires Adds(a, b, es) && Adds(b, c, fs)
    ensures Adds(a, c, es + fs)
  {
  }

  lemma EmitAdds(c: Input, st: St, p: nat, e: Event)
    ensures Adds(st, Emit(c, st.AtPos(p), e), [Plain(e)])
  {
    PlainConcat(st.out, [e]);
  }

  /** What lies between `st` and `r` is one value of the grammar, and its events were delivered. */
  ghost predicate Tree(c: Input, st: St, r: St, v: Json) {
    && Ranged(v) && Counted(c, v) && Adds(st, r, Events(v, PlainNum))
    && Denotes(c, st.pos, r.pos, v) && Longest(c.s, st.pos, r.pos, v) && Passes(c.s, st.pos, r.pos)
  }

  lemma {:induction false} ValueTree(c: Input, st: St) returns (v: Json)
    requires st.Ok() && ParseValue(c, st).Ok() && st.pos <= |c.s|
    ensures Tree(c, st, ParseValue(c, st), v)
    decreases Left(c.s, st.pos), 2
  {
    hide ParseArray, ParseObject, ParseLiteral, ParseString, ParseNumber, Tree;
    var ch := Peek(c.s, st.pos);
    if ch == 0x7B {
      v := ObjectTree(c, st);
    } else if ch == 0x5B {
      v := ArrayTree(c, st);
    } else if ch == 0x6E {
      v := JNull;
      LiteralTree(c, st, 0x6E, NULL_REST, Null, v);
    } else if ch == 0x74 {
      v := JBool(true);
      LiteralTree(c, st, 0x74, TRUE_REST, Bool(true), v);
    } else if ch == 0x66 {
      v := JBool(false);
      LiteralTree(c, st, 0x66, FALSE_REST, Bool(false), v);
    } else if ch == 0x22 {
      v := StringTree(c, st);
    } else {
      v := NumberTree(c, st);
    }
  }

  lemma {:induction false} LiteralTree(c: Input, st: St, first: byte, rest: bytes, e: Event, v: Json)
    requires st.Ok() && Peek(c.s, st.pos) == first && ParseLiteral(c, st, rest, e).Ok()
    requires (first, rest, e, v) == (0x6E, NULL_REST, Null, JNull) ||
             (first, rest, e, v) == (0x74, TRUE_REST, Bool(true), JBool(true)) ||
             (first, rest, e, v) == (0x66, FALSE_REST, Bool(false), JBool(false))
    ensures Tree(c, st, ParseLiteral(c, st, rest, e), v)
  {
    hide TakeMatch, Adds, Passes, At;
    TakenLiteral(c.s, st.pos, first, rest);
    LiteralPasses(c.s, st.pos, [first] + rest);
    EmitAdds(c, st, st.pos + 1 + |rest|, e);
  }

  lemma {:induction false} StringTree(c: Input, st: St) returns (v: Json)
    requires st.Ok() && Peek(c.s, st.pos) == 0x22 && ParseString(c, st, false).Ok()
    ensures Tree(c, st, ParseString(c, st, false), v)
  {
    hide ScanString, Adds, Passes, Str;
    var r := ScanString(c, st.pos + 1, [], None);
    v := JString(r.text);
    TakenStr(c, st.pos);
    EmitAdds(c, st, r.pos, String(r.text));
  }

  lemma {:induction false} NumberTree(c: Input, st: St) returns (v: Json)
    requires st.Ok() && st.pos <= |c.s| && ParseNumber(c, st).Ok()
    ensures Tree(c, st, ParseNumber(c, st), v)
  {
    hide ParseNumber, Emit, Adds, Passes, Number, NumberEnd, TooLarge;
    var e;
    e, v := TakenNumber(c, st);
    var j := ParseNumber(c, st).pos;
    EmitAdds(c, st, j, e);
    ReportsNumber(c, st.pos, j, e, v);
    NumberStarts(c.s, st.pos, j, v);
    NumberPasses(c.s, st.pos);
  }

  lemma ReportsNumber(c: Input, i: nat, j: nat, e: Event, v: Json)
    requires Reports(e, v) && Number(c.s, i, j, v)
    ensures Ranged(v) && Counted(c, v) && Events(v, PlainNum) == [Plain(e)] && Denotes(c, i, j, v)
  {
    NumberIsOne(c, i, j, v);
  }

  lemma {:induction false} TakenLiteral(s: bytes, p: nat, first: byte, rest: bytes)
    requires Peek(s, p) == first != 0 && TakeMatch(s, p + 1, rest).0 && 0 !in rest
    ensures At(s, p, [first] + rest) && TakeMatch(s, p + 1, rest).1 == p + 1 + |rest|
    decreases rest
  {
    if rest != [] {
      TakenLiteral(s, p + 1, rest[0], rest[1..]);
      assert s[p..p + 1 + |rest|] == [first] + s[p + 1..p + 1 + |rest|];
      assert rest == [rest[0]] + rest[1..];
    } else {
      assert s[p..p + 1] == [first];
    }
  }

  lemma NumberIsOne(c: Input, i: nat, j: nat, v: Json)
    requires Number(c.s, i, j, v)
    ensures Denotes(c, i, j, v)
  {
    hide IntPart, FracPart, ExpPart, AllDigits, Value;
  }

  lemma {:induction false} ArrayTree(c: Input, st: St) returns (v: Json)
    requires st.Ok() && Peek(c.s, st.pos) == 0x5B && ParseArray(c, st).Ok()
    ensures Tree(c, st, ParseArray(c, st), v)
    decreases Left(c.s, st.pos), 1
  {
    hide ParseArray, ArrayLoop, Adds, Spaces, Values, SkipSpace, Passes, Emit, Counted, SizeType, Events;
    OpenPasses(c.s, st.pos);
    ArrayOpens(c, st);
    EmitAdds(c, st, st.pos + 1, StartArray);
    var st1 := Emit(c, st.AtPos(st.pos + 1), StartArray);
    var st2, r := Skip(c, st1), ParseArray(c, st);
    if Peek(c.s, st2.pos) == 0x5D {
      v := JArray([]);
      PassesThen(c.s, st.pos, st2.pos, st2.pos + 1);
      EmitEnds(c, st2, st2.pos + 1, EndArray(0));
      EmitAdds(c, st2, st2.pos + 1, EndArray(0));
      AddsMoved(st1, st2, r, r, [EndArray(0)]);
      AddsTrans(st, st1, r, [StartArray], [EndArray(0)]);
      EmptyTrees(c);
    } else {
      var items, b := ArrayLoopTree(c, st2, 0);
      v := JArray(items);
      PassesThen(c.s, st.pos, st2.pos, r.pos);
      var es := ItemEvents(items, PlainNum) + [EndArray(SizeType(|items|))];
      AddsMoved(st1, st2, r, r, es);
      AddsTrans(st, st1, r, [StartArray], es);
      ArrayEvents(items);
    }
  }

  lemma ArrayEvents(items: seq<Json>)
    ensures Events(JArray(items), PlainNum) ==
            [StartArray] + (ItemEvents(items, PlainNum) + [EndArray(SizeType(|items|))])
  {
    hide ItemEvents, SizeType;
    Assoc([StartArray], ItemEvents(items, PlainNum), [EndArray(SizeType(|items|))]);
  }

  lemma ObjectEvents(members: seq<Member>)
    ensures Events(JObject(members), PlainNum) ==
            [StartObject] + (MemberEvents(members, PlainNum) + [EndObject(SizeType(|members|))])
  {
    hide MemberEvents, SizeType;
    Assoc([StartObject], MemberEvents(members, PlainNum), [EndObject(SizeType(|members|))]);
  }

  lemma EmptyTrees(c: Input)
    ensures Events(JArray([]), PlainNum) == [StartArray] + [EndArray(0)]
    ensures Events(JObject([]), PlainNum) == [StartObject] + [EndObject(0)]
    ensures Counted(c, JArray([])) && Counted(c, JObject([]))
  {
  }

  lemma AddsMoved(a: St, a': St, b: St, b': St, es: seq<Event>)
    requires Adds(a', b, es) && a'.out == a.out && b'.out == b.out
    ensures Adds(a, b', es)
  {
  }

  /** The element loop, `count` elements after the start: it adds the rest and the closing event. */
  lemma {:induction false} ArrayLoopTree(c: Input, st: St, count: nat) returns (items: seq<Json>, b: nat)
    requires st.Ok() && ArrayLoop(c, st, SizeType(count)).Ok() && st.pos <= |c.s|
    ensures items != [] && Ranged(JArray(items)) && Counted(c, JArray(items))
    ensures |items| <= ArrayLoop(c, st, SizeType(count)).pos - st.pos
    ensures Adds(st, ArrayLoop(c, st, SizeType(count)),
                 ItemEvents(items, PlainNum) + [EndArray(SizeType(count + |items|))])
    ensures var end := ArrayLoop(c, st, SizeType(count)).pos;
            && Values(c, st.pos, b, items) && 0 < end <= |c.s| && Spaces(c.s, b, end - 1) && c.s[end - 1] == 0x5D
            && Passes(c.s, st.pos, end)
    decreases Left(c.s, st.pos), 3
  {
    hide ParseValue, ArrayLoop, Adds, Spaces, Values, Denotes, SkipSpace, Token, Passes, Longest, SizeType, Emit, Events,
         ItemEvents;
    ArrayFails(c, st, SizeType(count));
    ArrayTurn(c, st, count);
    var st1 := ParseValue(c, st);
    var v := ValueTree(c, st);
    var es := Events(v, PlainNum);
    var p := SkipSpace(c.s, st1.pos);
    SkippedSpaces(c.s, st1.pos);
    var st2 := st1.AtPos(p + 1);
    var last := ArrayLoop(c, st, SizeType(count));
    if Peek(c.s, p) == 0x2C {
      var st3 := Skip(c, st2);
      var rest;
      rest, b := ArrayLoopTree(c, st3, count + 1);
      items := [v] + rest;
      SkippedToken(c.s, st1.pos, 0x2C);
      PassesThen(c.s, st.pos, st1.pos, st3.pos);
      PassesThen(c.s, st.pos, st3.pos, last.pos);
      MoreValues(c, st.pos, st1.pos, st3.pos, b, v, rest);
      var fs := ItemEvents(rest, PlainNum) + [EndArray(SizeType(count + 1 + |rest|))];
      AddsMoved(st1, st3, last, last, fs);
      AddsTrans(st, st1, last, es, fs);
      FirstItem(v, rest, EndArray(SizeType(count + |items|)));
    } else {
      items, b := [v], st1.pos;
      EmitEnds(c, st1, p + 1, EndArray(SizeType(count + 1)));
      SkippedToken(c.s, st1.pos, 0x5D);
      PassesThen(c.s, st.pos, st1.pos, p + 1);
      OneOfValues(c, st.pos, b, v);
      var e := EndArray(SizeType(count + 1));
      EmitAdds(c, st1, p + 1, e);
      AddsTrans(st, st1, last, es, [e]);
      SingleItem(v);
    }
  }

  lemma ArrayFails(c: Input, st: St, count: nat)
    requires st.Ok() && ArrayLoop(c, st, count).Ok()
    ensures ParseValue(c, st).Ok()
  {
    hide ParseValue, ArrayTail;
  }

  lemma EmitEnds(c: Input, st: St, p: nat, e: Event)
    requires st.Ok()
    ensures Emit(c, st.AtPos(p), e).pos == p
  {
  }

  /** A structural character, with the whitespace skipped around it. */
  lemma {:induction false} SkippedToken(s: bytes, i: nat, ch: byte)
    requires i <= |s| && Peek(s, SkipSpace(s, i)) == ch && Structural(ch)
    ensures var p := SkipSpace(s, i);
            && Token(s, i, SkipSpace(s, p + 1), ch) && Passes(s, i, SkipSpace(s, p + 1))
            && Spaces(s, i, p) && Passes(s, i, p + 1)
  {
    hide SkipSpace, Spaces, Passes;
    var p := SkipSpace(s, i);
    SkippedSpaces(s, i);
    SkippedSpaces(s, p + 1);
    TokenPasses(s, i, p, SkipSpace(s, p + 1));
  }

  /** An opening byte and the whitespace behind it. */
  lemma {:induction false} OpenPasses(s: bytes, i: nat)
    requires Structural(Peek(s, i))
    ensures Spaces(s, i + 1, SkipSpace(s, i + 1)) && Passes(s, i, SkipSpace(s, i + 1))
    ensures Structural(Peek(s, SkipSpace(s, i + 1))) ==>
              Passes(s, SkipSpace(s, i + 1), SkipSpace(s, i + 1) + 1)
  {
    hide SkipSpace, Passes;
    SkippedSpaces(s, i + 1);
    var a := SkipSpace(s, i + 1);
    OthersPass(s, i, a);
    if Structural(Peek(s, a)) {
      OthersPass(s, a, a + 1);
    }
  }

  lemma OneOfValues(c: Input, i: nat, j: nat, v: Json)
    requires Denotes(c, i, j, v)
    ensures Values(c, i, j, [v])
  {
    hide Denotes;
    assert [v][1..] == [];
  }

  lemma MoreValues(c: Input, i: nat, b: nat, a: nat, j: nat, v: Json, rest: seq<Json>)
    requires Denotes(c, i, b, v) && Token(c.s, b, a, 0x2C) && Values(c, a, j, rest)
    ensures Values(c, i, j, [v] + rest)
  {
    hide Denotes, Token;
    assert ([v] + rest)[1..] == rest;
  }

  lemma OneOfMembers(c: Input, i: nat, j: nat, m: Member)
    requires Pair(c, i, j, m)
    ensures Members(c, i, j, [m])
  {
    hide Pair;
    assert [m][1..] == [];
  }

  lemma MoreMembers(c: Input, i: nat, b: nat, a: nat, j: nat, m: Member, rest: seq<Member>)
    requires Pair(c, i, b, m) && Token(c.s, b, a, 0x2C) && Members(c, a, j, rest)
    ensures Members(c, i, j, [m] + rest)
  {
    hide Pair, Token;
    assert ([m] + rest)[1..] == rest;
  }

  lemma FirstItem(v: Json, rest: seq<Json>, e: Event)
    ensures ItemEvents([v] + rest, PlainNum) + [e] == Events(v, PlainNum) + (ItemEvents(rest, PlainNum) + [e])
  {
    hide Events;
    assert ([v] + rest)[1..] == rest;
  }

  lemma FirstMember(m: Member, rest: seq<Member>, e: Event)
    ensures MemberEvents([m] + rest, PlainNum) + [e] ==
            ([Key(m.name)] + Events(m.value, PlainNum)) + (MemberEvents(rest, PlainNum) + [e])
  {
    hide Events;
    assert ([m] + rest)[1..] == rest;
  }

  lemma SingleItem(v: Json)
    ensures ItemEvents([v], PlainNum) == Events(v, PlainNum)
  {
    assert [v][1..] == [];
    assert ItemEvents([v], PlainNum) == Events(v, PlainNum) + ItemEvents([], PlainNum);
  }

  lemma SingleMember(m: Member)
    ensures MemberEvents([m], PlainNum) == [Key(m.name)] + Events(m.value, PlainNum)
  {
    assert [m][1..] == [];
    assert MemberEvents([m], PlainNum) == [Key(m.name)] + Events(m.value, PlainNum) + MemberEvents([], PlainNum);
  }

  lemma {:induction false} ObjectTree(c: Input, st: St) returns (v: Json)
    requires st.Ok() && Peek(c.s, st.pos) == 0x7B && ParseObject(c, st).Ok()
    ensures Tree(c, st, ParseObject(c, st), v)
    decreases Left(c.s, st.pos), 1
  {
    hide ParseObject, ObjectLoop, Adds, Spaces, Members, SkipSpace, Passes, Emit, Counted, SizeType, Events;
    OpenPasses(c.s, st.pos);
    ObjectOpens(c, st);
    EmitAdds(c, st, st.pos + 1, StartObject);
    var st1 := Emit(c, st.AtPos(st.pos + 1), StartObject);
    var st2, r := Skip(c, st1), ParseObject(c, st);
    if Peek(c.s, st2.pos) == 0x7D {
      v := JObject([]);
      PassesThen(c.s, st.pos, st2.pos, st2.pos + 1);
      EmitEnds(c, st2, st2.pos + 1, EndObject(0));
      EmitAdds(c, st2, st2.pos + 1, EndObject(0));
      AddsMoved(st1, st2, r, r, [EndObject(0)]);
      AddsTrans(st, st1, r, [StartObject], [EndObject(0)]);
      EmptyTrees(c);
    } else {
      var members, b := ObjectLoopTree(c, st2, 0);
      v := JObject(members);
      PassesThen(c.s, st.pos, st2.pos, r.pos);
      var es := MemberEvents(members, PlainNum) + [EndObject(SizeType(|members|))];
      AddsMoved(st1, st2, r, r, es);
      AddsTrans(st, st1, r, [StartObject], es);
      ObjectEvents(members);
    }
  }

  /** One member: its key and its value. */
  lemma {:induction false} MemberTree(c: Input, st: St, count: nat) returns (m: Member, st2: St)
    requires st.Ok() && ObjectLoop(c, st, count).Ok() && st.pos <= |c.s|
    ensures Ranged(m.value) && Counted(c, m.value) && st2.Ok() && st.pos < st2.pos <= |c.s|
    ensures Adds(st, st2, [Key(m.name)] + Events(m.value, PlainNum))
    ensures ObjectLoop(c, st, count) == ObjectTail(c, st2, count)
    ensures Pair(c, st.pos, st2.pos, m) && Passes(c.s, st.pos, st2.pos)
    decreases Left(c.s, st.pos), 3
  {
    hide ParseValue, ScanString, ObjectTail, Adds, SkipSpace, Str, Token, Denotes, Spaces, Passes, Longest;
    TakenStr(c, st.pos);
    var r := ScanString(c, st.pos + 1, [], None);
    var st1 := ParseString(c, st, true);
    var p := SkipSpace(c.s, st1.pos);
    var st1' := Skip(c, st1.AtPos(p + 1));
    EmitAdds(c, st, r.pos, Key(r.text));
    AddsMoved(st, st.AtPos(r.pos), st1, st1', [Key(r.text)]);
    SkippedToken(c.s, st1.pos, 0x3A);
    var v := ValueTree(c, st1');
    st2 := ParseValue(c, st1');
    PassesThen(c.s, st.pos, st1.pos, st1'.pos);
    PassesThen(c.s, st.pos, st1'.pos, st2.pos);
    m := Member(r.text, v);
    AddsTrans(st, st1', st2, [Key(r.text)], Events(v, PlainNum));
  }

  lemma {:induction false} ObjectLoopTree(c: Input, st: St, count: nat) returns (members: seq<Member>, b: nat)
    requires st.Ok() && ObjectLoop(c, st, SizeType(count)).Ok() && st.pos <= |c.s|
    ensures members != [] && Ranged(JObject(members)) && Counted(c, JObject(members))
    ensures |members| <= ObjectLoop(c, st, SizeType(count)).pos - st.pos
    ensures Adds(st, ObjectLoop(c, st, SizeType(count)),
                 MemberEvents(members, PlainNum) + [EndObject(SizeType(count + |members|))])
    ensures var end := ObjectLoop(c, st, SizeType(count)).pos;
            && Members(c, st.pos, b, members) && 0 < end <= |c.s| && Spaces(c.s, b, end - 1) && c.s[end - 1] == 0x7D
            && Passes(c.s, st.pos, end)
    decreases Left(c.s, st.pos), 4
  {
    hide ParseValue, ParseString, ObjectLoop, ObjectTail, Adds, Spaces, Members, Pair, SkipSpace, Token, Passes,
         SizeType, Emit, Events, MemberEvents;
    var m, st1 := MemberTree(c, st, SizeType(count));
    ObjectTurn(c, st1, count);
    var es := [Key(m.name)] + Events(m.value, PlainNum);
    var p := SkipSpace(c.s, st1.pos);
    SkippedSpaces(c.s, st1.pos);
    var st2 := st1.AtPos(p + 1);
    var last := ObjectLoop(c, st, SizeType(count));
    if Peek(c.s, p) == 0x2C {
      var st3 := Skip(c, st2);
      var rest;
      rest, b := ObjectLoopTree(c, st3, count + 1);
      members := [m] + rest;
      SkippedToken(c.s, st1.pos, 0x2C);
      PassesThen(c.s, st.pos, st1.pos, st3.pos);
      PassesThen(c.s, st.pos, st3.pos, last.pos);
      MoreMembers(c, st.pos, st1.pos, st3.pos, b, m, rest);
      var fs := MemberEvents(rest, PlainNum) + [EndObject(SizeType(count + 1 + |rest|))];
      AddsMoved(st1, st3, last, last, fs);
      AddsTrans(st, st1, last, es, fs);
      FirstMember(m, rest, EndObject(SizeType(count + |members|)));
    } else {
      members, b := [m], st1.pos;
      EmitEnds(c, st1, p + 1, EndObject(SizeType(count + 1)));
      SkippedToken(c.s, st1.pos, 0x7D);
      PassesThen(c.s, st.pos, st1.pos, p + 1);
      OneOfMembers(c, st.pos, b, m);
      var e := EndObject(SizeType(count + 1));
      EmitAdds(c, st1, p + 1, e);
      AddsTrans(st, st1, last, es, [e]);
      SingleMember(m);
    }
  }

  /**
   * Whatever text, flags and handler: if the parse succeeds, the text is one that the reader can take by the
   * grammar, and has no exception. The events delivered are those of the tree that it stands for, up to the
   * integer class; every count is the number of entries (mod 2^32), and every integer lies in -2^63 to 2^64-1.
   */
  lemma {:induction false} AcceptedIsTree(c: Input) returns (v: Json)
    requires Parse(c).Ok()
    ensures Ranged(v) && Counted(c, v) && PlainAll(Parse(c).out) == Events(v, PlainNum)
    ensures Readable(c, v)
  {
    hide ParseValue, SkipSpace, Spaces, Denotes, Longest, HasException;
    var i := SkipSpace(c.s, 0);
    SkippedSpaces(c.s, 0);
    v := ValueTree(c, Skip(c, START));
    assert PlainAll([]) == [];
    var j := ParseValue(c, Skip(c, START)).pos;
    var z := SkipSpace(c.s, j);
    SkippedSpaces(c.s, j);
    SpacesPass(c.s, 0, i);
    SpacesPass(c.s, j, z);
    NoExceptionAt(c.s, j, j);
    if !c.flags.stopWhenDone {
      PassesThen(c.s, 0, i, j);
      PassesThen(c.s, 0, j, z);
      NoExceptionAt(c.s, z, |c.s|);
    }
  }

  lemma {:induction false} SpacesPass(s: bytes, i: nat, j: nat)
    requires Spaces(s, i, j)
    ensures Passes(s, i, j)
  {
    OthersPass(s, i, j);
  }

  lemma NoExceptionAt(s: bytes, i: nat, e: nat)
    requires i >= e || Peek(s, i) == 0
    ensures !HasException(s, i, e)
  {
  }
}
