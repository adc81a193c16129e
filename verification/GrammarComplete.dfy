/** Every text of the grammar is accepted, and delivers the events of the tree that it stands for. */
module GrammarComplete {
  import opened Bytes
  import opened Json
  import Encodings
  import opened ReaderSpec
  import opened Grammar
  import opened GrammarTokens
  import opened EventTrees
  import ParsersAgree
  import IterativeSpec

  /** `r` is the state after what stands between `st` and `j`, with the events `es` delivered. */
  predicate Took(st: St, r: St, j: nat, es: seq<Event>) {
    r.Ok() && r.pos == j && Adds(st, r, es)
  }

  lemma {:induction false} EmitTook(c: Input, st: St, j: nat, e: Event)
    requires st.Ok() && Accepting(c)
    ensures Took(st, Emit(c, st.AtPos(j), e), j, [Plain(e)])
  {
    EmitAdds(c, st, j, e);
  }

  lemma {:induction false} TookThen(a: St, b: St, b': St, r: St, i: nat, j: nat, es: seq<Event>, fs: seq<Event>)
    requires Took(a, b, i, es) && b'.out == b.out && Took(b', r, j, fs)
    ensures Took(a, r, j, es + fs)
  {
    AddsMoved(b', b, r, r, fs);
    AddsTrans(a, b, r, es, fs);
  }

  /** The first byte of a value tells its kind, and is neither whitespace nor a closing byte. */
  lemma {:induction false} Starts(c: Input, i: nat, j: nat, v: Json)
    requires Denotes(c, i, j, v)
    ensures i < |c.s| && !IsSpace(c.s[i]) && c.s[i] != 0x5D && c.s[i] != 0
    ensures v.JNull? ==> c.s[i] == 0x6E
    ensures v.JBool? ==> c.s[i] == if v.b then 0x74 else 0x66
    ensures v.JString? ==> c.s[i] == 0x22
    ensures v.JInt? || v.JDouble? ==> c.s[i] == 0x2D || IsDigit(c.s[i])
  {
    hide Values, Members, Chars, Number;
    match v
    case JNull => AtIndex(c.s, i, [0x6E] + NULL_REST, 0);
    case JBool(b) => AtIndex(c.s, i, if b then [0x74] + TRUE_REST else [0x66] + FALSE_REST, 0);
    case JInt(_) => NumberStarts(c.s, i, j, v);
    case JDouble(_) => NumberStarts(c.s, i, j, v);
    case _ =>
  }

  lemma {:induction false} ValuesStart(c: Input, i: nat, j: nat, items: seq<Json>)
    requires Values(c, i, j, items)
    ensures items != [] && i < |c.s| && !IsSpace(c.s[i]) && c.s[i] != 0x5D
  {
    hide Denotes;
    var b: nat :| Denotes(c, i, b, items[0]);
    Starts(c, i, b, items[0]);
  }

  lemma {:induction false} MembersStart(c: Input, i: nat, j: nat, members: seq<Member>)
    requires Members(c, i, j, members)
    ensures members != [] && i < |c.s| && c.s[i] == 0x22
  {
    hide Denotes, Token, Chars;
    var b: nat :| Pair(c, i, b, members[0]);
  }

  /** A structural character is where the reader looks for it. */
  lemma {:induction false} ReadToken(s: bytes, b: nat, a: nat, ch: byte)
    requires Token(s, b, a, ch) && !IsSpace(ch) && !IsSpace(Peek(s, a))
    ensures var p := SkipSpace(s, b); Peek(s, p) == ch && SkipSpace(s, p + 1) == a
    ensures ch == 0x2C ==> Delimited(s, b)
    ensures Structural(ch) ==> Passes(s, b, a)
  {
    hide SkipSpace, Passes;
    var k: nat :| Spaces(s, b, k) && k < |s| && s[k] == ch && Spaces(s, k + 1, a);
    SkipIs(s, b, k);
    SkipIs(s, k + 1, a);
    if Structural(ch) {
      TokenPasses(s, b, k, a);
    }
  }

  /** Past what holds no exception, there is still none up to `end`. */
  lemma NoneBehind(s: bytes, i: nat, j: nat, end: nat)
    requires Passes(s, i, j) && j <= end && !HasException(s, i, end)
    ensures !HasException(s, j, end)
  {
    hide HasException;
  }

  lemma {:induction false} LongestIf(c: Input, i: nat, j: nat, v: Json)
    requires Denotes(c, i, j, v) && Delimited(c.s, j)
    ensures Longest(c.s, i, j, v)
  {
    hide Number, NumberEnd, Delimited, Values, Members, Str, Spaces;
    if v.JInt? || v.JDouble? {
      DelimitedIsLongest(c.s, i, j, v);
    }
  }

  /** The end of a container, or of the text, ends a value as well. */
  lemma {:induction false} ReadEnd(s: bytes, b: nat, e: nat)
    requires Spaces(s, b, e) && (Peek(s, e) == 0x5D || Peek(s, e) == 0x7D || Peek(s, e) == 0)
    ensures SkipSpace(s, b) == e && Delimited(s, b)
  {
    SkipIs(s, b, e);
  }

  lemma {:induction false} ReadLiteral(c: Input, st: St, first: byte, rest: bytes, e: Event)
    requires st.Ok() && Accepting(c) && At(c.s, st.pos, [first] + rest)
    ensures Took(st, ParseLiteral(c, st, rest, e), st.pos + 1 + |rest|, [Plain(e)])
  {
    hide Took;
    AtSplit(c.s, st.pos, [first], rest);
    MatchAt(c.s, st.pos + 1, rest);
    EmitTook(c, st, st.pos + 1 + |rest|, e);
  }

  lemma {:induction false} ReadString(c: Input, st: St, j: nat, x: bytes, isKey: bool, end: nat)
    requires st.Ok() && Accepting(c) && Str(c, st.pos, j, x)
    requires j <= end && !HasException(c.s, st.pos, end)
    ensures Took(st, ParseString(c, st, isKey), j, [if isKey then Key(x) else String(x)])
  {
    hide Took, ScanString, Chars, HasException;
    ReadStr(c, st.pos, j, x, end);
    EmitTook(c, st, j, if isKey then Key(x) else String(x));
  }

  /** The first and the last byte of an array, and what stands between. */
  lemma {:induction false} ArrayParts(c: Input, i: nat, j: nat, items: seq<Json>) returns (a: nat, b: nat)
    requires Denotes(c, i, j, JArray(items))
    ensures i + 2 <= j <= |c.s| && c.s[i] == 0x5B && c.s[j - 1] == 0x5D
    ensures if items == [] then Spaces(c.s, i + 1, j - 1)
            else Spaces(c.s, i + 1, a) && Values(c, a, b, items) && Spaces(c.s, b, j - 1)
  {
    hide Spaces, Values;
    if items == [] {
      a, b := i, j;
    } else {
      a, b :| Spaces(c.s, i + 1, a) && Values(c, a, b, items) && Spaces(c.s, b, j - 1);
    }
  }

  lemma {:induction false} ObjectParts(c: Input, i: nat, j: nat, members: seq<Member>) returns (a: nat, b: nat)
    requires Denotes(c, i, j, JObject(members))
    ensures i + 2 <= j <= |c.s| && c.s[i] == 0x7B && c.s[j - 1] == 0x7D
    ensures if members == [] then Spaces(c.s, i + 1, j - 1)
            else Spaces(c.s, i + 1, a) && Members(c, a, b, members) && Spaces(c.s, b, j - 1)
  {
    hide Spaces, Members;
    if members == [] {
      a, b := i, j;
    } else {
      a, b :| Spaces(c.s, i + 1, a) && Members(c, a, b, members) && Spaces(c.s, b, j - 1);
    }
  }

  // A value lies inside the text, and a text shorter than 2^32 has no container that SizeType cannot count.

  lemma {:induction false} DenotesFits(c: Input, i: nat, j: nat, v: Json)
    requires Denotes(c, i, j, v)
    ensures i < j <= |c.s| && (|c.s| < TWO_TO_THE_32 ==> Countable(v))
    decreases v, 1
  {
    hide Values, Members, Chars, Number, At, Spaces;
    Starts(c, i, j, v);
    match v
    case JArray(items) =>
      var a, b := ArrayParts(c, i, j, items);
      if items != [] {
        ValuesFit(c, a, b, items);
      }
    case JObject(members) =>
      var a, b := ObjectParts(c, i, j, members);
      if members != [] {
        MembersFit(c, a, b, members);
      }
    case JNull => LiteralFits(c.s, i, 0x6E, NULL_REST);
    case JBool(b) => if b { LiteralFits(c.s, i, 0x74, TRUE_REST); } else { LiteralFits(c.s, i, 0x66, FALSE_REST); }
    case JString(_) =>
    case _ => NumberFits(c.s, i, j, v);
  }

  lemma LiteralFits(s: bytes, i: nat, first: byte, rest: bytes)
    requires At(s, i, [first] + rest)
    ensures i + 1 + |rest| <= |s|
  {
  }

  lemma {:induction false} NumberFits(s: bytes, i: nat, j: nat, v: Json)
    requires Number(s, i, j, v)
    ensures i < j <= |s|
  {
    hide AllDigits, Value;
  }

  lemma {:induction false} ValuesFit(c: Input, i: nat, j: nat, items: seq<Json>)
    requires Values(c, i, j, items)
    ensures i + |items| <= j <= |c.s|
    ensures |c.s| < TWO_TO_THE_32 ==> forall k :: 0 <= k < |items| ==> Countable(items[k])
    decreases items, 0
  {
    hide Denotes, Token, Countable;
    if items[1..] == [] {
      DenotesFits(c, i, j, items[0]);
    } else {
      var b: nat, a: nat :| Denotes(c, i, b, items[0]) && Token(c.s, b, a, 0x2C) && Values(c, a, j, items[1..]);
      DenotesFits(c, i, b, items[0]);
      TokenFits(c.s, b, a, 0x2C);
      ValuesFit(c, a, j, items[1..]);
      assert forall k :: 0 < k < |items| ==> items[k] == items[1..][k - 1];
    }
  }

  lemma TokenFits(s: bytes, i: nat, j: nat, ch: byte)
    requires Token(s, i, j, ch)
    ensures i < j
  {
  }

  lemma {:induction false} PairFits(c: Input, i: nat, j: nat, m: Member)
    requires Pair(c, i, j, m)
    ensures i < j <= |c.s| && (|c.s| < TWO_TO_THE_32 ==> Countable(m.value))
    decreases m, 0
  {
    hide Denotes, Token, Countable, Chars;
    var b: nat, a: nat :| Str(c, i, b, m.name) && Token(c.s, b, a, 0x3A) && Denotes(c, a, j, m.value);
    TokenFits(c.s, b, a, 0x3A);
    DenotesFits(c, a, j, m.value);
  }

  lemma {:induction false} MembersFit(c: Input, i: nat, j: nat, members: seq<Member>)
    requires Members(c, i, j, members)
    ensures i + |members| <= j <= |c.s|
    ensures |c.s| < TWO_TO_THE_32 ==> forall k :: 0 <= k < |members| ==> Countable(members[k].value)
    decreases members, 0
  {
    hide Pair, Token, Countable;
    if members[1..] == [] {
      PairFits(c, i, j, members[0]);
    } else {
      var b: nat, a: nat :| Pair(c, i, b, members[0]) && Token(c.s, b, a, 0x2C) && Members(c, a, j, members[1..]);
      PairFits(c, i, b, members[0]);
      TokenFits(c.s, b, a, 0x2C);
      MembersFit(c, a, j, members[1..]);
      assert forall k :: 0 < k < |members| ==> members[k] == members[1..][k - 1];
    }
  }

  lemma {:induction false} ReadValue(c: Input, st: St, j: nat, v: Json, end: nat)
    requires st.Ok() && Accepting(c) && Denotes(c, st.pos, j, v) && Longest(c.s, st.pos, j, v)
    requires j <= end && !HasException(c.s, st.pos, end)
    ensures Took(st, ParseValue(c, st), j, Events(v, PlainNum))
    decreases v, 1
  {
    hide Took, ParseLiteral, ParseString, ParseNumber, ParseArray, ParseObject, ItemEvents, MemberEvents,
         Values, Members, Number, Str, NumberEnd, HasException, At;
    Starts(c, st.pos, j, v);
    match v
    case JNull => ReadLiteral(c, st, 0x6E, NULL_REST, Null);
    case JBool(b) =>
      if b {
        ReadLiteral(c, st, 0x74, TRUE_REST, Bool(true));
      } else {
        ReadLiteral(c, st, 0x66, FALSE_REST, Bool(false));
      }
    case JString(x) => ReadString(c, st, j, x, false, end);
    case JArray(items) => ReadArray(c, st, j, items, end);
    case JObject(members) => ReadObject(c, st, j, members, end);
    case _ => ReadOneNumber(c, st, j, v, end);
  }

  lemma {:induction false} ReadOneNumber(c: Input, st: St, j: nat, v: Json, end: nat)
    requires st.Ok() && Accepting(c) && Number(c.s, st.pos, j, v) && j == NumberEnd(c.s, st.pos)
    requires j <= end && !HasException(c.s, st.pos, end)
    ensures Took(st, ParseNumber(c, st), j, Events(v, PlainNum))
  {
    hide Took, ParseNumber, Number, NumberEnd, TooLarge, Emit;
    NumberStarts(c.s, st.pos, j, v);
    var e := ReadNumber(c, st, j, v);
    EmitTook(c, st, j, e);
  }

  /** What comes behind a value that was read has no exception either. */
  lemma {:induction false} NoneBehindValue(c: Input, st: St, end: nat)
    requires st.Ok() && st.pos <= |c.s| && ParseValue(c, st).Ok()
    requires ParseValue(c, st).pos <= end && !HasException(c.s, st.pos, end)
    ensures !HasException(c.s, ParseValue(c, st).pos, end)
  {
    hide ParseValue, HasException, Passes;
    var v := ValueTree(c, st);
    NoneBehind(c.s, st.pos, ParseValue(c, st).pos, end);
  }

  lemma {:induction false} ReadArray(c: Input, st: St, j: nat, items: seq<Json>, end: nat)
    requires st.Ok() && Accepting(c) && Denotes(c, st.pos, j, JArray(items))
    requires j <= end && !HasException(c.s, st.pos, end)
    ensures Peek(c.s, st.pos) == 0x5B && Took(st, ParseArray(c, st), j, Events(JArray(items), PlainNum))
    decreases items, 1
  {
    hide Took, ParseArray, ItemEvents, Values, Spaces, SkipSpace, Emit, Denotes, HasException, Passes, SizeType;
    var a, b := ArrayParts(c, st.pos, j, items);
    EmitTook(c, st, st.pos + 1, StartArray);
    var st1 := Emit(c, st.AtPos(st.pos + 1), StartArray);
    TookOk(st, st1, st.pos + 1, [StartArray]);
    ArrayOpens(c, st);
    var r := ParseArray(c, st);
    if items == [] {
      ReadEnd(c.s, st.pos + 1, j - 1);
      var st2 := st1.AtPos(j - 1);
      EmitTook(c, st2, j, EndArray(0));
      TookThen(st, st1, st2, r, st.pos + 1, j, [StartArray], [EndArray(0)]);
      EmptyTrees(c);
    } else {
      ValuesStart(c, a, b, items);
      ValuesFit(c, a, b, items);
      ReadBack(c.s, b, j - 1);
      SkipIs(c.s, st.pos + 1, a);
      OpenPasses(c.s, st.pos);
      NoneBehind(c.s, st.pos, a, end);
      var st2 := st1.AtPos(a);
      ReadValues(c, st2, b, j - 1, items, 0, end);
      var es := ItemEvents(items, PlainNum) + [EndArray(SizeType(|items|))];
      TookThen(st, st1, st2, r, st.pos + 1, j, [StartArray], es);
      ArrayEvents(items);
    }
  }

  lemma TookOk(st: St, r: St, j: nat, es: seq<Event>)
    requires Took(st, r, j, es)
    ensures r.Ok() && r.pos == j
  {
  }

  lemma ReadBack(s: bytes, b: nat, e: nat)
    requires Spaces(s, b, e)
    ensures b <= e <= |s|
  {
  }

  /** The element loop, `k` elements after the start, on the rest of the elements up to the bracket at `e`. */
  lemma {:induction false} ReadValues(c: Input, st: St, b: nat, e: nat, items: seq<Json>, k: nat, end: nat)
    requires st.Ok() && Accepting(c) && Values(c, st.pos, b, items)
    requires Spaces(c.s, b, e) && Peek(c.s, e) == 0x5D
    requires e < end && !HasException(c.s, st.pos, end)
    ensures Took(st, ArrayLoop(c, st, SizeType(k)), e + 1,
                 ItemEvents(items, PlainNum) + [EndArray(SizeType(k + |items|))])
    decreases items, 0
  {
    hide Took, ArrayLoop, ParseValue, ItemEvents, Events, Denotes, Spaces, SkipSpace, Emit, Token, Delimited,
         HasException, Passes, Longest, SizeType;
    var es := Events(items[0], PlainNum);
    var last := EndArray(SizeType(k + |items|));
    var st1 := ParseValue(c, st);
    ReadBack(c.s, b, e);
    if items[1..] == [] {
      ReadEnd(c.s, b, e);
      LongestIf(c, st.pos, b, items[0]);
      ReadValue(c, st, b, items[0], end);
      TookOk(st, st1, b, es);
      ArrayTurn(c, st, k);
      EmitTook(c, st1, e + 1, last);
      TookThen(st, st1, st1, ArrayLoop(c, st, SizeType(k)), b, e + 1, es, [last]);
      assert items == [items[0]];
      SingleItem(items[0]);
    } else {
      var b1: nat, a1: nat :| Denotes(c, st.pos, b1, items[0]) && Token(c.s, b1, a1, 0x2C) && Values(c, a1, b, items[1..]);
      ValuesStart(c, a1, b, items[1..]);
      ValuesFit(c, a1, b, items[1..]);
      TokenFits(c.s, b1, a1, 0x2C);
      ReadToken(c.s, b1, a1, 0x2C);
      LongestIf(c, st.pos, b1, items[0]);
      ReadValue(c, st, b1, items[0], end);
      TookOk(st, st1, b1, es);
      NoneBehindValue(c, st, end);
      NoneBehind(c.s, b1, a1, end);
      ArrayTurn(c, st, k);
      var st2 := st1.AtPos(a1);
      ReadValues(c, st2, b, e, items[1..], k + 1, end);
      var fs := ItemEvents(items[1..], PlainNum) + [last];
      TookThen(st, st1, st2, ArrayLoop(c, st, SizeType(k)), b1, e + 1, es, fs);
      assert items == [items[0]] + items[1..];
      FirstItem(items[0], items[1..], last);
    }
  }

  lemma {:induction false} ReadObject(c: Input, st: St, j: nat, members: seq<Member>, end: nat)
    requires st.Ok() && Accepting(c) && Denotes(c, st.pos, j, JObject(members))
    requires j <= end && !HasException(c.s, st.pos, end)
    ensures Peek(c.s, st.pos) == 0x7B && Took(st, ParseObject(c, st), j, Events(JObject(members), PlainNum))
    decreases members, 2
  {
    hide Took, ParseObject, MemberEvents, Members, Spaces, SkipSpace, Emit, Denotes, HasException, Passes, SizeType;
    var a, b := ObjectParts(c, st.pos, j, members);
    EmitTook(c, st, st.pos + 1, StartObject);
    var st1 := Emit(c, st.AtPos(st.pos + 1), StartObject);
    TookOk(st, st1, st.pos + 1, [StartObject]);
    ObjectOpens(c, st);
    var r := ParseObject(c, st);
    if members == [] {
      ReadEnd(c.s, st.pos + 1, j - 1);
      var st2 := st1.AtPos(j - 1);
      EmitTook(c, st2, j, EndObject(0));
      TookThen(st, st1, st2, r, st.pos + 1, j, [StartObject], [EndObject(0)]);
      EmptyTrees(c);
    } else {
      MembersStart(c, a, b, members);
      MembersFit(c, a, b, members);
      ReadBack(c.s, b, j - 1);
      SkipIs(c.s, st.pos + 1, a);
      OpenPasses(c.s, st.pos);
      NoneBehind(c.s, st.pos, a, end);
      var st2 := st1.AtPos(a);
      ReadMembers(c, st2, b, j - 1, members, 0, end);
      var es := MemberEvents(members, PlainNum) + [EndObject(SizeType(|members|))];
      TookThen(st, st1, st2, r, st.pos + 1, j, [StartObject], es);
      ObjectEvents(members);
    }
  }

  /** One name, colon and value. */
  lemma {:induction false} ReadPair(c: Input, st: St, b: nat, m: Member, count: nat, end: nat) returns (st2: St)
    requires st.Ok() && Accepting(c) && Pair(c, st.pos, b, m) && Delimited(c.s, b)
    requires b <= end && !HasException(c.s, st.pos, end)
    ensures Took(st, st2, b, [Key(m.name)] + Events(m.value, PlainNum))
    ensures st2.Ok() && ObjectLoop(c, st, count) == ObjectTail(c, st2, count) && !HasException(c.s, b, end)
    decreases m, 0
  {
    hide Took, ParseValue, ParseString, Denotes, Str, Token, ObjectTail, SkipSpace, Events, Delimited, Longest,
         HasException, Passes;
    var b1: nat, a: nat :| Str(c, st.pos, b1, m.name) && Token(c.s, b1, a, 0x3A) && Denotes(c, a, b, m.value);
    Starts(c, a, b, m.value);
    DenotesFits(c, a, b, m.value);
    TokenFits(c.s, b1, a, 0x3A);
    ReadToken(c.s, b1, a, 0x3A);
    NameStarts(c, st.pos, b1, m.name);
    ReadString(c, st, b1, m.name, true, end);
    var st1 := ParseString(c, st, true);
    TookOk(st, st1, b1, [Key(m.name)]);
    NoneBehindName(c, st, end);
    NoneBehind(c.s, b1, a, end);
    LongestIf(c, a, b, m.value);
    ReadValue(c, st1.AtPos(a), b, m.value, end);
    st2 := ParseValue(c, st1.AtPos(a));
    TookOk(st1.AtPos(a), st2, b, Events(m.value, PlainNum));
    NoneBehindValue(c, st1.AtPos(a), end);
    TookThen(st, st1, st1.AtPos(a), st2, b1, b, [Key(m.name)], Events(m.value, PlainNum));
  }

  lemma NameStarts(c: Input, i: nat, j: nat, x: bytes)
    requires Str(c, i, j, x)
    ensures i + 2 <= j <= |c.s| && c.s[i] == 0x22
  {
    hide Chars;
  }

  lemma {:induction false} NoneBehindName(c: Input, st: St, end: nat)
    requires st.Ok() && Peek(c.s, st.pos) == 0x22 && ParseString(c, st, true).Ok()
    requires ParseString(c, st, true).pos <= end && !HasException(c.s, st.pos, end)
    ensures !HasException(c.s, ParseString(c, st, true).pos, end)
  {
    hide ScanString, HasException, Passes;
    TakenStr(c, st.pos);
    NoneBehind(c.s, st.pos, ParseString(c, st, true).pos, end);
  }

  /** The member loop, `k` members after the start, on the rest of the members up to the brace at `e`. */
  lemma {:induction false} ReadMembers(c: Input, st: St, b: nat, e: nat, members: seq<Member>, k: nat, end: nat)
    requires st.Ok() && Accepting(c) && Members(c, st.pos, b, members)
    requires Spaces(c.s, b, e) && Peek(c.s, e) == 0x7D
    requires e < end && !HasException(c.s, st.pos, end)
    ensures Took(st, ObjectLoop(c, st, SizeType(k)), e + 1,
                 MemberEvents(members, PlainNum) + [EndObject(SizeType(k + |members|))])
    decreases members, 0
  {
    hide Took, ObjectLoop, ObjectTail, MemberEvents, Events, Pair, Spaces, SkipSpace, Emit, Token, Delimited,
         HasException, Passes, SizeType;
    var m := members[0];
    var es := [Key(m.name)] + Events(m.value, PlainNum);
    var last := EndObject(SizeType(k + |members|));
    ReadBack(c.s, b, e);
    if members[1..] == [] {
      ReadEnd(c.s, b, e);
      var st1 := ReadPair(c, st, b, m, SizeType(k), end);
      TookOk(st, st1, b, es);
      ObjectTurn(c, st1, k);
      EmitTook(c, st1, e + 1, last);
      TookThen(st, st1, st1, ObjectLoop(c, st, SizeType(k)), b, e + 1, es, [last]);
      assert members == [m];
      SingleMember(m);
    } else {
      var b1: nat, a1: nat :| Pair(c, st.pos, b1, m) && Token(c.s, b1, a1, 0x2C) && Members(c, a1, b, members[1..]);
      MembersStart(c, a1, b, members[1..]);
      MembersFit(c, a1, b, members[1..]);
      TokenFits(c.s, b1, a1, 0x2C);
      ReadToken(c.s, b1, a1, 0x2C);
      var st1 := ReadPair(c, st, b1, m, SizeType(k), end);
      TookOk(st, st1, b1, es);
      NoneBehind(c.s, b1, a1, end);
      ObjectTurn(c, st1, k);
      var st2 := st1.AtPos(a1);
      ReadMembers(c, st2, b, e, members[1..], k + 1, end);
      var fs := MemberEvents(members[1..], PlainNum) + [last];
      TookThen(st, st1, st2, ObjectLoop(c, st, SizeType(k)), b1, e + 1, es, fs);
      assert members == [m] + members[1..];
      FirstMember(m, members[1..], last);
    }
  }

  /** Every text that the grammar lets the reader take is accepted, with the events of its tree. */
  lemma {:induction false} TextIsAccepted(c: Input, v: Json)
    requires Accepting(c) && Readable(c, v)
    ensures Parse(c).Ok() && PlainAll(Parse(c).out) == Events(v, PlainNum)
    ensures |c.s| < TWO_TO_THE_32 ==> Countable(v)
  {
    hide ParseValue, SkipSpace, Spaces, Denotes, Longest, Passes, HasException, Events, Countable;
    var i, j, end := ReadableParts(c, v);
    Starts(c, i, j, v);
    SkipIs(c.s, 0, i);
    DenotesFits(c, i, j, v);
    SpacesPass(c.s, 0, i);
    NoneBehind(c.s, 0, i, end);
    ReadValue(c, Skip(c, START), j, v, end);
    assert PlainAll([]) == [];
  }

  lemma {:induction false} ReadableParts(c: Input, v: Json) returns (i: nat, j: nat, end: nat)
    requires Readable(c, v)
    ensures Spaces(c.s, 0, i) && Denotes(c, i, j, v) && Longest(c.s, i, j, v)
    ensures j <= end && !HasException(c.s, 0, end)
    ensures !c.flags.stopWhenDone ==> Peek(c.s, SkipSpace(c.s, j)) == 0
  {
    hide SkipSpace, Spaces, Denotes, Longest, Passes, HasException;
    if c.flags.stopWhenDone {
      i, j :| Spaces(c.s, 0, i) && Denotes(c, i, j, v) && Longest(c.s, i, j, v) && !HasException(c.s, i, j);
      end := j;
      DenotesFits(c, i, j, v);
      SpacesPass(c.s, 0, i);
      PassesEnd(c.s, 0, i, j);
    } else {
      var z: nat;
      i, j, z :| Spaces(c.s, 0, i) && Denotes(c, i, j, v) && Spaces(c.s, j, z) && Peek(c.s, z) == 0;
      end := |c.s|;
      DenotesFits(c, i, j, v);
      ReadEnd(c.s, j, z);
      LongestIf(c, i, j, v);
    }
  }

  lemma PassesEnd(s: bytes, i: nat, j: nat, end: nat)
    requires Passes(s, i, j) && j <= end
    ensures HasException(s, i, end) <==> HasException(s, j, end)
  {
    hide HasException;
  }

  /**
   * The parser accepts exactly the texts of the grammar that have no exception, and what it delivers is, up
   * to the integer class, the events of the tree that the text stands for. With the flag for stopping it
   * accepts exactly the texts that begin with such a value, a number being as long as the text allows. The
   * same goes for the table-driven parser.
   */
  lemma {:induction false} ParseIsGrammar(c: Input)
    requires Accepting(c)
    ensures Parse(c).Ok() <==> exists v :: Readable(c, v)
    ensures IterativeSpec.IterativeParse(c).Ok() <==> exists v :: Readable(c, v)
    ensures forall v :: Readable(c, v) ==>
              && PlainAll(Parse(c).out) == Events(v, PlainNum)
              && PlainAll(IterativeSpec.IterativeParse(c).out) == Events(v, PlainNum)
  {
    hide Parse, IterativeSpec.IterativeParse, Readable, Events;
    ParsersAgree.TwoParsersAgree(c);
    if Parse(c).Ok() {
      var v := AcceptedIsTree(c);
    }
    forall v | Readable(c, v)
      ensures Parse(c).Ok() && PlainAll(Parse(c).out) == Events(v, PlainNum)
    {
      TextIsAccepted(c, v);
    }
  }

  lemma ExceptionRefused(c: Input)
    requires Exceptional(c.s) && !c.flags.stopWhenDone
    ensures !Parse(c).Ok()
  {
    hide Parse, JsonText, Exceptional;
    if Parse(c).Ok() {
      var v := AcceptedIsTree(c);
    }
  }

  /** The text "\uD800", quotation marks included, is one of the RFC, and is refused. */
  lemma {:induction false} LoneLeadRefused(c: Input)
    requires c.s == [0x22, 0x5C, 0x75, 0x44, 0x38, 0x30, 0x30, 0x22] && !c.flags.stopWhenDone
    ensures JsonText(c, JString(Encodings.Encode8(0xD800))) && !Parse(c).Ok()
  {
    hide Parse, Denotes, StringHasException;
    LoneLeadText(c);
    assert Spaces(c.s, 0, 0) && Spaces(c.s, 8, 8);
    ExceptionRefused(c);
  }

  lemma {:induction false} LoneLeadText(c: Input)
    requires c.s == [0x22, 0x5C, 0x75, 0x44, 0x38, 0x30, 0x30, 0x22]
    ensures Denotes(c, 0, 8, JString(Encodings.Encode8(0xD800))) && StringHasException(c.s, 1, 8)
  {
    var x := Encodings.Encode8(0xD800);
    hide Encodings.Encode8;
    assert HexEscape(c.s, 1) == Some(0xD800);
    assert CharText(c, 1, 7) == Some(x);
    assert ThenChars(c, 7, 7, x, x);
    assert Chars(c, 1, 7, x);
  }

  /** The text 1e309 is one of the RFC, and is refused. */
  lemma {:induction false} LargeExponentRefused(c: Input)
    requires c.s == [0x31, 0x65, 0x33, 0x30, 0x39] && !c.flags.stopWhenDone
    ensures JsonText(c, JDouble(c.s)) && !Parse(c).Ok()
  {
    hide Parse, Number, TooLarge, NumberEnd;
    LargeExponentText(c.s);
    assert Spaces(c.s, 0, 0) && Denotes(c, 0, 5, JDouble(c.s)) && Spaces(c.s, 5, 5);
    ExceptionRefused(c);
  }

  lemma {:induction false} LargeExponentText(s: bytes)
    requires s == [0x31, 0x65, 0x33, 0x30, 0x39]
    ensures Number(s, 0, 5, JDouble(s)) && TooLarge(s, 0)
  {
    RunEnds(s);
    hide DigitsEnd;
    assert IntPart(s, 0, 1) && FracPart(s, 1, 1) && ExpPart(s, 1, 5) && NumberIs(s, 0, 1, 5, JDouble(s));
    assert LargeExponent(s, 1);
  }

  lemma {:induction false} RunEnds(s: bytes)
    requires s == [0x31, 0x65, 0x33, 0x30, 0x39]
    ensures DigitsEnd(s, 0) == 1 && DigitsEnd(s, 2) == 5 && Value(s[2..5]) == 309
  {
    ValueNext(s, 2, 2);
    ValueNext(s, 2, 3);
    ValueNext(s, 2, 4);
    assert s[2..2] == [] && Value([]) == 0;
    assert DigitsEnd(s, 5) == 5 && DigitsEnd(s, 4) == 5 && DigitsEnd(s, 3) == 5;
  }

  /** A one and n zeros. */
  function OneAndZeros(n: nat): (t: bytes)
    ensures |t| == n + 1 && AllDigits(t) && t[0] == 0x31
  {
    [0x31] + seq(n, i => 0x30)
  }

  lemma {:induction false} OneAndZerosIs(n: nat)
    ensures Value(OneAndZeros(n)) == Power10(n)
  {
    if n == 0 {
      assert OneAndZeros(0) == [0x31] && OneAndZeros(0)[..0] == [];
    } else {
      OneAndZerosIs(n - 1);
      assert OneAndZeros(n)[..n] == OneAndZeros(n - 1) && OneAndZeros(n)[n] == 0x30;
    }
  }

  lemma {:induction false} PowerSum(a: nat, b: nat)
    ensures Power10(a + b) == Power10(a) * Power10(b)
  {
    if a > 0 {
      PowerSum(a - 1, b);
      assert 10 * (Power10(a - 1) * Power10(b)) == (10 * Power10(a - 1)) * Power10(b);
    }
  }

  lemma {:induction false} SeventeenZeros()
    ensures Power10(17) == 100_000_000_000_000_000
  {
    assert Power10(4) == 10 * Power10(3) == 100 * Power10(2) == 1000 * Power10(1) == 10000;
    assert Power10(17) == 10 * Power10(16);
    PowerSum(4, 4);
    PowerSum(8, 8);
  }

  lemma {:induction false} TenTimesMore(k: nat)
    ensures Power10(k + 17) >= 17976931348623157 * Power10(k)
  {
    SeventeenZeros();
    PowerSum(17, k);
    TimesGrows(17976931348623157, 100_000_000_000_000_000, Power10(k));
  }

  lemma {:induction false} LimitIsReached()
    ensures Power10(308) >= DoubleLimit()
  {
    TenTimesMore(291);
    hide Power10;
  }

  lemma TimesGrows(a: nat, b: nat, c: nat)
    requires a <= b
    ensures a * c <= b * c
  {
  }

  /** The text of 10^309, in digits, is one of the RFC, and is refused. */
  lemma {:induction false} ManyDigitsRefused(c: Input)
    requires c.s == OneAndZeros(309) && !c.flags.stopWhenDone
    ensures JsonText(c, JDouble(c.s)) && !Parse(c).Ok()
  {
    hide Parse, Number, TooLarge, NumberEnd, OneAndZeros, Spaces;
    ManyDigitsText(c.s);
    NoSpaces(c.s, 0);
    NoSpaces(c.s, 310);
    assert Denotes(c, 0, 310, JDouble(c.s));
    hide HasException;
    LargeIsException(c.s);
    ExceptionRefused(c);
  }

  lemma NoSpaces(s: bytes, i: nat)
    requires i <= |s|
    ensures Spaces(s, i, i)
  {
  }

  lemma LargeIsException(s: bytes)
    requires s != [] && IsDigit(s[0]) && TooLarge(s, 0)
    ensures Exceptional(s)
  {
    hide TooLarge, NumberEnd;
  }

  lemma {:induction false} ManyDigitsText(s: bytes)
    requires s == OneAndZeros(309)
    ensures |s| == 310 && IsDigit(s[0]) && Number(s, 0, 310, JDouble(s)) && TooLarge(s, 0)
  {
    OneAndZerosIs(309);
    OneAndZerosIs(308);
    LimitIsReached();
    assert s[0..310] == s && s[0..309] == OneAndZeros(308);
    assert Power10(309) == 10 * Power10(308);
    LimitIsLarge();
    DigitsEndAt(s, 0, 310);
    hide Power10, OneAndZeros, DigitsEnd, Value, DoubleLimit;
    assert IntPart(s, 0, 310) && FracPart(s, 310, 310) && ExpPart(s, 310, 310) && NumberIs(s, 0, 310, 310, JDouble(s));
  }
}
