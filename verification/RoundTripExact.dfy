/**
 * Where the round trip through text ends: with a UTF8 target and a reader that validates, a tree comes back if
 * and only if all its strings are well-formed.
 */
module RoundTripExact {
  import opened Bytes
  import opened Json
  import opened Encodings
  import opened ReaderSpec
  import opened RoundTrip
  import W = WriterSpec

  // Strings

  /** Bytes above ASCII in the printed text are bytes of the string. */
  lemma {:induction false} RawBack(s: bytes, q: nat, x: bytes, p: nat, n: nat)
    requires p <= |x| && At(s, q, W.UnitTexts(true, x, p)) && Peek(s, q + |W.UnitTexts(true, x, p)|) == 0x22
    requires q + n <= |s| && forall i :: q <= i < q + n ==> s[i] >= 0x80
    ensures p + n <= |x| && x[p..p + n] == s[q..q + n]
    decreases n
  {
    hide W.UnitText, Decode8;
    if n > 0 {
      AsciiFirst(s, q, x, p);
      NextUnit(true, x, p);
      RawByte(x[p]);
      AtSplit(s, q, [x[p]], W.UnitTexts(true, x, p + 1));
      AtIndex(s, q, [x[p]], 0);
      RawBack(s, q + 1, x, p + 1, n - 1);
      assert x[p..p + n] == [x[p]] + x[p + 1..p + n] && s[q..q + n] == [s[q]] + s[q + 1..q + n];
    } else {
      assert x[p..p] == s[q..q];
    }
  }

  /** An ASCII byte, and the end of the string, are printed in ASCII. */
  lemma {:induction false} AsciiFirst(s: bytes, q: nat, x: bytes, p: nat)
    requires p <= |x| && At(s, q, W.UnitTexts(true, x, p)) && Peek(s, q + |W.UnitTexts(true, x, p)|) == 0x22
    ensures Peek(s, q) >= 0x80 ==> p < |x| && x[p] >= 0x80 && W.Writable(true, x, p)
  {
    hide W.UnitText, Decode8;
    W.WritableIs(true, x, p);
    if p < |x| {
      NextUnit(true, x, p);
      AtSplit(s, q, W.UnitText(x[p]), W.UnitTexts(true, x, p + 1));
      UnitAscii(x[p], 0);
      AtIndex(s, q, W.UnitText(x[p]), 0);
    }
  }

  lemma SameLength(t: bytes, y: bytes)
    requires CharLength(t) <= |y| && y[..CharLength(t)] == t[..CharLength(t)] && CharLength(t) > 0
    ensures CharLength(y) == CharLength(t)
  {
    var n := CharLength(t);
    assert forall i :: 0 <= i < n ==> y[i] == y[..n][i] && t[i] == t[..n][i];
  }

  /** Where no character begins in the string, none begins in the text. */
  lemma {:induction false} NoChar(s: bytes, q: nat, x: bytes, p: nat)
    requires p < |x| && x[p] >= 0x80 && CharLength(x[p..]) == 0 && q < |s| && s[q] >= 0x80
    requires At(s, q, W.UnitTexts(true, x, p)) && Peek(s, q + |W.UnitTexts(true, x, p)|) == 0x22
    ensures !Validate8(s, q).0
  {
    hide W.UnitTexts, CharLength, Validate8;
    ValidateIsGrammar(s, q);
    var t, n := s[q..], CharLength(s[q..]);
    if n > 0 {
      LongBytes(t);
      assert forall i :: q <= i < q + n ==> s[i] == t[i - q];
      RawBack(s, q, x, p, n);
      assert t[..n] == s[q..q + n] && x[p..][..n] == x[p..p + n];
      SameLength(t, x[p..]);
    }
  }

  lemma LongBytes(t: bytes)
    requires t != [] && t[0] >= 0x80
    ensures forall i :: 0 <= i < CharLength(t) ==> t[i] >= 0x80
  {
  }

  lemma WellFormedIs(x: bytes)
    requires x != []
    ensures WellFormed8(x) <==> CharLength(x) > 0 && WellFormed8(x[CharLength(x)..])
    ensures x[0] < 0x80 ==> CharLength(x) == 1
  {
    hide WellFormed8;
    assert WellFormed8(x) <==> CharLength(x) > 0 && WellFormed8(x[CharLength(x)..]) by { Unfolded(x); }
  }

  lemma Unfolded(x: bytes)
    requires x != []
    ensures WellFormed8(x) <==> CharLength(x) > 0 && WellFormed8(x[CharLength(x)..])
  {
    hide CharLength;
  }

  lemma RefusedChar(c: Input, q: nat, text: bytes)
    requires c.flags.validate && Peek(c.s, q) >= 0x80 && !Validate8(c.s, q).0
    ensures ScanString(c, q, text, None).err.Some?
  {
    hide Validate8;
  }

  /** A string that is not well-formed is refused. */
  lemma {:induction false} RefusedUnits(c: Input, q: nat, x: bytes, p: nat, text: bytes)
    requires p <= |x| && c.flags.validate && !WellFormed8(x[p..])
    requires At(c.s, q, W.UnitTexts(true, x, p)) && Peek(c.s, q + |W.UnitTexts(true, x, p)|) == 0x22
    ensures ScanString(c, q, text, None).err.Some?
    decreases |x| - p
  {
    hide ScanString, W.UnitTexts, W.UnitText, WellFormed8, CharLength, Validate8, CopyRange;
    IllFormedHas(x, p);
    WellFormedIs(x[p..]);
    W.WritableIs(true, x, p);
    NextUnit(true, x, p);
    if x[p] < 0x80 {
      AtSplit(c.s, q, W.UnitText(x[p]), W.UnitTexts(true, x, p + 1));
      ReadUnit(c, q, x[p], text);
      assert x[p..][1..] == x[p + 1..];
      RefusedUnits(c, q + |W.UnitText(x[p])|, x, p + 1, text + [x[p]]);
    } else {
      var n := RawStep(c, q, x, p, text);
      if n > 0 {
        assert x[p..][n..] == x[p + n..];
        RefusedUnits(c, q + n, x, p + n, text + CopyRange(c.s, q, q + n));
      }
    }
  }

  /** A byte above ASCII begins a character in the text as it does in the string, or is refused. */
  lemma {:induction false} RawStep(c: Input, q: nat, x: bytes, p: nat, text: bytes) returns (n: nat)
    requires p < |x| && x[p] >= 0x80 && c.flags.validate
    requires At(c.s, q, W.UnitTexts(true, x, p)) && Peek(c.s, q + |W.UnitTexts(true, x, p)|) == 0x22
    ensures n == CharLength(x[p..]) && p + n <= |x|
    ensures n == 0 ==> ScanString(c, q, text, None).err.Some?
    ensures n > 0 ==>
              && ScanString(c, q, text, None) == ScanString(c, q + n, text + CopyRange(c.s, q, q + n), None)
              && W.UnitTexts(true, x, p) == x[p..p + n] + W.UnitTexts(true, x, p + n)
              && At(c.s, q + n, W.UnitTexts(true, x, p + n))
  {
    hide ScanString, W.UnitTexts, W.UnitText, CharLength, Validate8, CopyRange;
    n := CharLength(x[p..]);
    LongBytes(x[p..]);
    assert forall i :: p <= i < p + n ==> x[i] == x[p..][i - p];
    RawChar(x, p, if n == 0 then 1 else n);
    AtSplit(c.s, q, x[p..p + if n == 0 then 1 else n], W.UnitTexts(true, x, p + if n == 0 then 1 else n));
    AtIndex(c.s, q, x[p..p + if n == 0 then 1 else n], 0);
    if n == 0 {
      NoChar(c.s, q, x, p);
      RefusedChar(c, q, text);
    } else {
      SameChar(c.s, q, x, p, n);
      ScanValidChar(c, q, n, text);
    }
  }

  lemma IllFormedHas(x: bytes, p: nat)
    requires p <= |x| && !WellFormed8(x[p..])
    ensures p < |x|
  {
  }

  lemma {:induction false} RefusedString(c: Input, st: St, x: bytes, isKey: bool)
    requires st.Ok() && c.flags.validate && !WellFormed8(x) && At(c.s, st.pos, W.StringText(true, x))
    ensures !ParseString(c, st, isKey).Ok()
  {
    hide W.UnitTexts, ScanString, WellFormed8;
    var t := W.UnitTexts(true, x, 0);
    AtIndex(c.s, st.pos, W.StringText(true, x), |t| + 1);
    AtSplit(c.s, st.pos, [0x22] + t, [0x22]);
    AtSplit(c.s, st.pos, [0x22], t);
    assert x[0..] == x;
    RefusedUnits(c, st.pos + 1, x, 0, []);
  }

  // Trees

  /** A tree that can be printed, but not read back. */
  ghost predicate Refused(c: Input, v: Json) {
    Accepting(c) && Exact(v) && W.Printable(true, v) && c.flags.validate && !Valid(c, true, v)
  }

  lemma {:induction false} RefusedItems(c: Input, items: seq<Json>)
    requires Refused(c, JArray(items))
    ensures items != [] && Exact(items[0]) && Accepting(c)
    ensures Refused(c, items[0]) || (Reads(c, true, items[0]) && items[1..] != [] && Refused(c, JArray(items[1..])))
    ensures items[1..] != [] ==> Exact(items[1..][0])
  {
    hide Accepting;
    if Valid(c, true, items[0]) {
      var i :| 0 <= i < |items| && !Valid(c, true, items[i]);
      assert items[1..][i - 1] == items[i];
    }
  }

  lemma {:induction false} RefusedMembers(c: Input, members: seq<Member>)
    requires Refused(c, JObject(members))
    ensures members != [] && Accepting(c)
    ensures var m := members[0];
            && Exact(m.value) && W.Writable(true, m.name, 0)
            && (|| !WellFormed8(m.name) || Refused(c, m.value)
                || (Reads(c, true, m.value) && members[1..] != [] && Refused(c, JObject(members[1..]))))
  {
    hide Accepting, WellFormed8;
    var m := members[0];
    if WellFormed8(m.name) && Valid(c, true, m.value) {
      var i :| 0 <= i < |members| && !(WellFormed8(members[i].name) && Valid(c, true, members[i].value));
      assert members[1..][i - 1] == members[i];
    }
  }

  lemma {:induction false} ValueRefused(c: Input, st: St, v: Json)
    requires st.Ok() && Refused(c, v) && At(c.s, st.pos, W.Print(true, v))
    ensures !ParseValue(c, st).Ok()
    decreases v, 1
  {
    hide ParseLiteral, ParseString, ParseNumber, W.UnitTexts, W.IntText, W.PrintItems, W.PrintMembers, WellFormed8,
         W.Writable, ParseArray, ParseObject;
    match v
    case JString(x) =>
      AtIndex(c.s, st.pos, W.StringText(true, x), 0);
      RefusedString(c, st, x, false);
    case JArray(items) => ArrayRefused(c, st, items);
    case JObject(members) => ObjectRefused(c, st, members);
    case _ =>
  }

  lemma {:induction false} ArrayRefused(c: Input, st: St, items: seq<Json>)
    requires st.Ok() && Refused(c, JArray(items)) && At(c.s, st.pos, W.Print(true, JArray(items)))
    ensures Peek(c.s, st.pos) == 0x5B && !ParseArray(c, st).Ok()
    decreases items, 1
  {
    hide ParseArray, ArrayLoop, W.Print, W.PrintItems, At, SkipSpace, Emit, Refused, SizeType, Accepting;
    RefusedItems(c, items);
    var t, rest := W.Print(true, items[0]), W.PrintItems(true, items[1..], false);
    ArrayTexts(true, items);
    FirstItem(true, items);
    assert W.PrintItems(true, items, true) + [0x5D] == t + (rest + [0x5D]);
    AtSplit(c.s, st.pos, [0x5B], t + (rest + [0x5D]));
    AtIndex(c.s, st.pos, [0x5B], 0);
    AtSplit(c.s, st.pos + 1, t, rest + [0x5D]);
    FirstByte(c.s, st.pos + 1, true, items[0]);
    NoSpace(c.s, st.pos + 1);
    ArrayOpens(c, st);
    EmitAccepted(c, st.AtPos(st.pos + 1), StartArray);
    ItemsRefused(c, Emit(c, st.AtPos(st.pos + 1), StartArray), items, 0);
  }

  lemma {:induction false} ItemsRefused(c: Input, st: St, items: seq<Json>, k: nat)
    requires st.Ok() && Refused(c, JArray(items)) && items != []
    requires At(c.s, st.pos, W.Print(true, items[0]) + (W.PrintItems(true, items[1..], false) + [0x5D]))
    ensures !ArrayLoop(c, st, SizeType(k)).Ok()
    decreases items, 0
  {
    hide ParseValue, ArrayLoop, W.PrintItems, W.Print, Reads, Refused, At, SkipSpace, Emit, Accepting, SizeType, Events;
    var t, rest := W.Print(true, items[0]), W.PrintItems(true, items[1..], false);
    RefusedItems(c, items);
    AtSplit(c.s, st.pos, t, rest + [0x5D]);
    if Refused(c, items[0]) {
      ValueRefused(c, st, items[0]);
      LoopRefused(c, st, SizeType(k));
    } else {
      AtIndex(c.s, st.pos + |t|, rest + [0x5D], 0);
      FirstItem(true, items[1..]);
      ReadValue(c, st, true, items[0]);
      var st1 := ParseValue(c, st);
      NoSpace(c.s, st1.pos);
      ArrayTurn(c, st, k);
      NextItemAt(c.s, st1.pos, items[1..]);
      FirstByte(c.s, st1.pos + 1, true, items[1..][0]);
      NoSpace(c.s, st1.pos + 1);
      ItemsRefused(c, st1.AtPos(st1.pos + 1), items[1..], k + 1);
    }
  }

  lemma LoopRefused(c: Input, st: St, count: nat)
    requires st.Ok() && !ParseValue(c, st).Ok()
    ensures !ArrayLoop(c, st, count).Ok()
  {
    hide ParseValue, ArrayTail;
  }

  /** The text of further items, behind their comma. */
  lemma {:induction false} NextItemAt(s: bytes, q: nat, items: seq<Json>)
    requires items != [] && At(s, q, W.PrintItems(true, items, false) + [0x5D])
    ensures var t := W.Print(true, items[0]) + (W.PrintItems(true, items[1..], false) + [0x5D]);
            At(s, q + 1, t) && At(s, q + 1, W.Print(true, items[0]))
  {
    hide W.PrintItems, W.Print, At;
    var t, rest := W.Print(true, items[0]), W.PrintItems(true, items[1..], false);
    FirstItem(true, items);
    assert W.PrintItems(true, items, false) + [0x5D] == [0x2C] + (t + (rest + [0x5D]));
    AtSplit(s, q, [0x2C], t + (rest + [0x5D]));
    AtSplit(s, q + 1, t, rest + [0x5D]);
  }

  lemma {:induction false} ObjectRefused(c: Input, st: St, members: seq<Member>)
    requires st.Ok() && Refused(c, JObject(members)) && At(c.s, st.pos, W.Print(true, JObject(members)))
    ensures Peek(c.s, st.pos) == 0x7B && !ParseObject(c, st).Ok()
    decreases members, 3
  {
    hide ParseObject, ObjectLoop, W.Print, W.PrintMembers, At, SkipSpace, Emit, Refused, SizeType, Accepting, W.Writable;
    RefusedMembers(c, members);
    var t := W.PrintMembers(true, members, true);
    ObjectTexts(true, members);
    AtSplit(c.s, st.pos, [0x7B], t + [0x7D]);
    AtIndex(c.s, st.pos, [0x7B], 0);
    NameFirst(c.s, st.pos + 1, true, members);
    ObjectOpens(c, st);
    EmitAccepted(c, st.AtPos(st.pos + 1), StartObject);
    MembersRefused(c, Emit(c, st.AtPos(st.pos + 1), StartObject), members, 0);
  }

  /** A member whose name or value is refused. */
  lemma {:induction false} MemberRefused(c: Input, st: St, m: Member, rest: bytes, count: nat)
    requires st.Ok() && Accepting(c) && c.flags.validate && Exact(m.value) && W.Writable(true, m.name, 0)
    requires !WellFormed8(m.name) || Refused(c, m.value)
    requires At(c.s, st.pos, W.StringText(true, m.name) + ([0x3A] + (W.Print(true, m.value) + rest))) && rest != []
    requires Peek(c.s, st.pos) == 0x22
    ensures !ObjectLoop(c, st, count).Ok()
    decreases m, 1
  {
    hide ParseValue, ParseString, ObjectTail, W.Print, W.StringText, W.Writable, WellFormed8, Refused, At, SkipSpace,
         Accepting;
    var n := W.StringText(true, m.name);
    MemberParts(c.s, st.pos, n, W.Print(true, m.value), rest);
    if !WellFormed8(m.name) {
      RefusedString(c, st, m.name, true);
    } else {
      ReadString(c, st, true, m.name, true);
      NoSpace(c.s, st.pos + |n|);
      FirstByte(c.s, st.pos + |n| + 1, true, m.value);
      NoSpace(c.s, st.pos + |n| + 1);
      ValueRefused(c, St(st.pos + |n| + 1, st.out + [Key(m.name)], None), m.value);
    }
  }

  lemma {:induction false} MembersRefused(c: Input, st: St, members: seq<Member>, k: nat)
    requires st.Ok() && Refused(c, JObject(members)) && members != []
    requires At(c.s, st.pos, W.PrintMembers(true, members, true) + [0x7D])
    ensures !ObjectLoop(c, st, SizeType(k)).Ok()
    decreases members, 2
  {
    hide ParseValue, ParseString, ObjectLoop, ObjectTail, W.PrintMembers, W.Print, W.StringText, W.Writable,
         Events, Reads, Refused, At, SkipSpace, WellFormed8, SizeType, Accepting;
    var m, rest := members[0], W.PrintMembers(true, members[1..], false);
    RefusedMembers(c, members);
    FirstMember(true, members);
    GroupMember(W.StringText(true, m.name), W.Print(true, m.value), rest);
    NameFirst(c.s, st.pos, true, members);
    assert c.flags.validate by { RefusesOnly(c, JObject(members)); }
    if !WellFormed8(m.name) || Refused(c, m.value) {
      MemberRefused(c, st, m, rest + [0x7D], SizeType(k));
    } else {
      FirstMember(true, members[1..]);
      var st1 := ReadMember(c, st, true, m, rest + [0x7D], SizeType(k));
      NoSpace(c.s, st1.pos);
      ObjectTurn(c, st1, k);
      var t := W.PrintMembers(true, members[1..], true);
      assert rest + [0x7D] == [0x2C] + (t + [0x7D]);
      AtSplit(c.s, st1.pos, [0x2C], t + [0x7D]);
      NameFirst(c.s, st1.pos + 1, true, members[1..]);
      MembersRefused(c, st1.AtPos(st1.pos + 1), members[1..], k + 1);
    }
  }

  lemma RefusesOnly(c: Input, v: Json)
    ensures Refused(c, v) ==> c.flags.validate && Accepting(c)
  {
  }

  /**
   * The text that the writer prints for a tree, with either target, is read back as the events of that tree if
   * and only if the target escaped what is not ASCII, or the reader does not validate, or every string of the
   * tree is well-formed; otherwise it is refused.
   */
  lemma {:induction false} ReadsBackIff(c: Input, u: bool, v: Json)
    requires Accepting(c) && Exact(v) && W.Printable(u, v) && c.s == W.Print(u, v)
    ensures Valid(c, u, v) ==> Parse(c) == St(|c.s|, Events(v, ReaderNum), None)
    ensures !Valid(c, u, v) ==> !Parse(c).Ok()
  {
    hide ParseValue, W.Print, Events, Exact, W.Printable, Accepting;
    if Valid(c, u, v) {
      hide Valid;
      ParseUndoesPrint(c, u, v);
    } else {
      OnlyRaw(c, u, v);
      hide Valid;
      assert At(c.s, 0, c.s);
      FirstByte(c.s, 0, u, v);
      NoSpace(c.s, 0);
      FirstNonNul(u, v);
      AtIndex(c.s, 0, c.s, 0);
      ValueRefused(c, START, v);
    }
  }

  lemma OnlyRaw(c: Input, u: bool, v: Json)
    ensures !Valid(c, u, v) ==> u && c.flags.validate
  {
  }
}
