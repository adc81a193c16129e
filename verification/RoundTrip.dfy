/** The reader reads back what the writer printed. */
module RoundTrip {
  import opened Bytes
  import opened Json
  import opened Encodings
  import opened ReaderSpec
  import W = WriterSpec

  lemma HexDigitValue(n: nat)
    requires n < 16
    ensures HexValue(W.HexDigit(n)) == Some(n)
  {
  }

  lemma HexDigits(n: nat)
    requires n < 0x10000
    ensures n / 0x1000 < 16
    ensures ((n / 0x1000 * 16 + n / 0x100 % 16) * 16 + n / 16 % 16) * 16 + n % 16 == n
  {
  }

  /** ParseHex4 reads the four digits of an escape. */
  lemma {:induction false} ReadHex(s: bytes, q: nat, n: nat)
    requires n < 0x10000 && At(s, q, W.HexEscape(n))
    ensures ParseHex4(s, q + 2) == Hex(n, q + 6, true)
    ensures Peek(s, q) == 0x5C && Peek(s, q + 1) == 0x75
  {
    hide ParseHex4, HexValue, W.HexDigit, At, Peek;
    var t := W.HexEscape(n);
    AtIndex(s, q, t, 0);
    AtIndex(s, q, t, 1);
    AtIndex(s, q, t, 2);
    AtIndex(s, q, t, 3);
    AtIndex(s, q, t, 4);
    AtIndex(s, q, t, 5);
    HexDigits(n);
    HexDigitValue(n / 0x1000);
    HexDigitValue(n / 0x100 % 16);
    HexDigitValue(n / 16 % 16);
    HexDigitValue(n % 16);
    HexFour(s, q + 2);
  }

  /** An escape of a code point that is no lead surrogate. */
  lemma {:induction false} ReadHexEscape(c: Input, q: nat, cp: nat, text: bytes)
    requires Scalar(cp) && cp <= 0xFFFF && At(c.s, q, W.HexEscape(cp))
    ensures ScanString(c, q, text, None) == ScanString(c, q + 6, text + Encode8(cp), None)
  {
    hide Encode8, ParseHex4, Validate8;
    ReadHex(c.s, q, cp);
    assert ScanString(c, q, text, None) == ScanEscape(c, q, text, None);
  }

  /** A surrogate pair of escapes: the arithmetic of both sides meets. */
  lemma {:induction false} ReadSurrogates(c: Input, q: nat, cp: nat, text: bytes)
    requires Scalar(cp) && cp > 0xFFFF && At(c.s, q, W.CodePointText(cp))
    ensures ScanString(c, q, text, None) == ScanString(c, q + 12, text + Encode8(cp), None)
  {
    hide Encode8, ParseHex4, Validate8, W.HexEscape;
    var v := cp - 0x10000;
    var lead, trail := v / 0x400 + 0xD800, v % 0x400 + 0xDC00;
    AtSplit(c.s, q, W.HexEscape(lead), W.HexEscape(trail));
    ReadHex(c.s, q, lead);
    ReadHex(c.s, q + 6, trail);
    assert SurrogatePair(lead, trail) == cp;
    assert ScanString(c, q, text, None) == ScanEscape(c, q, text, None);
  }

  lemma {:induction false} ReadUnit(c: Input, q: nat, b: byte, text: bytes)
    requires At(c.s, q, W.UnitText(b)) && (c.flags.validate ==> b < 0x80)
    ensures ScanString(c, q, text, None) == ScanString(c, q + |W.UnitText(b)|, text + [b], None)
  {
    hide ParseHex4;
    var t := W.UnitText(b);
    AtIndex(c.s, q, t, 0);
    if W.Escape(b) == 0x75 {
      ReadHexEscape(c, q, b, text);
    } else if W.Escape(b) != 0 {
      AtIndex(c.s, q, t, 1);
      assert Escape(W.Escape(b)) == b;
    } else if c.flags.validate {
      assert CopyRange(c.s, q, q + 1) == [b];
    }
  }

  lemma RawByte(b: byte)
    requires b >= 0x80
    ensures W.UnitText(b) == [b]
  {
  }

  /** The bytes of one character of two bytes or more are copied as they are. */
  lemma {:induction false} RawChar(x: bytes, p: nat, n: nat)
    requires p + n <= |x| && forall i :: p <= i < p + n ==> x[i] >= 0x80
    ensures W.UnitTexts(true, x, p) == x[p..p + n] + W.UnitTexts(true, x, p + n)
    decreases n
  {
    hide W.UnitText, Decode8;
    if n > 0 {
      RawByte(x[p]);
      RawChar(x, p + 1, n - 1);
      assert x[p..p + n] == [x[p]] + x[p + 1..p + n];
    } else {
      assert x[p..p] == [];
    }
  }

  lemma ScanValidChar(c: Input, q: nat, n: nat, text: bytes)
    requires c.flags.validate && Peek(c.s, q) >= 0x80 && Validate8(c.s, q) == (true, q + n)
    ensures ScanString(c, q, text, None) == ScanString(c, q + n, text + CopyRange(c.s, q, q + n), None)
  {
    hide Validate8, CopyRange;
  }

  /** When the reader validates, well-formed raw characters pass one by one. */
  lemma {:induction false} ReadValidChar(c: Input, q: nat, x: bytes, p: nat, text: bytes) returns (n: nat)
    requires p < |x| && x[p] >= 0x80 && c.flags.validate && WellFormed8(x[p..])
    requires At(c.s, q, W.UnitTexts(true, x, p))
    ensures 0 < n && p + n <= |x| && WellFormed8(x[p + n..])
    ensures W.UnitTexts(true, x, p) == x[p..p + n] + W.UnitTexts(true, x, p + n)
    ensures ScanString(c, q, text, None) == ScanString(c, q + n, text + x[p..p + n], None)
  {
    hide Validate8, CharLength, W.UnitTexts, ScanString, CopyRange;
    n := CharLength(x[p..]);
    CharBytes(x[p..]);
    assert forall i :: p <= i < p + n ==> x[i] == x[p..][i - p];
    RawChar(x, p, n);
    assert x[p..][n..] == x[p + n..];
    AtSplit(c.s, q, x[p..p + n], W.UnitTexts(true, x, p + n));
    SameChar(c.s, q, x, p, n);
    CopyRangeInside(c.s, q, q + n);
    AtIndex(c.s, q, x[p..p + n], 0);
    ScanValidChar(c, q, n, text);
  }

  lemma CharBytes(t: bytes)
    requires t != [] && t[0] >= 0x80 && WellFormed8(t)
    ensures CharLength(t) > 0 && WellFormed8(t[CharLength(t)..])
    ensures forall i :: 0 <= i < CharLength(t) ==> t[i] >= 0x80
  {
  }

  lemma SameChar(s: bytes, q: nat, x: bytes, p: nat, n: nat)
    requires p < |x| && n == CharLength(x[p..]) > 0 && At(s, q, x[p..p + n])
    ensures Validate8(s, q) == (true, q + n)
  {
    var t, y := s[q..], x[p..];
    assert forall i :: 0 <= i < n ==> t[i] == s[q..q + n][i] == y[i];
    assert t[0] == y[0];
    assert n > 1 ==> t[1] == y[1];
    assert n > 2 ==> t[2] == y[2];
    assert n > 3 ==> t[3] == y[3];
    ValidateIsGrammar(s, q);
  }

  /**
   * One step of the two loops: the writer printed `t` for the bytes `x[p..p']`, and the reader reads
   * those bytes back from it.
   */
  lemma {:induction false} ReadStep(c: Input, q: nat, u: bool, x: bytes, p: nat, text: bytes)
    returns (t: bytes, p': nat)
    requires p < |x| && W.Writable(u, x, p) && (u && c.flags.validate ==> WellFormed8(x[p..]))
    requires At(c.s, q, W.UnitTexts(u, x, p))
    ensures p < p' <= |x| && W.Writable(u, x, p') && (u && c.flags.validate ==> WellFormed8(x[p'..]))
    ensures W.UnitTexts(u, x, p) == t + W.UnitTexts(u, x, p')
    ensures ScanString(c, q, text, None) == ScanString(c, q + |t|, text + x[p..p'], None)
  {
    hide Validate8, W.UnitText, W.UnitTexts, W.Writable, W.CodePointText, Encode8, Decode8, ScanString, WellFormed8, Scalar;
    if u && c.flags.validate && x[p] >= 0x80 {
      var n := ReadValidChar(c, q, x, p, text);
      t, p' := x[p..p + n], p + n;
      W.WritableIs(u, x, p + n);
    } else if u || x[p] < 0x80 {
      NextUnit(u, x, p);
      t, p' := W.UnitText(x[p]), p + 1;
      AtSplit(c.s, q, t, W.UnitTexts(u, x, p'));
      ReadUnit(c, q, x[p], text);
      if u && c.flags.validate {
        assert x[p..][1..] == x[p + 1..];
        AsciiChar(x[p..]);
      }
      assert x[p..p'] == [x[p]];
    } else {
      NextPoint(u, x, p);
      t, p' := W.CodePointText(Decode8(x, p).cp), Decode8(x, p).pos;
      AtSplit(c.s, q, t, W.UnitTexts(u, x, p'));
      ReadCodePoint(c, q, Decode8(x, p).cp, text);
    }
  }

  /** The writer's next step: a byte of its own. */
  lemma NextUnit(u: bool, x: bytes, p: nat)
    requires p < |x| && W.Writable(u, x, p) && (u || x[p] < 0x80)
    ensures W.UnitTexts(u, x, p) == W.UnitText(x[p]) + W.UnitTexts(u, x, p + 1) && W.Writable(u, x, p + 1)
  {
    hide W.UnitText, Decode8;
  }

  /** The writer's next step: a decoded code point. */
  lemma NextPoint(u: bool, x: bytes, p: nat)
    requires p < |x| && W.Writable(u, x, p) && !u && x[p] >= 0x80
    ensures var d := Decode8(x, p);
            && Scalar(d.cp) && p < d.pos <= |x| && x[p..d.pos] == Encode8(d.cp)
            && W.UnitTexts(u, x, p) == W.CodePointText(d.cp) + W.UnitTexts(u, x, d.pos) && W.Writable(u, x, d.pos)
  {
    hide W.CodePointText, Decode8, Encode8;
    DecodeIsShortest(x, p);
  }

  lemma {:induction false} ReadClosing(c: Input, q: nat, u: bool, x: bytes, text: bytes)
    requires Peek(c.s, q + |W.UnitTexts(u, x, |x|)|) == 0x22
    ensures W.UnitTexts(u, x, |x|) == [] && ScanString(c, q, text, None) == Scan(q + 1, text, None)
  {
  }

  /** ParseStringToStream on what WriteString printed, from position `p` of the string on. */
  lemma {:induction false} ReadUnits(c: Input, q: nat, u: bool, x: bytes, p: nat, text: bytes)
    requires p <= |x| && W.Writable(u, x, p) && (u && c.flags.validate ==> WellFormed8(x[p..]))
    requires At(c.s, q, W.UnitTexts(u, x, p)) && Peek(c.s, q + |W.UnitTexts(u, x, p)|) == 0x22
    ensures ScanString(c, q, text, None) == Scan(q + |W.UnitTexts(u, x, p)| + 1, text + x[p..], None)
    decreases |x| - p
  {
    hide ScanString, W.UnitTexts, W.Writable, WellFormed8;
    if p == |x| {
      assert text + x[p..] == text;
      ReadClosing(c, q, u, x, text);
    } else {
      var t, p' := ReadStep(c, q, u, x, p, text);
      AtSplit(c.s, q, t, W.UnitTexts(u, x, p'));
      ReadUnits(c, q + |t|, u, x, p', text + x[p..p']);
      assert text + x[p..p'] + x[p'..] == text + x[p..];
    }
  }

  lemma AsciiChar(t: bytes)
    requires t != [] && t[0] < 0x80 && WellFormed8(t)
    ensures WellFormed8(t[1..])
  {
  }

  lemma {:induction false} ReadCodePoint(c: Input, q: nat, cp: nat, text: bytes)
    requires Scalar(cp) && At(c.s, q, W.CodePointText(cp))
    ensures ScanString(c, q, text, None) == ScanString(c, q + |W.CodePointText(cp)|, text + Encode8(cp), None)
  {
    hide ScanString, Encode8, ParseHex4, W.HexEscape;
    if cp <= 0xFFFF {
      ReadHexEscape(c, q, cp, text);
    } else {
      ReadSurrogates(c, q, cp, text);
    }
  }

  lemma {:induction false} ReadString(c: Input, st: St, u: bool, x: bytes, isKey: bool)
    requires st.Ok() && Accepting(c) && At(c.s, st.pos, W.StringText(u, x)) && W.Writable(u, x, 0)
    requires u && c.flags.validate ==> WellFormed8(x)
    ensures ParseString(c, st, isKey) ==
            St(st.pos + |W.StringText(u, x)|, st.out + [if isKey then Key(x) else String(x)], None)
    ensures Peek(c.s, st.pos) == 0x22
  {
    hide W.UnitTexts, W.Writable, ScanString, WellFormed8;
    var t := W.UnitTexts(u, x, 0);
    AtIndex(c.s, st.pos, W.StringText(u, x), 0);
    AtIndex(c.s, st.pos, W.StringText(u, x), |t| + 1);
    AtSplit(c.s, st.pos, [0x22] + t, [0x22]);
    AtSplit(c.s, st.pos, [0x22], t);
    assert x[0..] == x;
    ReadUnits(c, st.pos + 1, u, x, 0, []);
    assert [] + x == x;
  }

  /** The digits of a number, then what is not part of it. */
  lemma {:induction false} ReadDigits(s: bytes, p: nat, n: nat)
    requires At(s, p, Decimal(n)) && !IsDigit(Peek(s, p + |Decimal(n)|))
    ensures IntegerEnd(s, p) == p + |Decimal(n)|
    ensures s[p..IntegerEnd(s, p)] == Decimal(n) && Value(Decimal(n)) == n
    ensures IsDigit(Peek(s, p))
  {
    hide DigitsEnd, Value;
    AtIndex(s, p, Decimal(n), 0);
    ValueOfDecimal(n);
    if n == 0 {
      assert Decimal(n) == [0x30];
    } else {
      DigitsEndIs(s, p, Decimal(n));
    }
  }

  lemma {:induction false} ReadMagnitude(c: Input, st: St, minus: bool, n: nat)
    requires st.Ok() && Accepting(c) && n <= Magnitude(minus)
    requires minus <==> Peek(c.s, st.pos) == 0x2D
    requires var p := if minus then st.pos + 1 else st.pos;
             At(c.s, p, Decimal(n)) && Delimited(c.s, p + |Decimal(n)|)
    ensures var p := if minus then st.pos + 1 else st.pos;
            ParseNumber(c, st) == St(p + |Decimal(n)|, st.out + [NumberEvent(minus, n)], None)
  {
    hide DigitsEnd, IntegerEnd, Value, Decimal, BigDigits, ParseFraction, NumberEvent;
    var p := if minus then st.pos + 1 else st.pos;
    ReadDigits(c.s, p, n);
  }

  /** Every integer in range comes back with its value and in the narrowest class. */
  lemma {:induction false} ReadNumber(c: Input, st: St, n: int)
    requires st.Ok() && Accepting(c) && InRange(n)
    requires At(c.s, st.pos, W.IntText(n)) && Delimited(c.s, st.pos + |W.IntText(n)|)
    ensures ParseNumber(c, st) == St(st.pos + |W.IntText(n)|, st.out + [ReaderNum(n)], None)
    ensures Peek(c.s, st.pos) == 0x2D || IsDigit(Peek(c.s, st.pos))
  {
    hide ParseNumber, Decimal;
    if n < 0 {
      AtSplit(c.s, st.pos, [0x2D], Decimal(-n));
      AtIndex(c.s, st.pos, [0x2D], 0);
      ReadMagnitude(c, st, true, -n);
    } else {
      AtIndex(c.s, st.pos, Decimal(n), 0);
      ReadMagnitude(c, st, false, n);
    }
  }

  /** A run of digits that is too large for an integer is never reported as one. */
  lemma {:induction false} LargeIsDouble(c: Input, st: St)
    requires st.Ok() && ParseNumber(c, st).Ok()
    requires var minus := Peek(c.s, st.pos) == 0x2D;
             var p := if minus then st.pos + 1 else st.pos;
             var q := IntegerEnd(c.s, p);
             IsDigit(Peek(c.s, p)) && Value(c.s[p..q]) > Magnitude(minus)
    ensures var r := ParseNumber(c, st);
            r.out == st.out + [Double(CopyRange(c.s, st.pos, r.pos))]
  {
    hide DigitsEnd, IntegerEnd, Value, BigDigits, ExponentDigits;
  }

  // Trees

  /** The first byte of a printed tree starts a value; it is no space and no closing bracket. */
  lemma {:induction false} FirstByte(s: bytes, q: nat, u: bool, v: Json)
    requires At(s, q, W.Print(u, v)) && Exact(v)
    ensures W.Print(u, v) != [] && !IsSpace(Peek(s, q)) && Peek(s, q) != 0x5D
  {
    hide Decimal, W.UnitTexts, W.PrintItems, W.PrintMembers, W.Printable, Valid;
    var t := W.Print(u, v);
    if v.JInt? {
      if v.n >= 0 {
        assert IsDigit(t[0]);
      }
    }
    AtIndex(s, q, t, 0);
  }

  /** Strings of the tree pass the reader's validation, when it is on and the target left bytes raw. */
  predicate Valid(c: Input, u: bool, v: Json)
    decreases v
  {
    u && c.flags.validate ==>
      match v
      case JString(x) => WellFormed8(x)
      case JArray(items) => forall i :: 0 <= i < |items| ==> Valid(c, u, items[i])
      case JObject(members) =>
        forall i :: 0 <= i < |members| ==> WellFormed8(members[i].name) && Valid(c, u, members[i].value)
      case _ => true
  }

  /** What the text of `v` at the cursor becomes. */
  ghost predicate Reads(c: Input, u: bool, v: Json) {
    Accepting(c) && Exact(v) && W.Printable(u, v) && Valid(c, u, v)
  }

  lemma ReadsExact(c: Input, u: bool, v: Json)
    requires Reads(c, u, v)
    ensures Exact(v)
  {
    hide Exact;
  }

  lemma {:induction false} ReadsItems(c: Input, u: bool, items: seq<Json>)
    requires Reads(c, u, JArray(items)) && items != []
    ensures Reads(c, u, items[0]) && Reads(c, u, JArray(items[1..])) && Accepting(c)
  {
  }

  lemma {:induction false} ReadsMembers(c: Input, u: bool, members: seq<Member>)
    requires Reads(c, u, JObject(members)) && members != []
    ensures var m := members[0];
            && Reads(c, u, m.value) && W.Writable(u, m.name, 0) && (u && c.flags.validate ==> WellFormed8(m.name))
            && Reads(c, u, JObject(members[1..])) && Accepting(c)
  {
  }

  lemma JoinEvents(out: seq<Event>, es: seq<Event>, fs: seq<Event>, e: Event)
    ensures out + es + (fs + [e]) == out + ((es + fs) + [e])
    ensures out + es + [e] == out + (es + [e])
  {
  }

  lemma {:induction false} ReadLiteral(c: Input, st: St, first: byte, rest: bytes, e: Event)
    requires st.Ok() && Accepting(c) && At(c.s, st.pos, [first] + rest) && |rest| <= 4
    ensures ParseLiteral(c, st, rest, e) == St(st.pos + 1 + |rest|, st.out + [e], None)
    ensures Peek(c.s, st.pos) == first
  {
    AtIndex(c.s, st.pos, [first] + rest, 0);
    AtSplit(c.s, st.pos, [first], rest);
    MatchAt(c.s, st.pos + 1, rest);
  }

  /** ParseValue on the text of a tree delivers the events of that tree and stops behind the text. */
  lemma {:induction false} ReadValue(c: Input, st: St, u: bool, v: Json)
    requires st.Ok() && Reads(c, u, v)
    requires At(c.s, st.pos, W.Print(u, v)) && Delimited(c.s, st.pos + |W.Print(u, v)|)
    ensures ParseValue(c, st) == St(st.pos + |W.Print(u, v)|, st.out + Events(v, ReaderNum), None)
    decreases v, 1
  {
    hide ParseLiteral, ParseString, ParseNumber, W.UnitTexts, W.IntText, W.PrintItems, W.PrintMembers,
         ItemEvents, MemberEvents, WellFormed8, W.Writable;
    match v
    case JNull =>
      ReadLiteral(c, st, 0x6E, NULL_REST, Null);
    case JBool(b) =>
      if b {
        ReadLiteral(c, st, 0x74, TRUE_REST, Bool(true));
      } else {
        ReadLiteral(c, st, 0x66, FALSE_REST, Bool(false));
      }
    case JInt(n) =>
      ReadNumber(c, st, n);
    case JString(x) =>
      ReadString(c, st, u, x, false);
    case JArray(items) =>
      ReadArray(c, st, u, items);
    case JObject(members) =>
      ReadObject(c, st, u, members);
  }

  lemma {:induction false} NoSpace(s: bytes, q: nat)
    requires !IsSpace(Peek(s, q))
    ensures SkipSpace(s, q) == q
  {
  }

  lemma EmptyTexts(u: bool)
    ensures W.PrintItems(u, [], true) == [] == W.PrintItems(u, [], false)
    ensures W.PrintMembers(u, [], true) == [] == W.PrintMembers(u, [], false)
    ensures ItemEvents([], ReaderNum) == [] == MemberEvents([], ReaderNum)
  {
  }

  lemma FirstItem(u: bool, items: seq<Json>)
    requires items != []
    ensures W.PrintItems(u, items, true) == W.Print(u, items[0]) + W.PrintItems(u, items[1..], false)
    ensures W.PrintItems(u, items, false) == [0x2C] + (W.Print(u, items[0]) + W.PrintItems(u, items[1..], false))
    ensures ItemEvents(items, ReaderNum) == Events(items[0], ReaderNum) + ItemEvents(items[1..], ReaderNum)
  {
    hide W.Print, Events;
    var t, rest := W.Print(u, items[0]), W.PrintItems(u, items[1..], false);
    assert [0x2C] + t + rest == [0x2C] + (t + rest);
    assert [] + t == t;
  }

  lemma ArrayTexts(u: bool, items: seq<Json>)
    ensures W.Print(u, JArray(items)) == [0x5B] + (W.PrintItems(u, items, true) + [0x5D])
    ensures Events(JArray(items), ReaderNum) ==
            [StartArray] + (ItemEvents(items, ReaderNum) + [EndArray(SizeType(|items|))])
  {
    hide W.PrintItems, ItemEvents;
    Assoc<byte>([0x5B], W.PrintItems(u, items, true), [0x5D]);
    Assoc([StartArray], ItemEvents(items, ReaderNum), [EndArray(SizeType(|items|))]);
  }

  lemma ObjectTexts(u: bool, members: seq<Member>)
    ensures W.Print(u, JObject(members)) == [0x7B] + (W.PrintMembers(u, members, true) + [0x7D])
    ensures Events(JObject(members), ReaderNum) ==
            [StartObject] + (MemberEvents(members, ReaderNum) + [EndObject(SizeType(|members|))])
  {
    hide W.PrintMembers, MemberEvents;
    Assoc<byte>([0x7B], W.PrintMembers(u, members, true), [0x7D]);
    Assoc([StartObject], MemberEvents(members, ReaderNum), [EndObject(SizeType(|members|))]);
  }

  lemma EmitAccepted(c: Input, st: St, e: Event)
    requires Accepting(c)
    ensures Emit(c, st, e) == st.(out := st.out + [e])
  {
  }

  lemma {:induction false} ReadArray(c: Input, st: St, u: bool, items: seq<Json>)
    requires st.Ok() && Reads(c, u, JArray(items))
    requires At(c.s, st.pos, W.Print(u, JArray(items)))
    ensures ParseValue(c, st) ==
            St(st.pos + |W.Print(u, JArray(items))|, st.out + Events(JArray(items), ReaderNum), None)
    decreases items, 3
  {
    hide ArrayBody, W.Print, W.PrintItems, Events, ItemEvents, At, SkipSpace, ParseNumber, ParseObject, ParseString;
    var t := W.PrintItems(u, items, true);
    ArrayTexts(u, items);
    AtSplit(c.s, st.pos, [0x5B], t + [0x5D]);
    AtIndex(c.s, st.pos, [0x5B], 0);
    var st1 := Emit(c, st.AtPos(st.pos + 1), StartArray);
    ReadArrayBody(c, st1, u, items);
    var es := ItemEvents(items, ReaderNum) + [EndArray(SizeType(|items|))];
    assert st.out + [StartArray] + es == st.out + ([StartArray] + es);
  }

  lemma {:induction false} ReadArrayBody(c: Input, st: St, u: bool, items: seq<Json>)
    requires st.Ok() && Reads(c, u, JArray(items))
    requires At(c.s, st.pos, W.PrintItems(u, items, true) + [0x5D])
    ensures SkipSpace(c.s, st.pos) == st.pos
    ensures ArrayBody(c, st) ==
            St(st.pos + |W.PrintItems(u, items, true)| + 1,
               st.out + (ItemEvents(items, ReaderNum) + [EndArray(SizeType(|items|))]), None)
    decreases items, 2
  {
    hide ArrayLoop, W.PrintItems, ItemEvents;
    EmptyTexts(u);
    if items == [] {
      AtIndex(c.s, st.pos, W.PrintItems(u, items, true) + [0x5D], 0);
      NoSpace(c.s, st.pos);
    } else {
      var t, rest := W.Print(u, items[0]), W.PrintItems(u, items[1..], false);
      FirstItem(u, items);
      assert W.PrintItems(u, items, true) + [0x5D] == t + (rest + [0x5D]);
      AtSplit(c.s, st.pos, t, rest + [0x5D]);
      FirstByte(c.s, st.pos, u, items[0]);
      NoSpace(c.s, st.pos);
      ReadItems(c, st, u, items, 0);
    }
  }

  /** The element loop on the text of the remaining items, `k` items after the start. */
  lemma {:induction false} ReadItems(c: Input, st: St, u: bool, items: seq<Json>, k: nat)
    requires st.Ok() && Reads(c, u, JArray(items)) && items != []
    requires At(c.s, st.pos, W.Print(u, items[0]) + (W.PrintItems(u, items[1..], false) + [0x5D]))
    ensures ArrayLoop(c, st, SizeType(k)) ==
            St(st.pos + |W.Print(u, items[0])| + |W.PrintItems(u, items[1..], false)| + 1,
               st.out + (ItemEvents(items, ReaderNum) + [EndArray(SizeType(k + |items|))]), None)
    decreases items, 1
  {
    hide ParseValue, ArrayLoop, W.PrintItems, W.Print, ItemEvents, Events, Reads, At, SkipSpace,
         Emit, Accepting, SizeType;
    var t, rest := W.Print(u, items[0]), W.PrintItems(u, items[1..], false);
    var es, fs := Events(items[0], ReaderNum), ItemEvents(items[1..], ReaderNum);
    var last := EndArray(SizeType(k + |items|));
    var st1 := ReadFirstItem(c, st, u, items, k);
    FirstItem(u, items);
    EmptyTexts(u);
    JoinEvents(st.out, es, fs, last);
    if items[1..] != [] {
      ReadNextItems(c, st1, u, items[1..], k + 1);
    } else {
      EmitAccepted(c, st1.AtPos(st1.pos + 1), last);
      assert es + fs == es;
    }
  }

  /** One item, and the turn of the loop behind it. */
  lemma {:induction false} ReadFirstItem(c: Input, st: St, u: bool, items: seq<Json>, k: nat) returns (st1: St)
    requires st.Ok() && Reads(c, u, JArray(items)) && items != []
    requires At(c.s, st.pos, W.Print(u, items[0]) + (W.PrintItems(u, items[1..], false) + [0x5D]))
    ensures st1 == St(st.pos + |W.Print(u, items[0])|, st.out + Events(items[0], ReaderNum), None)
    ensures At(c.s, st1.pos, W.PrintItems(u, items[1..], false) + [0x5D])
    ensures Accepting(c) && (items[1..] != [] ==> Reads(c, u, JArray(items[1..])))
    ensures ArrayLoop(c, st, SizeType(k)) ==
            if items[1..] != [] then ArrayLoop(c, Skip(c, st1.AtPos(st1.pos + 1)), SizeType(k + 1))
            else Emit(c, st1.AtPos(st1.pos + 1), EndArray(SizeType(k + 1)))
    decreases items, 0
  {
    hide ParseValue, ArrayLoop, W.PrintItems, W.Print, ItemEvents, Events, Reads, At, SkipSpace,
         Emit, Accepting, SizeType;
    var t, rest := W.Print(u, items[0]), W.PrintItems(u, items[1..], false);
    ReadsItems(c, u, items);
    AtSplit(c.s, st.pos, t, rest + [0x5D]);
    AtIndex(c.s, st.pos + |t|, rest + [0x5D], 0);
    EmptyTexts(u);
    if items[1..] != [] {
      FirstItem(u, items[1..]);
    }
    ReadValue(c, st, u, items[0]);
    st1 := ParseValue(c, st);
    NoSpace(c.s, st1.pos);
    ArrayTurn(c, st, k);
  }

  /** From a comma on. */
  lemma {:induction false} ReadNextItems(c: Input, st: St, u: bool, items: seq<Json>, k: nat)
    requires st.Ok() && Reads(c, u, JArray(items)) && items != []
    requires At(c.s, st.pos, W.PrintItems(u, items, false) + [0x5D])
    ensures ArrayLoop(c, Skip(c, st.AtPos(st.pos + 1)), SizeType(k)) ==
            St(st.pos + |W.PrintItems(u, items, false)| + 1,
               st.out + (ItemEvents(items, ReaderNum) + [EndArray(SizeType(k + |items|))]), None)
    decreases items, 2
  {
    hide ArrayLoop, W.PrintItems, W.Print, ItemEvents, Reads, At, SkipSpace;
    var t, rest := W.Print(u, items[0]), W.PrintItems(u, items[1..], false);
    FirstItem(u, items);
    assert W.PrintItems(u, items, false) + [0x5D] == [0x2C] + (t + (rest + [0x5D]));
    AtSplit(c.s, st.pos, [0x2C], t + (rest + [0x5D]));
    AtSplit(c.s, st.pos + 1, t, rest + [0x5D]);
    ReadsItems(c, u, items);
    FirstByte(c.s, st.pos + 1, u, items[0]);
    NoSpace(c.s, st.pos + 1);
    ReadItems(c, st.AtPos(st.pos + 1), u, items, k);
  }

  lemma FirstMember(u: bool, members: seq<Member>)
    requires members != []
    ensures var m := members[0];
            var t := W.StringText(u, m.name) + ([0x3A] + (W.Print(u, m.value) + W.PrintMembers(u, members[1..], false)));
            W.PrintMembers(u, members, true) == t && W.PrintMembers(u, members, false) == [0x2C] + t
    ensures MemberEvents(members, ReaderNum) ==
            [Key(members[0].name)] + (Events(members[0].value, ReaderNum) + MemberEvents(members[1..], ReaderNum))
  {
    hide W.Print, Events, W.StringText;
    var m := members[0];
    JoinMember([], W.StringText(u, m.name), W.Print(u, m.value), W.PrintMembers(u, members[1..], false));
    JoinMember([0x2C], W.StringText(u, m.name), W.Print(u, m.value), W.PrintMembers(u, members[1..], false));
    var es, fs := Events(m.value, ReaderNum), MemberEvents(members[1..], ReaderNum);
    assert [Key(m.name)] + es + fs == [Key(m.name)] + (es + fs);
  }

  lemma JoinMember(sep: bytes, name: bytes, value: bytes, rest: bytes)
    ensures sep + name + [0x3A] + value + rest == sep + (name + ([0x3A] + (value + rest)))
  {
  }

  lemma {:induction false} ReadObject(c: Input, st: St, u: bool, members: seq<Member>)
    requires st.Ok() && Reads(c, u, JObject(members))
    requires At(c.s, st.pos, W.Print(u, JObject(members)))
    ensures ParseValue(c, st) ==
            St(st.pos + |W.Print(u, JObject(members))|, st.out + Events(JObject(members), ReaderNum), None)
    decreases members, 5
  {
    hide ObjectBody, W.Print, W.PrintMembers, Events, MemberEvents, At, SkipSpace, ParseNumber, ParseArray, ParseString;
    var t := W.PrintMembers(u, members, true);
    ObjectTexts(u, members);
    AtSplit(c.s, st.pos, [0x7B], t + [0x7D]);
    AtIndex(c.s, st.pos, [0x7B], 0);
    var st1 := Emit(c, st.AtPos(st.pos + 1), StartObject);
    ReadObjectBody(c, st1, u, members);
    var es := MemberEvents(members, ReaderNum) + [EndObject(SizeType(|members|))];
    assert st.out + [StartObject] + es == st.out + ([StartObject] + es);
  }

  lemma {:induction false} ReadObjectBody(c: Input, st: St, u: bool, members: seq<Member>)
    requires st.Ok() && Reads(c, u, JObject(members))
    requires At(c.s, st.pos, W.PrintMembers(u, members, true) + [0x7D])
    ensures SkipSpace(c.s, st.pos) == st.pos
    ensures ObjectBody(c, st) ==
            St(st.pos + |W.PrintMembers(u, members, true)| + 1,
               st.out + (MemberEvents(members, ReaderNum) + [EndObject(SizeType(|members|))]), None)
    decreases members, 4
  {
    hide ObjectLoop, W.PrintMembers, W.UnitTexts, MemberEvents;
    EmptyTexts(u);
    AtIndex(c.s, st.pos, W.PrintMembers(u, members, true) + [0x7D], 0);
    if members != [] {
      FirstMember(u, members);
      ReadMembers(c, st, u, members, 0);
    }
    NoSpace(c.s, st.pos);
  }

  lemma MemberParts(s: bytes, q: nat, n: bytes, t: bytes, rest: bytes)
    requires At(s, q, n + ([0x3A] + (t + rest))) && rest != []
    ensures At(s, q, n) && Peek(s, q + |n|) == 0x3A && At(s, q + |n| + 1, t)
    ensures At(s, q + |n| + 1 + |t|, rest) && Peek(s, q + |n| + 1 + |t|) == rest[0]
  {
    hide At;
    AtSplit(s, q, n, [0x3A] + (t + rest));
    AtSplit(s, q + |n|, [0x3A], t + rest);
    AtSplit(s, q + |n| + 1, t, rest);
    AtIndex(s, q + |n|, [0x3A], 0);
    AtIndex(s, q + |n| + 1 + |t|, rest, 0);
  }

  /** One member: its name, the colon and its value, with `rest` behind it. */
  lemma {:induction false} ReadMember(c: Input, st: St, u: bool, m: Member, rest: bytes, count: nat) returns (st2: St)
    requires st.Ok() && Reads(c, u, m.value) && Accepting(c) && W.Writable(u, m.name, 0)
    requires u && c.flags.validate ==> WellFormed8(m.name)
    requires At(c.s, st.pos, W.StringText(u, m.name) + ([0x3A] + (W.Print(u, m.value) + rest)))
    requires rest != [] && (rest[0] == 0x2C || rest[0] == 0x7D)
    ensures st2.out == st.out + ([Key(m.name)] + Events(m.value, ReaderNum)) && st2.Ok()
    ensures st2.pos == st.pos + |W.StringText(u, m.name)| + 1 + |W.Print(u, m.value)|
    ensures At(c.s, st2.pos, rest) && Peek(c.s, st2.pos) == rest[0]
    ensures ObjectLoop(c, st, count) == ObjectTail(c, st2, count)
    decreases m, 2
  {
    hide ParseValue, ParseString, ObjectTail, W.Print, W.StringText, W.Writable, WellFormed8, Events, Reads, At,
         SkipSpace, Accepting;
    ReadsExact(c, u, m.value);
    var n, t := W.StringText(u, m.name), W.Print(u, m.value);
    MemberParts(c.s, st.pos, n, t, rest);
    ReadString(c, st, u, m.name, true);
    NoSpace(c.s, st.pos + |n|);
    FirstByte(c.s, st.pos + |n| + 1, u, m.value);
    NoSpace(c.s, st.pos + |n| + 1);
    var st1 := St(st.pos + |n| + 1, st.out + [Key(m.name)], None);
    ReadValue(c, st1, u, m.value);
    st2 := St(st1.pos + |t|, st1.out + Events(m.value, ReaderNum), None);
    assert st1.out + Events(m.value, ReaderNum) == st.out + ([Key(m.name)] + Events(m.value, ReaderNum));
  }

  lemma {:induction false} NameFirst(s: bytes, q: nat, u: bool, members: seq<Member>)
    requires members != [] && At(s, q, W.PrintMembers(u, members, true) + [0x7D])
    ensures SkipSpace(s, q) == q && Peek(s, q) == 0x22
  {
    hide W.PrintMembers, W.UnitTexts, W.Print;
    FirstMember(u, members);
    AtIndex(s, q, W.PrintMembers(u, members, true) + [0x7D], 0);
  }

  /** The member loop on the text of the remaining members, `k` members after the start. */
  lemma {:induction false} ReadMembers(c: Input, st: St, u: bool, members: seq<Member>, k: nat)
    requires st.Ok() && Reads(c, u, JObject(members)) && members != []
    requires At(c.s, st.pos, W.PrintMembers(u, members, true) + [0x7D])
    ensures ObjectLoop(c, st, SizeType(k)) ==
            St(st.pos + |W.PrintMembers(u, members, true)| + 1,
               st.out + (MemberEvents(members, ReaderNum) + [EndObject(SizeType(k + |members|))]), None)
    decreases members, 3
  {
    hide ParseValue, ParseString, ObjectLoop, ObjectTail, W.PrintMembers, W.Print, W.StringText, W.Writable,
         MemberEvents, Events, Reads, At, SkipSpace, WellFormed8, SizeType;
    var m, rest := members[0], W.PrintMembers(u, members[1..], false);
    var es, fs := [Key(m.name)] + Events(m.value, ReaderNum), MemberEvents(members[1..], ReaderNum);
    ReadsMembers(c, u, members);
    FirstMember(u, members);
    EmptyTexts(u);
    if members[1..] != [] {
      FirstMember(u, members[1..]);
    }
    GroupMember(W.StringText(u, m.name), W.Print(u, m.value), rest);
    assert es + fs == [Key(m.name)] + (Events(m.value, ReaderNum) + fs);
    JoinEvents(st.out, es, fs, EndObject(SizeType(k + |members|)));
    var st1 := ReadMember(c, st, u, m, rest + [0x7D], SizeType(k));
    NoSpace(c.s, st1.pos);
    ObjectTurn(c, st1, k);
    if members[1..] != [] {
      ReadNextMembers(c, st1, u, members[1..], k + 1);
    } else {
      assert es + fs == es;
    }
  }

  /** From a comma on. */
  lemma {:induction false} ReadNextMembers(c: Input, st: St, u: bool, members: seq<Member>, k: nat)
    requires st.Ok() && Reads(c, u, JObject(members)) && members != []
    requires At(c.s, st.pos, W.PrintMembers(u, members, false) + [0x7D])
    ensures ObjectLoop(c, Skip(c, st.AtPos(st.pos + 1)), SizeType(k)) ==
            St(st.pos + |W.PrintMembers(u, members, false)| + 1,
               st.out + (MemberEvents(members, ReaderNum) + [EndObject(SizeType(k + |members|))]), None)
    decreases members, 4
  {
    hide ObjectLoop, W.PrintMembers, MemberEvents, Reads, At, SkipSpace, W.Print, W.StringText;
    FirstMember(u, members);
    var t := W.PrintMembers(u, members, true);
    assert W.PrintMembers(u, members, false) + [0x7D] == [0x2C] + (t + [0x7D]);
    AtSplit(c.s, st.pos, [0x2C], t + [0x7D]);
    NameFirst(c.s, st.pos + 1, u, members);
    ReadMembers(c, st.AtPos(st.pos + 1), u, members, k);
  }

  lemma GroupMember(name: bytes, value: bytes, rest: bytes)
    ensures name + ([0x3A] + (value + rest)) + [0x7D] == name + ([0x3A] + (value + (rest + [0x7D])))
  {
  }

  /**
   * Parsing the text of a tree, with either target of the writer, delivers the events of that tree, each
   * integer in the narrowest class. With an ASCII target the strings must be well-formed UTF-8, and they
   * come back byte for byte; with a UTF8 target any bytes do, NUL included, unless the reader validates.
   */
  lemma {:induction false} ParseUndoesPrint(c: Input, u: bool, v: Json)
    requires Reads(c, u, v) && c.s == W.Print(u, v)
    ensures Parse(c) == St(|c.s|, Events(v, ReaderNum), None)
  {
    hide ParseValue, W.Print, Events, Exact, W.Printable, Valid;
    assert At(c.s, 0, c.s);
    FirstByte(c.s, 0, u, v);
    NoSpace(c.s, 0);
    FirstNonNul(u, v);
    AtIndex(c.s, 0, c.s, 0);
    ReadValue(c, START, u, v);
    NoSpace(c.s, |c.s|);
    assert [] + Events(v, ReaderNum) == Events(v, ReaderNum);
  }

  lemma FirstNonNul(u: bool, v: Json)
    requires Exact(v)
    ensures W.Print(u, v) != [] && W.Print(u, v)[0] != 0
  {
    hide W.UnitTexts, W.PrintItems, W.PrintMembers;
  }

  predicate Ascii(t: bytes) {
    forall i :: 0 <= i < |t| ==> t[i] < 0x80
  }

  lemma UnitAscii(b: byte, cp: nat)
    ensures b < 0x80 ==> Ascii(W.UnitText(b))
    ensures Scalar(cp) ==> Ascii(W.CodePointText(cp))
  {
  }

  /** With an ASCII target every printed byte is below 0x80. */
  lemma {:induction false} AsciiText(s: bytes, p: nat)
    ensures Ascii(W.UnitTexts(false, s, p))
    decreases Left(s, p)
  {
    hide Decode8, W.UnitText, W.CodePointText;
    if p < |s| {
      if s[p] < 0x80 {
        UnitAscii(s[p], 0);
        AsciiText(s, p + 1);
      } else if Decode8(s, p).ok {
        DecodeIsShortest(s, p);
        UnitAscii(0, Decode8(s, p).cp);
        AsciiText(s, Decode8(s, p).pos);
      }
    }
  }

  /** The whole path of one string through an ASCII target and back: below 0x80 on the wire, identical after. */
  lemma {:induction false} AsciiRoundTrip(c: Input, st: St, x: bytes)
    requires WellFormed8(x) && st.Ok() && Accepting(c) && At(c.s, st.pos, W.StringText(false, x))
    ensures Ascii(W.StringText(false, x))
    ensures ParseString(c, st, false) == St(st.pos + |W.StringText(false, x)|, st.out + [String(x)], None)
  {
    hide W.UnitTexts, W.Writable, ParseString;
    AsciiText(x, 0);
    W.WritableIs(false, x, 0);
    assert x[0..] == x;
    ReadString(c, st, false, x, false);
  }
}
