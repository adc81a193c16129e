/** Strings, numbers and whitespace: what the reader takes is what the grammar has, in both directions. */
module GrammarTokens {
  import opened Bytes
  import opened Json
  import opened Encodings
  import opened ReaderSpec
  import opened Grammar

  lemma {:induction false} SkipIs(s: bytes, i: nat, j: nat)
    requires Spaces(s, i, j) && !IsSpace(Peek(s, j))
    ensures SkipSpace(s, i) == j
    decreases j - i
  {
    if i < j {
      SkipIs(s, i + 1, j);
    }
  }

  lemma {:induction false} SkippedSpaces(s: bytes, i: nat)
    requires i <= |s|
    ensures Spaces(s, i, SkipSpace(s, i))
    decreases |s| - i
  {
    if IsSpace(Peek(s, i)) {
      SkippedSpaces(s, i + 1);
    }
  }

  // Strings

  /** ParseHex4 takes the four digits of the grammar, or fails. */
  lemma {:induction false} HexIs(s: bytes, i: nat)
    requires Peek(s, i) == 0x5C && Peek(s, i + 1) == 0x75
    ensures var h, e := ParseHex4(s, i + 2), HexEscape(s, i);
            (h.ok <==> e.Some?) && (h.ok ==> h == Hex(e.value, i + 6, true))
  {
    HexFour(s, i + 2);
    HexNotEnd(s, i + 5);
    hide ParseHex4, HexValue, Power16;
  }

  lemma HexNotEnd(s: bytes, p: nat)
    ensures HexValue(Peek(s, p)).Some? ==> p < |s|
  {
  }

  /** One char of the grammar is one turn of the loop over a string, unless it is a lead surrogate alone. */
  lemma {:induction false} ReadChar(c: Input, i: nat, k: nat, text: bytes)
    requires i < k <= |c.s| && CharText(c, i, k).Some? && !LoneLead(c.s, i)
    ensures ScanString(c, i, text, None) == ScanString(c, k, text + CharText(c, i, k).value, None)
  {
    hide Validate8, CharLength, Encode8, LoneLead;
    if c.s[i] == 0x5C {
      ReadEscape(c, i, k, text);
    } else if c.flags.validate {
      ValidateIsGrammar(c.s, i);
      CopyRangeInside(c.s, i, k);
    } else {
      assert c.s[i..i + 1] == [c.s[i]];
    }
  }

  lemma {:induction false} ReadEscape(c: Input, i: nat, k: nat, text: bytes)
    requires i < k <= |c.s| && c.s[i] == 0x5C && EscapeText(c.s, i, k).Some? && !LoneLead(c.s, i)
    ensures ScanString(c, i, text, None) == ScanString(c, k, text + EscapeText(c.s, i, k).value, None)
  {
    hide Encode8, ParseHex4, HexEscape, Validate8;
    assert ScanString(c, i, text, None) == ScanEscape(c, i, text, None);
    if k != i + 2 || Escape(c.s[i + 1]) == 0 {
      HexUnits(c.s, i);
      HexIs(c.s, i);
      if IsLead(HexEscape(c.s, i).value) {
        HexUnits(c.s, i + 6);
        HexIs(c.s, i + 6);
      }
    }
  }

  lemma HexUnits(s: bytes, i: nat)
    requires HexEscape(s, i).Some?
    ensures Peek(s, i) == 0x5C && Peek(s, i + 1) == 0x75
  {
  }

  /** One turn of the loop that neither ends the string nor fails has taken one char of the grammar. */
  lemma {:induction false} TakenChar(c: Input, i: nat, text: bytes) returns (k: nat)
    requires i < |c.s| && c.s[i] != 0x22 && ScanString(c, i, text, None).err.None?
    ensures i < k <= |c.s| && CharText(c, i, k).Some? && !LoneLead(c.s, i)
  {
    hide Validate8, CharLength, Encode8, LoneLead;
    if c.s[i] == 0x5C {
      k := TakenEscape(c, i, text);
      return;
    }
    PlainIsNoLead(c.s, i);
    if c.flags.validate {
      ValidateIsGrammar(c.s, i);
      k := Validate8(c.s, i).1;
    } else {
      k := i + 1;
    }
  }

  lemma {:induction false} TakenEscape(c: Input, i: nat, text: bytes) returns (k: nat)
    requires i < |c.s| && c.s[i] == 0x5C && ScanString(c, i, text, None).err.None?
    ensures i < k <= |c.s| && EscapeText(c.s, i, k).Some? && !LoneLead(c.s, i)
  {
    hide Encode8, ParseHex4, HexEscape, Validate8;
    assert ScanString(c, i, text, None) == ScanEscape(c, i, text, None);
    if Escape(Peek(c.s, i + 1)) != 0 {
      PlainIsNoLead(c.s, i);
      k := i + 2;
    } else {
      HexIs(c.s, i);
      var h := ParseHex4(c.s, i + 2);
      if IsLead(h.value) {
        HexIs(c.s, h.pos);
        k := i + 12;
      } else {
        k := i + 6;
      }
    }
  }

  lemma PlainIsNoLead(s: bytes, i: nat)
    requires Peek(s, i) != 0x5C || Peek(s, i + 1) != 0x75
    ensures !LoneLead(s, i)
  {
  }

  /** No exception begins inside a string between `i` and `k`. */
  ghost predicate StringPasses(s: bytes, i: nat, k: nat) {
    forall e: nat :: k <= e ==> (StringHasException(s, i, e) <==> StringHasException(s, k, e))
  }

  lemma {:induction false} PlainPasses(s: bytes, i: nat, k: nat)
    requires i <= k <= |s| && forall m :: i <= m < k ==> s[m] != 0x22 && s[m] != 0x5C
    ensures StringPasses(s, i, k)
    decreases k - i
  {
    if i < k {
      PlainPasses(s, i + 1, k);
      hide HasException, LoneLead;
    }
  }

  lemma EscapePasses(s: bytes, i: nat)
    requires i + 2 <= |s| && s[i] == 0x5C && !LoneLead(s, i)
    ensures StringPasses(s, i, i + 2)
  {
    hide HasException, LoneLead;
  }

  lemma {:induction false} HexPasses(s: bytes, i: nat)
    requires HexEscape(s, i).Some? && !LoneLead(s, i)
    ensures StringPasses(s, i, i + 6)
  {
    hide HasException, LoneLead, StringHasException;
    EscapePasses(s, i);
    PlainPasses(s, i + 2, i + 6);
  }

  lemma TailBytes(t: bytes)
    ensures forall m :: 0 < m < CharLength(t) ==> t[m] >= 0x80
  {
  }

  /** A char of the grammar that is no lead surrogate alone holds no exception. */
  lemma {:induction false} CharPasses(c: Input, i: nat, k: nat)
    requires i < k <= |c.s| && CharText(c, i, k).Some? && !LoneLead(c.s, i)
    ensures StringPasses(c.s, i, k)
  {
    hide HasException, StringHasException, CharLength, Encode8, HexEscape;
    if c.s[i] != 0x5C {
      TailBytes(c.s[i..]);
      assert c.flags.validate ==> forall m :: i < m < k ==> c.s[m] == c.s[i..][m - i];
      PlainPasses(c.s, i, k);
    } else if k == i + 2 {
      EscapePasses(c.s, i);
    } else {
      HexPasses(c.s, i);
      if k == i + 12 {
        HexPasses(c.s, i + 6);
      }
    }
  }

  lemma {:induction false} ReadChars(c: Input, i: nat, j: nat, x: bytes, text: bytes, e: nat)
    requires i <= j < |c.s| && Chars(c, i, j, x) && c.s[j] == 0x22
    requires j < e && !StringHasException(c.s, i, e)
    ensures ScanString(c, i, text, None) == Scan(j + 1, text + x, None)
    decreases j - i
  {
    hide CharText, HasException, LoneLead;
    if i == j {
      assert text + [] == text;
    } else {
      var k: nat :| i < k <= j && CharText(c, i, k).Some? && ThenChars(c, k, j, CharText(c, i, k).value, x);
      var t := CharText(c, i, k).value;
      CharStarts(c, i, k);
      hide ScanString, StringHasException;
      ReadChar(c, i, k, text);
      CharPasses(c, i, k);
      ReadChars(c, k, j, x[|t|..], text + t, e);
      assert text + t + x[|t|..] == text + x;
    }
  }

  lemma CharStarts(c: Input, i: nat, k: nat)
    requires i < k <= |c.s| && CharText(c, i, k).Some?
    ensures c.s[i] != 0x22 && (c.s[i] != 0x5C ==> !LoneLead(c.s, i))
  {
    hide EscapeText, CharLength;
  }

  lemma {:induction false} TakenChars(c: Input, i: nat, text: bytes) returns (x: bytes)
    requires i <= |c.s| && ScanString(c, i, text, None).err.None?
    ensures var r := ScanString(c, i, text, None);
            && i < r.pos <= |c.s| && c.s[r.pos - 1] == 0x22 && r.text == text + x && Chars(c, i, r.pos - 1, x)
            && StringPasses(c.s, i, r.pos - 1)
    decreases |c.s| - i
  {
    hide CharText, ThenChars, Chars, ScanString, StringPasses, LoneLead;
    var r := ScanString(c, i, text, None);
    TurnIs(c, i, text);
    if Peek(c.s, i) == 0x22 {
      x := [];
      assert text + [] == text;
    } else {
      var k := TakenChar(c, i, text);
      var t := CharText(c, i, k).value;
      ReadChar(c, i, k, text);
      CharPasses(c, i, k);
      var rest := TakenChars(c, k, text + t);
      x := t + rest;
      assert text + t + rest == text + x;
      ThenIs(c, k, r.pos - 1, t, rest);
      CharsAre(c, i, k, r.pos - 1, x);
      StringPassesThen(c.s, i, k, r.pos - 1);
    }
  }

  /** The loop ends at the quotation mark, and fails at the end of the text. */
  lemma TurnIs(c: Input, i: nat, text: bytes)
    ensures Peek(c.s, i) == 0x22 ==>
              ScanString(c, i, text, None) == Scan(i + 1, text, None) && Chars(c, i, i, []) && StringPasses(c.s, i, i)
    ensures i >= |c.s| ==> ScanString(c, i, text, None).err.Some?
  {
    hide StringHasException, CharText;
  }

  lemma CharsAre(c: Input, i: nat, k: nat, j: nat, x: bytes)
    requires i < k <= j <= |c.s| && CharText(c, i, k).Some? && ThenChars(c, k, j, CharText(c, i, k).value, x)
    ensures Chars(c, i, j, x)
  {
    hide CharText, ThenChars;
  }

  lemma StringPassesThen(s: bytes, i: nat, j: nat, k: nat)
    requires StringPasses(s, i, j) && StringPasses(s, j, k) && j <= k
    ensures StringPasses(s, i, k)
  {
    hide StringHasException;
  }

  lemma ThenIs(c: Input, k: nat, j: nat, t: bytes, rest: bytes)
    requires k <= j <= |c.s| && Chars(c, k, j, rest)
    ensures ThenChars(c, k, j, t, t + rest)
  {
    hide Chars;
    assert (t + rest)[|t|..] == rest;
  }

  /** No exception begins between `i` and `j`, both outside of strings. */
  ghost predicate Passes(s: bytes, i: nat, j: nat) {
    i <= j && forall e: nat :: j <= e ==> (HasException(s, i, e) <==> HasException(s, j, e))
  }

  lemma PassesThen(s: bytes, i: nat, j: nat, k: nat)
    requires Passes(s, i, j) && Passes(s, j, k)
    ensures Passes(s, i, k)
  {
    hide HasException;
  }

  /** A string of the grammar without exceptions is read as the bytes that it stands for. */
  lemma {:induction false} ReadStr(c: Input, i: nat, j: nat, x: bytes, e: nat)
    requires Str(c, i, j, x) && j <= e && !HasException(c.s, i, e)
    ensures ScanString(c, i + 1, [], None) == Scan(j, x, None)
  {
    hide Chars, ScanString, StringHasException;
    ReadChars(c, i + 1, j - 1, x, [], e);
    assert [] + x == x;
  }

  /** What is read as a string is a string of the grammar without exceptions. */
  lemma {:induction false} TakenStr(c: Input, i: nat)
    requires i < |c.s| && c.s[i] == 0x22 && ScanString(c, i + 1, [], None).err.None?
    ensures var r := ScanString(c, i + 1, [], None);
            Str(c, i, r.pos, r.text) && Passes(c.s, i, r.pos)
  {
    hide Chars, ScanString, StringHasException, HasException;
    var x := TakenChars(c, i + 1, []);
    assert [] + x == x;
    QuotesPass(c.s, i, ScanString(c, i + 1, [], None).pos);
  }

  lemma QuotesPass(s: bytes, i: nat, j: nat)
    requires i + 2 <= j <= |s| && s[i] == 0x22 && s[j - 1] == 0x22 && StringPasses(s, i + 1, j - 1)
    ensures Passes(s, i, j)
  {
    forall e: nat | j <= e
      ensures HasException(s, i, e) <==> HasException(s, j, e)
    {
      hide LoneLead, TooLarge, NumberEnd;
      assert StringHasException(s, i + 1, e) <==> StringHasException(s, j - 1, e);
    }
  }

  // Numbers

  lemma {:induction false} DigitsEndAt(s: bytes, p: nat, q: nat)
    requires Digits(s, p, q) && !IsDigit(Peek(s, q))
    ensures DigitsEnd(s, p) == q
  {
    DigitsEndIs(s, p, s[p..q]);
  }

  lemma {:induction false} ReadInt(s: bytes, p: nat, q: nat)
    requires IntPart(s, p, q) && !IsDigit(Peek(s, q))
    ensures IntegerEnd(s, p) == q
  {
    hide DigitsEnd;
    DigitsEndAt(s, p, q);
  }

  lemma {:induction false} TakenInt(s: bytes, p: nat)
    requires p <= |s| && IntegerEnd(s, p) != p
    ensures IntPart(s, p, IntegerEnd(s, p))
  {
    hide DigitsEnd;
  }

  lemma ValueNext(s: bytes, p: nat, k: nat)
    requires p <= k < |s| && AllDigits(s[p..k]) && IsDigit(s[k])
    ensures AllDigits(s[p..k + 1]) && Value(s[p..k + 1]) == Value(s[p..k]) * 10 + (s[k] - 0x30)
  {
    var t := s[p..k + 1];
    assert t[..|t| - 1] == s[p..k];
  }

  lemma ValueGrows(s: bytes, p: nat, k: nat, q: nat)
    requires p <= k <= q <= |s| && AllDigits(s[p..q])
    ensures AllDigits(s[p..k]) && Value(s[p..k]) <= Value(s[p..q])
  {
    hide Value;
    assert s[p..q][..k - p] == s[p..k];
    ValueMonotone(s[p..q], k - p);
  }

  /** The digits of a large number are all taken exactly when those before the last stay below the limit. */
  lemma {:induction false} BigDigitsIs(s: bytes, p: nat, k: nat, q: nat)
    requires Digits(s, p, q) && !IsDigit(Peek(s, q)) && p <= k <= q && AllDigits(s[p..k])
    ensures AllDigits(s[p..q - 1])
    ensures BigDigits(s, k, Value(s[p..k])).1 <==> k == q || Value(s[p..q - 1]) < DoubleLimit()
    decreases q - k
  {
    hide DoubleLimit, Value;
    ValueGrows(s, p, q - 1, q);
    if k < q {
      assert IsDigit(s[p..q][k - p]);
      ValueGrows(s, p, k, q - 1);
      ValueNext(s, p, k);
      BigDigitsIs(s, p, k + 1, q);
    }
  }

  /** The digits of an exponent: all of them are taken unless a positive value passes 308. */
  lemma {:induction false} ExponentIs(s: bytes, p: nat, k: nat, q: nat, minus: bool)
    requires Digits(s, p, q) && !IsDigit(Peek(s, q)) && p <= k <= q && AllDigits(s[p..k])
    requires minus || Value(s[p..k]) <= 308
    ensures var r := ExponentDigits(s, k, Value(s[p..k]), minus);
            (r.1 <==> minus || Value(s[p..q]) <= 308) && (r.1 ==> r.0 == q)
    decreases q - k
  {
    hide Value;
    if k < q {
      assert IsDigit(s[p..q][k - p]);
      ValueNext(s, p, k);
      ValueGrows(s, p, k + 1, q);
      if minus || Value(s[p..k + 1]) <= 308 {
        ExponentIs(s, p, k + 1, q, minus);
      }
    }
  }

  lemma DigitAt(s: bytes, p: nat, q: nat)
    requires Digits(s, p, q)
    ensures IsDigit(s[p])
  {
    assert s[p..q][0] == s[p];
  }

  lemma {:induction false} FirstDigit(s: bytes, p: nat)
    requires p < |s| && IsDigit(s[p])
    ensures AllDigits(s[p..p + 1]) && Value(s[p..p + 1]) == s[p] - 0x30
  {
    assert s[p..p] == [];
    ValueNext(s, p, p);
  }

  lemma RunStarts(s: bytes, p: nat)
    requires p < |s| && IsDigit(s[p])
    ensures Digits(s, p, DigitsEnd(s, p))
  {
  }

  /** An exponent is taken, to its end, exactly when it is one of the grammar and not too large. */
  lemma {:induction false} ExponentTaken(c: Input, st: St, f: nat)
    requires st.Ok() && st.pos < f <= |c.s|
    ensures var j := ExpEnd(c.s, f);
            if ExpPart(c.s, f, j) && !LargeExponent(c.s, f) then ParseExponent(c, st, f) == EmitDouble(c, st, j)
            else !ParseExponent(c, st, f).Ok()
  {
    hide EmitDouble, ExponentDigits, DigitsEnd, Value, AllDigits;
    if Peek(c.s, f) == 0x65 || Peek(c.s, f) == 0x45 {
      var p := ExponentStart(c.s, f);
      if IsDigit(Peek(c.s, p)) {
        RunStarts(c.s, p);
        FirstDigit(c.s, p);
        ExponentIs(c.s, p, p + 1, DigitsEnd(c.s, p), Peek(c.s, f + 1) == 0x2D);
      } else {
        NoDigits(c.s, p);
      }
    }
  }

  lemma NoDigits(s: bytes, p: nat)
    requires !IsDigit(Peek(s, p))
    ensures DigitsEnd(s, p) == p
  {
  }

  /** The same for a fraction and what follows it. */
  lemma {:induction false} FractionTaken(c: Input, st: St, q: nat)
    requires st.Ok() && st.pos < q <= |c.s|
    ensures var f := FracEnd(c.s, q);
            var j := ExpEnd(c.s, f);
            if FracPart(c.s, q, f) && ExpPart(c.s, f, j) && !LargeExponent(c.s, f) then
              ParseFraction(c, st, q) == EmitDouble(c, st, j)
            else !ParseFraction(c, st, q).Ok()
  {
    hide ParseExponent, EmitDouble, DigitsEnd, ExpEnd, ExpPart, LargeExponent;
    if Peek(c.s, q) == 0x2E {
      if IsDigit(Peek(c.s, q + 1)) {
        RunStarts(c.s, q + 1);
      } else {
        NoDigits(c.s, q + 1);
      }
    }
    ExponentTaken(c, st, FracEnd(c.s, q));
  }

  /** The digits of a large integer part, read as a double. */
  lemma {:induction false} LargeIs(s: bytes, p: nat, q: nat)
    requires Digits(s, p, q) && !IsDigit(Peek(s, q))
    ensures BigDigits(s, p, 0).1 <==> Bounded(s, p, q)
  {
    hide BigDigits, DoubleLimit;
    assert s[p..p] == [] && Value([]) == 0;
    BigDigitsIs(s, p, p, q);
  }

  lemma LargeHasDigits(s: bytes, p: nat, q: nat, minus: bool)
    requires IntPart(s, p, q) && Value(s[p..q]) > Magnitude(minus)
    ensures s[p] != 0x30
  {
    if s[p] == 0x30 {
      FirstDigit(s, p);
    }
  }

  /** What fits 64 bits is far below the limit. */
  lemma {:induction false} SmallIsBounded(s: bytes, p: nat, q: nat, minus: bool)
    requires Digits(s, p, q) && Value(s[p..q]) <= Magnitude(minus)
    ensures Bounded(s, p, q)
  {
    hide Value, Power10;
    ValueGrows(s, p, q - 1, q);
    LimitIsLarge();
  }

  /** `v` is what the event `e` of a number reports. */
  predicate Reports(e: Event, v: Json) {
    Ranged(v) && Countable(v) && Events(v, PlainNum) == [Plain(e)]
  }

  /** The longest run from `i` on has the parts of a number, and is not too large. */
  predicate WholeNumber(s: bytes, i: nat) {
    var q := IntegerEnd(s, AfterMinus(s, i));
    var f := FracEnd(s, q);
    IntPart(s, AfterMinus(s, i), q) && FracPart(s, q, f) && ExpPart(s, f, ExpEnd(s, f)) && !TooLarge(s, i)
  }

  /** A number is read exactly when the longest run is one: to its end, and with its value. */
  lemma {:induction false} NumberTaken(c: Input, st: St) returns (e: Event, v: Json)
    requires st.Ok() && st.pos <= |c.s|
    ensures var q, j := IntegerEnd(c.s, AfterMinus(c.s, st.pos)), NumberEnd(c.s, st.pos);
            if WholeNumber(c.s, st.pos) then
              ParseNumber(c, st) == Emit(c, st.AtPos(j), e) && Reports(e, v) && NumberIs(c.s, st.pos, q, j, v)
            else !ParseNumber(c, st).Ok()
  {
    hide BigDigits, DigitsEnd, Value, AllDigits, IntegerEnd, ParseFraction, FracPart, ExpPart, Bounded, Emit,
         LargeExponent, FracEnd, ExpEnd;
    var p, minus := AfterMinus(c.s, st.pos), Peek(c.s, st.pos) == 0x2D;
    var q := IntegerEnd(c.s, p);
    e, v := Null, JNull;
    if q == p {
      return;
    }
    TakenInt(c.s, p);
    FractionTaken(c, st, q);
    var j := NumberEnd(c.s, st.pos);
    var n: int := Value(c.s[p..q]);
    if n > Magnitude(minus) {
      LargeHasDigits(c.s, p, q, minus);
      IntegerIsRun(c.s, p);
      LargeIs(c.s, p, q);
    } else {
      SmallIsBounded(c.s, p, q, minus);
    }
    if Peek(c.s, q) == 0x2E || Peek(c.s, q) == 0x65 || Peek(c.s, q) == 0x45 || n > Magnitude(minus) {
      CopyRangeInside(c.s, st.pos, j);
      e, v := Double(c.s[st.pos..j]), JDouble(c.s[st.pos..j]);
      PartsGrow(c.s, q);
    } else {
      e, v := NumberEvent(minus, n), JInt(if minus then -n else n);
      NoParts(c.s, q);
    }
  }

  /** A fraction or an exponent that is a part of the grammar is not empty. */
  lemma PartsGrow(s: bytes, q: nat)
    ensures Peek(s, q) == 0x2E || Peek(s, q) == 0x65 || Peek(s, q) == 0x45 ==> FracEnd(s, q) > q || ExpEnd(s, q) > q
    ensures q <= FracEnd(s, q) <= ExpEnd(s, FracEnd(s, q))
    ensures Peek(s, q) != 0x2E ==> FracEnd(s, q) == q
  {
  }

  lemma NoParts(s: bytes, q: nat)
    requires Peek(s, q) != 0x2E && Peek(s, q) != 0x65 && Peek(s, q) != 0x45
    ensures FracEnd(s, q) == q == ExpEnd(s, q) && FracPart(s, q, q) && ExpPart(s, q, q) && !LargeExponent(s, q)
  {
  }

  lemma IntegerIsRun(s: bytes, p: nat)
    requires Peek(s, p) != 0x30
    ensures !IsDigit(Peek(s, IntegerEnd(s, p)))
  {
  }

  lemma {:induction false} RunCovers(s: bytes, p: nat, q: nat)
    requires p <= q <= |s| && AllDigits(s[p..q])
    ensures q <= DigitsEnd(s, p) && (q < DigitsEnd(s, p) ==> IsDigit(Peek(s, q)))
    decreases q - p
  {
    if p < q {
      assert IsDigit(s[p..q][0]);
      assert s[p + 1..q] == s[p..q][1..];
      RunCovers(s, p + 1, q);
    }
  }

  /** The parts of a number that goes as far as the text allows are the longest that there are. */
  lemma {:induction false} PartsAre(s: bytes, i: nat, q: nat, f: nat)
    requires IntPart(s, AfterMinus(s, i), q) && FracPart(s, q, f) && ExpPart(s, f, NumberEnd(s, i))
    ensures q == IntegerEnd(s, AfterMinus(s, i)) && f == FracEnd(s, q)
  {
    hide DigitsEnd, AllDigits, Value;
    RunCovers(s, AfterMinus(s, i), q);
    if q < f {
      RunCovers(s, q + 1, f);
    }
  }

  /** A number of the grammar is read to its end, and reported with its value. */
  lemma {:induction false} ReadNumber(c: Input, st: St, j: nat, v: Json) returns (e: Event)
    requires st.Ok() && st.pos <= |c.s| && Number(c.s, st.pos, j, v)
    requires j == NumberEnd(c.s, st.pos) && !TooLarge(c.s, st.pos)
    ensures ParseNumber(c, st) == Emit(c, st.AtPos(j), e) && Reports(e, v)
  {
    hide ParseNumber, IntegerEnd, FracPart, ExpPart, FracEnd, ExpEnd, TooLarge, Emit, Reports, AllDigits, Value;
    var p := AfterMinus(c.s, st.pos);
    var q: nat, f: nat :|
      IntPart(c.s, p, q) && FracPart(c.s, q, f) && ExpPart(c.s, f, j) && NumberIs(c.s, st.pos, q, j, v);
    PartsAre(c.s, st.pos, q, f);
    var w;
    e, w := NumberTaken(c, st);
  }

  /** What is read as a number is one of the grammar without exceptions, as long as the text allows. */
  lemma {:induction false} TakenNumber(c: Input, st: St) returns (e: Event, v: Json)
    requires st.Ok() && st.pos <= |c.s| && ParseNumber(c, st).Ok()
    ensures var r := ParseNumber(c, st);
            && Number(c.s, st.pos, r.pos, v) && r == Emit(c, st.AtPos(r.pos), e) && Reports(e, v)
            && r.pos == NumberEnd(c.s, st.pos) && !TooLarge(c.s, st.pos)
  {
    hide ParseNumber, IntegerEnd, FracPart, ExpPart, FracEnd, ExpEnd, TooLarge, Reports, AllDigits, Value;
    e, v := NumberTaken(c, st);
  }

  /** Where nothing behind a number can be taken for more of it, the number is as long as the text allows. */
  lemma {:induction false} DelimitedIsLongest(s: bytes, i: nat, j: nat, v: Json)
    requires Number(s, i, j, v) && Delimited(s, j)
    ensures j == NumberEnd(s, i)
  {
    hide AllDigits, Value, DigitsEnd, IntegerEnd;
    var p := AfterMinus(s, i);
    var q: nat, f: nat :| IntPart(s, p, q) && FracPart(s, q, f) && ExpPart(s, f, j) && NumberIs(s, i, q, j, v);
    if f != j {
      DigitsEndAt(s, ExponentStart(s, f), j);
    }
    if q != f {
      DigitsEndAt(s, q + 1, f);
    }
    ReadInt(s, p, q);
  }

  /** A number that is not too large holds no exception. */
  lemma {:induction false} NumberPasses(s: bytes, i: nat)
    requires i < |s| && (s[i] == 0x2D || IsDigit(s[i])) && !TooLarge(s, i)
    ensures Passes(s, i, NumberEnd(s, i))
  {
    hide TooLarge, NumberEnd;
  }

  lemma {:induction false} NumberStarts(s: bytes, i: nat, j: nat, v: Json)
    requires Number(s, i, j, v)
    ensures i < |s| && (s[i] == 0x2D || IsDigit(s[i]))
  {
    hide FracPart, ExpPart, NumberIs;
    var q: nat, f: nat :|
      IntPart(s, AfterMinus(s, i), q) && FracPart(s, q, f) && ExpPart(s, f, j) && NumberIs(s, i, q, j, v);
    DigitAt(s, AfterMinus(s, i), q);
  }

  // Between strings and numbers

  lemma {:induction false} OthersPass(s: bytes, i: nat, j: nat)
    requires i <= j <= |s|
    requires forall k :: i <= k < j ==> s[k] != 0 && s[k] != 0x22 && s[k] != 0x2D && !IsDigit(s[k])
    ensures Passes(s, i, j)
    decreases j - i
  {
    if i < j {
      OthersPass(s, i + 1, j);
      hide StringHasException, TooLarge, NumberEnd;
    }
  }

  predicate Structural(ch: byte) {
    ch == 0x2C || ch == 0x3A || ch == 0x5B || ch == 0x5D || ch == 0x7B || ch == 0x7D
  }

  /** A structural character and the whitespace around it hold no exception. */
  lemma {:induction false} TokenPasses(s: bytes, i: nat, k: nat, j: nat)
    requires Spaces(s, i, k) && k < |s| && Structural(s[k]) && Spaces(s, k + 1, j)
    ensures Passes(s, i, j) && Passes(s, i, k + 1) && Passes(s, k, j)
  {
    OthersPass(s, i, j);
    OthersPass(s, i, k + 1);
    OthersPass(s, k, j);
  }

  lemma {:induction false} LiteralPasses(s: bytes, i: nat, t: bytes)
    requires At(s, i, t) && forall k :: 0 <= k < |t| ==> 0x61 <= t[k] <= 0x7A
    ensures Passes(s, i, i + |t|)
  {
    assert forall k :: i <= k < i + |t| ==> s[k] == t[k - i];
    OthersPass(s, i, i + |t|);
  }
}
