/** GenericReader as it runs: a cursor, an event log, an error slot and a stack, changed in place. */
module Reader {
  import opened Bytes
  import opened Json
  import opened Encodings
  import Iter = IterativeSpec
  import opened ReaderSpec

  newtype uint32 = x: int | 0 <= x < 0x1_0000_0000
  newtype uint64 = x: int | 0 <= x < 0x1_0000_0000_0000_0000

  /** `-(int)u`: the cast reinterprets the bits, the negation wraps at the minimum. */
  function NegateInt(u: uint32): int {
    if u as int > TWO_TO_THE_31 then TWO_TO_THE_32 - u as int
    else if u as int == TWO_TO_THE_31 then -TWO_TO_THE_31
    else -(u as int)
  }

  /** `-(int64_t)u`. */
  function NegateInt64(u: uint64): int {
    if u as int > TWO_TO_THE_63 then TWO_TO_THE_64 - u as int
    else if u as int == TWO_TO_THE_63 then -TWO_TO_THE_63
    else -(u as int)
  }

  /** One cell of the reader's stack of SizeType. */
  datatype Cell = Saved(state: Iter.PState) | Count(n: nat)

  /** The flat stack, bottom first: two cells for each open container. */
  function Cells(f: Iter.Frames): seq<Cell> {
    if f.NoFrames? then [] else Cells(f.below) + [Saved(f.saved), Count(f.count)]
  }

  lemma PushCells(f: Iter.Frames, n: Iter.PState)
    ensures Cells(f) + [Saved(n)] + [Count(0)] == Cells(Iter.Frame(n, 0, f))
  {
  }

  /** The digits of a number taken so far: their value, and where the run of digits will end. */
  ghost predicate Digits(s: bytes, p: nat, q: nat, n: int) {
    p < q && q <= |s| && AllDigits(s[p..q]) && n == Value(s[p..q]) && DigitsEnd(s, q) == DigitsEnd(s, p)
  }

  lemma DigitsFirst(s: bytes, p: nat)
    requires IsDigit(Peek(s, p))
    ensures Digits(s, p, p + 1, Peek(s, p) - 0x30)
  {
    assert s[p..p + 1] == [s[p]];
    assert Value([s[p]]) == Value([s[p]][..0]) * 10 + (s[p] - 0x30);
  }

  lemma DigitsNext(s: bytes, p: nat, q: nat, n: int)
    requires Digits(s, p, q, n) && IsDigit(Peek(s, q))
    ensures Digits(s, p, q + 1, n * 10 + (Peek(s, q) - 0x30))
  {
    assert s[p..q + 1] == s[p..q] + [s[q]];
    assert s[p..q + 1][..q - p] == s[p..q];
  }

  /** Once the next digit would exceed a limit, so does the whole number. */
  lemma DigitsExceed(s: bytes, p: nat, q: nat, n: int, limit: int)
    requires Digits(s, p, q, n) && IsDigit(Peek(s, q)) && n * 10 + (Peek(s, q) - 0x30) > limit
    ensures var e := DigitsEnd(s, p); e <= |s| && AllDigits(s[p..e]) && Value(s[p..e]) > limit
  {
    DigitsNext(s, p, q, n);
    var e := DigitsEnd(s, p);
    assert DigitsEnd(s, q + 1) == e;
    assert s[p..e][..q + 1 - p] == s[p..q + 1];
    ValueMonotone(s[p..e], q + 1 - p);
  }

  lemma DigitsLast(s: bytes, p: nat, q: nat, n: int)
    requires Digits(s, p, q, n) && q > p + 1
    ensures AllDigits(s[p..q - 1])
    ensures Digits(s, p, q - 1, Value(s[p..q - 1])) && IsDigit(Peek(s, q - 1))
    ensures n == Value(s[p..q - 1]) * 10 + (Peek(s, q - 1) - 0x30)
  {
    var t := s[p..q];
    assert t[..|t| - 1] == s[p..q - 1];
    assert t[|t| - 1] == s[q - 1];
    assert forall i :: 0 <= i < q - 1 - p ==> s[p..q - 1][i] == t[i];
  }

  /** Below 2^64 the double accumulator never meets its limit. */
  lemma {:induction false} BigDigitsSkip(s: bytes, p: nat, q: nat, n: int)
    requires Digits(s, p, q, n) && n < TWO_TO_THE_64
    ensures BigDigits(s, p, 0) == BigDigits(s, q, n)
    decreases q
  {
    hide DigitsEnd, Value, DoubleLimit;
    LimitIsLarge();
    if q == p + 1 {
      DigitsFirst(s, p);
    } else {
      DigitsLast(s, p, q, n);
      BigDigitsSkip(s, p, q - 1, Value(s[p..q - 1]));
    }
  }

  /** With `i` digits taken and `code` their value, `h` is what ParseHex4 will have read. */
  predicate HexAhead(s: bytes, p: nat, i: nat, code: nat, h: Hex) {
    i <= 4 && code < Power16(i) && ParseHex4(s, p, 4 - i, code) == h
  }

  lemma HexStarts(s: bytes, p: nat)
    ensures HexAhead(s, p, 0, 0, ParseHex4(s, p))
  {
  }

  lemma {:induction false} HexNext(s: bytes, p: nat, i: nat, code: nat, h: Hex)
    requires HexAhead(s, p, i, code, h) && i < 4
    ensures var d := HexValue(Peek(s, p));
            if d.Some? then HexAhead(s, p + 1, i + 1, code * 16 + d.value, h) else h == Hex(0, p + 1, false)
  {
    hide HexValue, ParseHex4, Power16;
    HexStep(s, p, 4 - i, code);
  }

  lemma HexEnds(s: bytes, p: nat, code: nat, h: Hex)
    requires HexAhead(s, p, 4, code, h)
    ensures h == Hex(code, p, true)
  {
  }

  lemma MatchStep(s: bytes, p: nat, rest: bytes, i: nat)
    requires i < |rest|
    ensures TakeMatch(s, p, rest[i..]) ==
            if Peek(s, p) == rest[i] then TakeMatch(s, p + 1, rest[i + 1..]) else (false, p + 1)
  {
    assert rest[i..][1..] == rest[i + 1..];
  }

  lemma MatchEnds(s: bytes, p: nat)
    ensures TakeMatch(s, p, []) == (true, p)
  {
  }

  /** One turn of the loop over a string. */
  lemma ScanTurn(c: Input, p: nat, text: bytes, err: Option<ParseError>)
    ensures var ch, v := Peek(c.s, p), Validate8(c.s, p);
            ScanString(c, p, text, err) ==
            if ch == 0x5C then ScanEscape(c, p, text, err)
            else if ch == 0x22 then Scan(p + 1, text, err)
            else if ch == 0 then Scan(p, text, Some(ParseError(MissQuotationMark, p - 1)))
            else if ch < 0x20 then Scan(p, text, Some(ParseError(EscapeInvalid, p - 1)))
            else if !c.flags.validate then ScanString(c, p + 1, text + [ch], err)
            else if v.0 then ScanString(c, v.1, text + CopyRange(c.s, p, v.1), err)
            else Scan(v.1, text, Some(ParseError(InvalidEncoding, v.1)))
  {
    hide ScanEscape, Validate8;
  }

  class Reader {
    const s: bytes
    const handler: seq<Event> -> bool
    const flags: Flags
    var pos: nat
    var out: seq<Event>
    var err: Option<ParseError>
    var stack: seq<Cell>
    /** An error was assigned where one was set: the assertion of the original fails. */
    var twice: bool

    constructor (c: Input)
      ensures In() == c && Now() == START && stack == [] && !twice
    {
      s, handler, flags := c.s, c.handler, c.flags;
      pos, out, err, stack, twice := 0, [], None, [], false;
    }

    function In(): Input { Input(s, handler, flags) }

    function Now(): St
      reads this
    {
      St(pos, out, err)
    }

    function Here(): byte
      reads this
    {
      Peek(s, pos)
    }

    method Take() returns (ch: byte)
      modifies this`pos
      ensures ch == Peek(s, old(pos)) && pos == old(pos) + 1
    {
      ch := Peek(s, pos);
      pos := pos + 1;
    }

    /** RAPIDJSON_PARSE_ERROR, with its assertion as the precondition. */
    method SetError(code: ErrorCode, offset: int)
      requires err.None?
      modifies this`err
      ensures Now() == old(Now()).Fail(code, offset)
    {
      err := Some(ParseError(code, offset));
    }

    /** The same inside a string, where the assertion may fail. */
    method AssignError(code: ErrorCode, offset: int)
      modifies this`err, this`twice
      ensures Now() == old(Now()).Fail(code, offset) && twice == (old(twice) || old(err).Some?)
    {
      twice := twice || err.Some?;
      err := Some(ParseError(code, offset));
    }

    /** Calls the handler; `false` from it is the error Termination. */
    method Call(e: Event)
      requires err.None?
      modifies this`out, this`err
      ensures Now() == Emit(In(), old(Now()), e)
    {
      out := out + [e];
      if !handler(out) {
        err := Some(ParseError(Termination, pos));
      }
    }

    method SkipWhitespace()
      modifies this`pos
      ensures Now() == Skip(In(), old(Now()))
    {
      while Here() == 0x20 || Here() == 0x0A || Here() == 0x0D || Here() == 0x09
        invariant SkipSpace(s, pos) == SkipSpace(s, old(pos))
        decreases Left(s, pos)
      {
        pos := pos + 1;
      }
    }

    method ParseLiteral(rest: bytes, e: Event)
      requires err.None?
      modifies this`pos, this`out, this`err
      ensures Now() == ReaderSpec.ParseLiteral(In(), old(Now()), rest, e)
    {
      hide Emit, TakeMatch;
      pos := pos + 1;
      var i := 0;
      ghost var m := TakeMatch(s, pos, rest);
      while i < |rest|
        invariant i <= |rest|
        invariant out == old(out) && err.None?
        invariant TakeMatch(s, pos, rest[i..]) == m
      {
        MatchStep(s, pos, rest, i);
        var ch := Take();
        if ch != rest[i] {
          SetError(ValueInvalid, pos - 1);
          return;
        }
        i := i + 1;
      }
      MatchEnds(s, pos);
      assert rest[i..] == [];
      Call(e);
    }

    /** Sets the error and returns 0 on a bad digit; the caller does not look at the error. */
    method ParseHex4() returns (code: nat)
      modifies this`pos, this`err, this`twice
      ensures var h := ReaderSpec.ParseHex4(s, old(pos));
              && code == h.value && pos == h.pos
              && err == (if h.ok then old(err) else Some(ParseError(UnicodeEscapeInvalidHex, h.pos - 1)))
              && twice == (old(twice) || (!h.ok && old(err).Some?))
    {
      hide HexValue, HexAhead, ReaderSpec.ParseHex4;
      ghost var h := ReaderSpec.ParseHex4(s, pos);
      HexStarts(s, pos);
      code := 0;
      var i: nat := 0;
      while i < 4
        invariant i <= 4 && err == old(err) && twice == old(twice)
        invariant HexAhead(s, pos, i, code, h)
      {
        HexNext(s, pos, i, code, h);
        var ch := Take();
        var digit := HexValue(ch);
        if digit == None {
          AssignError(UnicodeEscapeInvalidHex, pos - 1);
          return 0;
        }
        code := code * 16 + digit.value;
        i := i + 1;
      }
      HexEnds(s, pos, code, h);
    }

    /** The escape that starts at the cursor; `more` says whether the string goes on. */
    method ParseEscape(text: bytes) returns (text': bytes, more: bool)
      requires Here() == 0x5C
      modifies this`pos, this`err, this`twice
      ensures var r := ScanEscape(In(), old(pos), text, old(err));
              if more then
                pos > old(pos) && ScanString(In(), pos, text', err) == r
              else
                text' == text && r == Scan(pos, text, err) && err.Some?
      ensures (twice || (more && WillAssign(In(), pos, err.Some?))) ==
              (old(twice) || WillAssign(In(), old(pos), old(err).Some?))
    {
      hide ScanString, Encode8, ReaderSpec.ParseHex4, SurrogatePair, WillAssign, WillAssignUnicode;
      AssignsBehindEscape(In(), pos, err.Some?);
      text' := text;
      pos := pos + 1;
      var e := Take();
      if Escape(e) != 0 {
        return text + [Escape(e)], true;
      } else if e != 0x75 {
        AssignError(EscapeInvalid, pos - 1);
        return text, false;
      }
      text', more := ParseUnicode(pos - 2, text);
    }

    /** Behind `\u`: four digits, and for a lead surrogate the other half of the pair. */
    method ParseUnicode(ghost start: nat, text: bytes) returns (text': bytes, more: bool)
      requires pos == start + 2 && Peek(s, start) == 0x5C && Peek(s, start + 1) == 0x75
      modifies this`pos, this`err, this`twice
      ensures var r := ScanEscape(In(), start, text, old(err));
              if more then
                pos > old(pos) && ScanString(In(), pos, text', err) == r
              else
                text' == text && r == Scan(pos, text, err) && err.Some?
      ensures (twice || (more && WillAssign(In(), pos, err.Some?))) ==
              (old(twice) || WillAssignUnicode(In(), old(pos), old(err).Some?))
    {
      hide ScanString, Encode8, ReaderSpec.ParseHex4, SurrogatePair, WillAssign;
      text' := text;
      var code := ParseHex4();
      if 0xD800 <= code <= 0xDBFF {
        var ch := Take();
        if ch != 0x5C {
          AssignError(UnicodeSurrogateInvalid, pos - 2);
          return text, false;
        }
        ch := Take();
        if ch != 0x75 {
          AssignError(UnicodeSurrogateInvalid, pos - 2);
          return text, false;
        }
        var code2 := ParseHex4();
        if code2 < 0xDC00 || code2 > 0xDFFF {
          AssignError(UnicodeSurrogateInvalid, pos - 2);
          return text, false;
        }
        code := SurrogatePair(code, code2);
      }
      return text + Encode8(code), true;
    }

    method ParseStringToStream() returns (text: bytes)
      modifies this`pos, this`err, this`twice
      requires err.None?
      ensures Scan(pos, text, err) == ScanString(In(), old(pos) + 1, [], None)
      ensures twice == (old(twice) || AssignsTwice(In(), old(pos) + 1))
    {
      hide AssignsTwice, Fails, Validate8, ScanString, ScanEscape;
      pos := pos + 1;
      ghost var start, scan := pos, ScanString(In(), pos, [], None);
      text := [];
      while true
        invariant pos >= start
        invariant ScanString(In(), pos, text, err) == scan
        invariant (twice || WillAssign(In(), pos, err.Some?)) == (old(twice) || AssignsTwice(In(), start))
        decreases Left(s, pos)
      {
        var ch := Here();
        ScanTurn(In(), pos, text, err);
        if ch != 0x5C {
          AssignsBehindChar(In(), pos, err.Some?);
        }
        if ch == 0x5C {
          var more;
          text, more := ParseEscape(text);
          if !more {
            return;
          }
        } else if ch == 0x22 {
          pos := pos + 1;
          return;
        } else if ch == 0 {
          AssignError(MissQuotationMark, pos - 1);
          return;
        } else if ch < 0x20 {
          AssignError(EscapeInvalid, pos - 1);
          return;
        } else if flags.validate {
          var v := Validate8(s, pos);
          if !v.0 {
            pos := v.1;
            AssignError(InvalidEncoding, pos);
            return;
          }
          text, pos := text + CopyRange(s, pos, v.1), v.1;
        } else {
          text, pos := text + [ch], pos + 1;
        }
      }
    }

    method ParseString(isKey: bool)
      requires err.None?
      modifies this`pos, this`out, this`err, this`twice
      ensures Now() == ReaderSpec.ParseString(In(), old(Now()), isKey)
      ensures twice == (old(twice) || AssignsTwice(In(), old(pos) + 1))
      ensures err.None? ==> twice == old(twice)
    {
      var text := ParseStringToStream();
      if AssignsTwice(In(), old(pos) + 1) {
        TwiceFails(In(), old(pos) + 1);
        TextIgnored(In(), old(pos) + 1, []);
      }
      if err.None? {
        Call(if isKey then Key(text) else String(text));
      }
    }

    // Numbers

    method SkipDigits()
      modifies this`pos
      ensures pos == DigitsEnd(s, old(pos))
    {
      while IsDigit(Here())
        invariant DigitsEnd(s, pos) == DigitsEnd(s, old(pos))
        decreases Left(s, pos)
      {
        pos := pos + 1;
      }
    }

    /** The loops over `i`: they stop at the end of the digits or where 32 bits end. */
    method ParseInt32(minus: bool) returns (i: uint32, use64bit: bool)
      requires 0x31 <= Here() <= 0x39
      modifies this`pos
      ensures Digits(s, old(pos), pos, i as int)
      ensures minus ==> i as int <= TWO_TO_THE_31
      ensures !use64bit ==> !IsDigit(Here())
      ensures use64bit ==> IsDigit(Here()) &&
                           i as int * 10 + (Here() - 0x30) > if minus then TWO_TO_THE_31 else TWO_TO_THE_32 - 1
    {
      hide DigitsEnd, Value;
      DigitsFirst(s, pos);
      i, use64bit := (Here() - 0x30) as uint32, false;
      pos := pos + 1;
      if minus {
        while IsDigit(Here())
          invariant Digits(s, old(pos), pos, i as int) && i as int <= TWO_TO_THE_31
          decreases Left(s, pos)
        {
          if i >= 214748364 && (i != 214748364 || Here() > 0x38) {
            use64bit := true;
            break;
          }
          DigitsNext(s, old(pos), pos, i as int);
          i := i * 10 + (Here() - 0x30) as uint32;
          pos := pos + 1;
        }
      } else {
        while IsDigit(Here())
          invariant Digits(s, old(pos), pos, i as int)
          decreases Left(s, pos)
        {
          if i >= 429496729 && (i != 429496729 || Here() > 0x35) {
            use64bit := true;
            break;
          }
          DigitsNext(s, old(pos), pos, i as int);
          i := i * 10 + (Here() - 0x30) as uint32;
          pos := pos + 1;
        }
      }
    }

    /** The loops over `i64`, entered where 32 bits ended. */
    method ParseInt64(minus: bool, ghost p: nat, i: uint32) returns (i64: uint64, useDouble: bool)
      requires Digits(s, p, pos, i as int) && IsDigit(Here())
      requires i as int * 10 + (Here() - 0x30) > if minus then TWO_TO_THE_31 else TWO_TO_THE_32 - 1
      modifies this`pos
      ensures Digits(s, p, pos, i64 as int)
      ensures minus ==> i64 as int <= TWO_TO_THE_63
      ensures i64 as int > if minus then TWO_TO_THE_31 else TWO_TO_THE_32 - 1
      ensures !useDouble ==> !IsDigit(Here())
      ensures useDouble ==> IsDigit(Here()) && i64 as int * 10 + (Here() - 0x30) > Magnitude(minus)
    {
      hide DigitsEnd, Value;
      DigitsNext(s, p, pos, i as int);
      i64, useDouble := i as uint64, false;
      if minus {
        while IsDigit(Here())
          invariant Digits(s, p, pos, i64 as int) && i64 as int <= TWO_TO_THE_63
          invariant i64 as int > TWO_TO_THE_31 ||
                    (i64 == i as uint64 && IsDigit(Here()) && i64 as int * 10 + (Here() - 0x30) > TWO_TO_THE_31)
          decreases Left(s, pos)
        {
          if i64 >= 0x0CCC_CCCC_CCCC_CCCC && (i64 != 0x0CCC_CCCC_CCCC_CCCC || Here() > 0x38) {
            useDouble := true;
            break;
          }
          DigitsNext(s, p, pos, i64 as int);
          i64 := i64 * 10 + (Here() - 0x30) as uint64;
          pos := pos + 1;
        }
      } else {
        while IsDigit(Here())
          invariant Digits(s, p, pos, i64 as int)
          invariant i64 as int >= TWO_TO_THE_32 ||
                    (i64 == i as uint64 && IsDigit(Here()) && i64 as int * 10 + (Here() - 0x30) >= TWO_TO_THE_32)
          decreases Left(s, pos)
        {
          if i64 >= 0x1999_9999_9999_9999 && (i64 != 0x1999_9999_9999_9999 || Here() > 0x35) {
            useDouble := true;
            break;
          }
          DigitsNext(s, p, pos, i64 as int);
          i64 := i64 * 10 + (Here() - 0x30) as uint64;
          pos := pos + 1;
        }
      }
    }

    /** The loop over `d`, with the value kept exactly instead of rounded. */
    method ParseBigDigits(d0: nat) returns (ok: bool)
      requires err.None?
      modifies this`pos, this`err
      ensures BigDigits(s, old(pos), d0) == (pos, ok)
      ensures err == if ok then old(err) else Some(ParseError(NumberTooBig, pos))
    {
      var d: nat := d0;
      ok := true;
      while IsDigit(Here())
        invariant ok && err == old(err)
        invariant BigDigits(s, pos, d) == BigDigits(s, old(pos), d0)
        decreases Left(s, pos)
      {
        if d >= DoubleLimit() {
          SetError(NumberTooBig, pos);
          return false;
        }
        d := d * 10 + (Here() - 0x30);
        pos := pos + 1;
      }
    }

    method ParseExponentDigits(e: nat, expMinus: bool) returns (ok: bool)
      requires err.None?
      modifies this`pos, this`err
      ensures ExponentDigits(s, old(pos), e, expMinus) == (pos, ok)
      ensures err == if ok then old(err) else Some(ParseError(NumberTooBig, pos))
    {
      var exp: nat := e;
      ok := true;
      while IsDigit(Here())
        invariant ok && err == old(err)
        invariant ExponentDigits(s, pos, exp, expMinus) == ExponentDigits(s, old(pos), e, expMinus)
        decreases Left(s, pos)
      {
        exp := exp * 10 + (Here() - 0x30);
        pos := pos + 1;
        if exp > 308 && !expMinus {
          SetError(NumberTooBig, pos);
          return false;
        }
      }
    }

    method ParseExponent(start: nat)
      requires err.None? && start < pos
      modifies this`pos, this`out, this`err
      ensures Now() == ReaderSpec.ParseExponent(In(), old(Now()).AtPos(start), old(pos))
    {
      hide ExponentDigits, Emit;
      if Here() == 0x65 || Here() == 0x45 {
        pos := pos + 1;
        var expMinus := false;
        if Here() == 0x2B {
          pos := pos + 1;
        } else if Here() == 0x2D {
          pos := pos + 1;
          expMinus := true;
        }
        if !IsDigit(Here()) {
          SetError(NumberMissExponent, pos);
          return;
        }
        var first: nat := Here() - 0x30;
        pos := pos + 1;
        var ok := ParseExponentDigits(first, expMinus);
        if !ok {
          return;
        }
      }
      Call(Double(CopyRange(s, start, pos)));
    }

    /** Fraction, exponent and the Double event of a number that starts at `start`. */
    method ParseFraction(start: nat)
      requires err.None? && start < pos
      modifies this`pos, this`out, this`err
      ensures Now() == ReaderSpec.ParseFraction(In(), old(Now()).AtPos(start), old(pos))
    {
      hide ReaderSpec.ParseExponent;
      if Here() == 0x2E {
        pos := pos + 1;
        if !IsDigit(Here()) {
          SetError(NumberMissFraction, pos);
          return;
        }
        SkipDigits();
      }
      ParseExponent(start);
    }

    /**
     * The integer part. Neither accumulator overflows, and the value found is the decimal value of
     * the digits, held in the narrowest of `i`, `i64` and the double.
     */
    method ParseInteger(minus: bool) returns (i: uint32, i64: uint64, use64bit: bool, useDouble: bool)
      requires err.None? && IsDigit(Here())
      modifies this`pos, this`err
      ensures var q := IntegerEnd(s, old(pos));
              var n := Value(s[old(pos)..q]);
              var big := BigDigits(s, old(pos), 0);
              && (useDouble <==> n > Magnitude(minus))
              && (useDouble ==> pos == big.0 && err == if big.1 then None else Some(ParseError(NumberTooBig, pos)))
              && (err.None? ==> pos == q)
              && (!useDouble ==> err.None? && n == if use64bit then i64 as int else i as int)
              && (use64bit <==> n > if minus then TWO_TO_THE_31 else TWO_TO_THE_32 - 1)
    {
      i, i64, use64bit, useDouble := 0, 0, false, false;
      ghost var p := pos;
      DigitsFirst(s, pos);
      if Here() == 0x30 {
        pos := pos + 1;
      } else {
        i, use64bit := ParseInt32(minus);
        if use64bit {
          DigitsExceed(s, p, pos, i as int, if minus then TWO_TO_THE_31 else TWO_TO_THE_32 - 1);
          i64, useDouble := ParseInt64(minus, p, i);
        }
        if useDouble {
          DigitsExceed(s, p, pos, i64 as int, Magnitude(minus));
          BigDigitsSkip(s, p, pos, i64 as int);
          BigDigitsEnd(s, p, 0);
          var _ := ParseBigDigits(i64 as nat);
        }
      }
    }

    method ParseNumber()
      requires err.None?
      modifies this`pos, this`out, this`err
      ensures Now() == ReaderSpec.ParseNumber(In(), old(Now()))
    {
      hide ReaderSpec.ParseFraction, BigDigits, Value, DigitsEnd, Emit;
      var start := pos;
      var minus := Here() == 0x2D;
      if minus {
        pos := pos + 1;
      }
      if !IsDigit(Here()) {
        SetError(ValueInvalid, pos);
        return;
      }
      var i, i64, use64bit, useDouble := ParseInteger(minus);
      if err.Some? {
        return;
      }
      if useDouble || Here() == 0x2E || Here() == 0x65 || Here() == 0x45 {
        ParseFraction(start);
      } else if use64bit {
        Call(if minus then Int64(NegateInt64(i64)) else Uint64(i64 as int));
      } else {
        Call(if minus then Int(NegateInt(i)) else Uint(i as int));
      }
    }

    // Recursive descent

    method ParseValue()
      requires err.None?
      modifies this`pos, this`out, this`err, this`twice
      ensures err.None? ==> twice == old(twice)
      ensures Now() == ReaderSpec.ParseValue(In(), old(Now()))
      decreases Left(s, pos), 1
    {
      var ch := Here();
      if ch == 0x6E {
        ParseLiteral(NULL_REST, Null);
      } else if ch == 0x74 {
        ParseLiteral(TRUE_REST, Bool(true));
      } else if ch == 0x66 {
        ParseLiteral(FALSE_REST, Bool(false));
      } else if ch == 0x22 {
        ParseString(false);
      } else if ch == 0x7B {
        ParseObject();
      } else if ch == 0x5B {
        ParseArray();
      } else {
        ParseNumber();
      }
    }

    /** What follows an entry of a container: a comma and whitespace, or the closing byte. */
    method ParseDelimiter(close: byte) returns (another: bool)
      requires err.None?
      modifies this`pos, this`err
      ensures var p := SkipSpace(s, old(pos));
              && out == old(out)
              && another == (err.None? && Peek(s, p) == 0x2C)
              && (Peek(s, p) == 0x2C ==> err.None? && pos == SkipSpace(s, p + 1))
              && (Peek(s, p) == close != 0x2C ==> err.None? && pos == p + 1)
              && (Peek(s, p) != 0x2C && Peek(s, p) != close ==>
                    pos == p + 1 && err == Some(ParseError(if close == 0x5D then ArrayMissCommaOrSquareBracket
                                                           else ObjectMissCommaOrCurlyBracket, pos)))
    {
      SkipWhitespace();
      var ch := Take();
      another := false;
      if ch == 0x2C {
        SkipWhitespace();
        another := true;
      } else if ch != close {
        SetError(if close == 0x5D then ArrayMissCommaOrSquareBracket else ObjectMissCommaOrCurlyBracket, pos);
      }
    }

    method ParseArray()
      requires err.None? && Here() == 0x5B
      modifies this`pos, this`out, this`err, this`twice
      ensures err.None? ==> twice == old(twice)
      ensures Now() == ReaderSpec.ParseArray(In(), old(Now()))
      decreases Left(s, pos), 0
    {
      hide ReaderSpec.ParseValue, ArrayLoop, SkipSpace, Emit;
      pos := pos + 1;
      Call(StartArray);
      if err.Some? {
        return;
      }
      SkipWhitespace();
      if Here() == 0x5D {
        pos := pos + 1;
        Call(EndArray(0));
        return;
      }
      ParseElements();
    }

    /** The loop over the elements. */
    method ParseElements()
      requires err.None?
      modifies this`pos, this`out, this`err, this`twice
      ensures err.None? ==> twice == old(twice)
      ensures Now() == ArrayLoop(In(), old(Now()), 0)
      decreases Left(s, pos), 3
    {
      hide ReaderSpec.ParseValue, ArrayLoop, ArrayTail, SkipSpace, SizeType, Emit;
      var elementCount: nat := 0;
      while true
        invariant pos >= old(pos) && err.None? && twice == old(twice)
        invariant ArrayLoop(In(), Now(), elementCount) == ArrayLoop(In(), old(Now()), 0)
        decreases Left(s, pos)
      {
        ArrayLoopStep(In(), Now(), elementCount);
        ParseValue();
        if err.Some? {
          return;
        }
        elementCount := SizeType(elementCount + 1);
        var another := ParseDelimiter(0x5D);
        if err.Some? {
          return;
        }
        if !another {
          Call(EndArray(elementCount));
          return;
        }
      }
    }

    /** One `"name" : value`; `count` is how many members came before it. */
    method ParseMember(ghost count: nat)
      requires err.None?
      modifies this`pos, this`out, this`err, this`twice
      ensures err.None? ==> twice == old(twice)
      ensures ObjectLoop(In(), old(Now()), count) == if err.None? then ObjectTail(In(), Now(), count) else Now()
      ensures pos >= old(pos) && (err.None? ==> pos > old(pos))
      decreases Left(s, pos), 2
    {
      hide ReaderSpec.ParseValue, ReaderSpec.ParseString, ObjectTail;
      if Here() != 0x22 {
        SetError(ObjectMissName, pos);
        return;
      }
      ParseString(true);
      if err.Some? {
        return;
      }
      SkipWhitespace();
      var colon := Take();
      if colon != 0x3A {
        SetError(ObjectMissColon, pos);
        return;
      }
      SkipWhitespace();
      ParseValue();
    }

    method ParseObject()
      requires err.None? && Here() == 0x7B
      modifies this`pos, this`out, this`err, this`twice
      ensures err.None? ==> twice == old(twice)
      ensures Now() == ReaderSpec.ParseObject(In(), old(Now()))
      decreases Left(s, pos), 0
    {
      hide ReaderSpec.ParseValue, ReaderSpec.ParseString, ObjectLoop, SkipSpace, Emit;
      pos := pos + 1;
      Call(StartObject);
      if err.Some? {
        return;
      }
      SkipWhitespace();
      if Here() == 0x7D {
        pos := pos + 1;
        Call(EndObject(0));
        return;
      }
      ParseMembers();
    }

    /** The loop over the members. */
    method ParseMembers()
      requires err.None?
      modifies this`pos, this`out, this`err, this`twice
      ensures err.None? ==> twice == old(twice)
      ensures Now() == ObjectLoop(In(), old(Now()), 0)
      decreases Left(s, pos), 3
    {
      hide ReaderSpec.ParseValue, ReaderSpec.ParseString, ObjectLoop, ObjectTail, SkipSpace, SizeType, Emit;
      var memberCount: nat := 0;
      while true
        invariant pos >= old(pos) && err.None? && twice == old(twice)
        invariant ObjectLoop(In(), Now(), memberCount) == ObjectLoop(In(), old(Now()), 0)
        decreases Left(s, pos)
      {
        ParseMember(memberCount);
        if err.Some? {
          return;
        }
        ObjectTailStep(In(), Now(), memberCount);
        memberCount := SizeType(memberCount + 1);
        var another := ParseDelimiter(0x7D);
        if err.Some? {
          return;
        }
        if !another {
          Call(EndObject(memberCount));
          return;
        }
      }
    }

    method Parse()
      requires Now() == START
      modifies this`pos, this`out, this`err, this`twice
      ensures err.None? ==> twice == old(twice)
      ensures Now() == ReaderSpec.Parse(In())
    {
      SkipWhitespace();
      if Here() == 0 {
        SetError(DocumentEmpty, pos);
      } else {
        ParseValue();
        if err.Some? {
          return;
        }
        if !flags.stopWhenDone {
          SkipWhitespace();
          if Here() != 0 {
            SetError(RootNotSingular, pos);
          }
        }
      }
    }

    // The table-driven parser

    /** Transit, for the state `dst` that Predict chose; the flat stack follows the frames. */
    method Transit(src: Iter.PState, dst: Iter.PState, ghost f: Iter.Frames)
      returns (state: Iter.PState, ghost f': Iter.Frames)
      requires err.None? && Here() != 0 && stack == Cells(f) && Iter.ConfigOk(src, f)
      requires dst == Iter.Predict(src, Iter.Tokenize(Here()))
      modifies this
      ensures err.None? ==> twice == old(twice)
      ensures stack == Cells(f')
      ensures Iter.Step(state, f', Now()) == Iter.Transit(In(), src, f, old(Now()))
    {
      Iter.NeverStart(src, Here());
      hide Cells, Iter.Transit, Iter.Predict, Iter.Tokenize, Iter.ConfigOk;
      state, f' := dst, f;
      match dst
      case Error =>
        Iter.OutsideIs(In(), src, f, Now());
      case KeyValueDelimiter =>
        Iter.OutsideIs(In(), src, f, Now());
        pos := pos + 1;
      case ObjectInitial | ArrayInitial =>
        state, f' := TransitOpen(src, dst, f);
      case MemberKey | MemberValue | Element | ValueState =>
        state := TransitScalar(src, dst, f);
      case MemberDelimiter | ElementDelimiter | ObjectFinish | ArrayFinish =>
        state, f' := TransitInside(src, dst, f);
    }

    /** The destinations that an opening byte leads to. */
    method TransitOpen(src: Iter.PState, dst: Iter.PState, ghost f: Iter.Frames)
      returns (state: Iter.PState, ghost f': Iter.Frames)
      requires err.None? && Here() != 0 && stack == Cells(f) && Iter.ConfigOk(src, f)
      requires dst == Iter.Predict(src, Iter.Tokenize(Here()))
      requires dst.ObjectInitial? || dst.ArrayInitial?
      modifies this`pos, this`out, this`err, this`stack
      ensures stack == Cells(f')
      ensures Iter.Step(state, f', Now()) == Iter.Transit(In(), src, f, old(Now()))
    {
      Iter.OutsideIs(In(), src, f, Now());
      hide Cells, Emit, Iter.Transit, Iter.Open, Iter.Predict, Iter.Tokenize, Iter.StackOk;
      state, f' := Open(src, dst, if dst == Iter.ObjectInitial then StartObject else StartArray, f);
    }

    /** The destinations that a name or a scalar leads to. */
    method TransitScalar(src: Iter.PState, dst: Iter.PState, ghost f: Iter.Frames) returns (state: Iter.PState)
      requires err.None? && Here() != 0 && Iter.ConfigOk(src, f)
      requires dst == Iter.Predict(src, Iter.Tokenize(Here()))
      requires dst.MemberKey? || dst.MemberValue? || dst.Element? || dst.ValueState?
      modifies this`pos, this`out, this`err, this`twice
      ensures err.None? ==> twice == old(twice)
      ensures Iter.Step(state, f, Now()) == Iter.Transit(In(), src, f, old(Now()))
    {
      Iter.OutsideIs(In(), src, f, Now());
      hide ReaderSpec.ParseValue, ReaderSpec.ParseString, SizeType, Iter.Transit, Iter.Predict, Iter.Tokenize, Iter.StackOk;
      if dst == Iter.MemberKey {
        ParseString(true);
        state := if err.Some? then Iter.Error else dst;
      } else {
        state := Scalar(if dst == Iter.ValueState then Iter.Finish else dst);
      }
    }

    /** The destinations inside or at the end of a container. */
    method TransitInside(src: Iter.PState, dst: Iter.PState, ghost f: Iter.Frames)
      returns (state: Iter.PState, ghost f': Iter.Frames)
      requires err.None? && Here() != 0 && stack == Cells(f) && Iter.ConfigOk(src, f)
      requires dst == Iter.Predict(src, Iter.Tokenize(Here()))
      requires dst.MemberDelimiter? || dst.ElementDelimiter? || dst.ObjectFinish? || dst.ArrayFinish?
      modifies this
      ensures err.None? ==> twice == old(twice)
      ensures stack == Cells(f')
      ensures Iter.Step(state, f', Now()) == Iter.Transit(In(), src, f, old(Now()))
    {
      Iter.InsideIs(In(), src, f, Now());
      hide Cells, Iter.Transit, Iter.Close, Iter.Predict, Iter.Tokenize, Iter.BumpTop, Iter.StackOk, SizeType;
      state, f' := dst, f;
      match dst
      case MemberDelimiter =>
        f' := Delimit(f);
      case ElementDelimiter =>
        f' := Delimit(f);
      case ObjectFinish =>
        state, f' := Close(src == Iter.MemberValue, false, f);
      case ArrayFinish =>
        state, f' := Close(src == Iter.Element, true, f);
    }

    method Scalar(dst: Iter.PState) returns (state: Iter.PState)
      requires err.None?
      modifies this`pos, this`out, this`err, this`twice
      ensures err.None? ==> twice == old(twice)
      ensures Now() == ReaderSpec.ParseValue(In(), old(Now()))
      ensures state == if err.None? then dst else Iter.Error
    {
      ParseValue();
      state := if err.Some? then Iter.Error else dst;
    }

    /** Pushes the saved state and a zero count, calls the handler, takes the bracket. */
    method Open(src: Iter.PState, dst: Iter.PState, e: Event, ghost f: Iter.Frames)
      returns (state: Iter.PState, ghost f': Iter.Frames)
      requires err.None? && stack == Cells(f)
      modifies this`pos, this`out, this`err, this`stack
      ensures stack == Cells(f')
      ensures Iter.Step(state, f', Now()) == Iter.Open(In(), src, dst, e, f, old(Now()))
    {
      Iter.OpenIs(In(), src, dst, e, f, Now());
      hide Cells, Emit, Iter.Open, Iter.SavedFor;
      var n := StateToSave(src);
      f' := Iter.Frame(n, 0, f);
      PushPair(n, f);
      Call(e);
      if err.Some? {
        state := Iter.Error;
      } else {
        pos := pos + 1;
        state := dst;
      }
    }

    /** The state in which the parse goes on behind the container. */
    method StateToSave(src: Iter.PState) returns (n: Iter.PState)
      ensures n == Iter.SavedFor(src)
    {
      n := src;
      if src == Iter.ArrayInitial || src == Iter.ElementDelimiter {
        n := Iter.Element;
      } else if src == Iter.KeyValueDelimiter {
        n := Iter.MemberValue;
      }
    }

    /** The saved state and a zero count. */
    method PushPair(n: Iter.PState, ghost f: Iter.Frames)
      requires stack == Cells(f)
      modifies this`stack
      ensures stack == Cells(Iter.Frame(n, 0, f))
    {
      hide Cells;
      stack := stack + [Saved(n)];
      stack := stack + [Count(0)];
      PushCells(f, n);
    }

    method Delimit(ghost f: Iter.Frames) returns (ghost f': Iter.Frames)
      requires f.Frame? && stack == Cells(f)
      modifies this`pos, this`stack
      ensures f' == Iter.BumpTop(f) && stack == Cells(f') && pos == old(pos) + 1
    {
      pos := pos + 1;
      var top := stack[|stack| - 1].n;
      stack := stack[..|stack| - 1] + [Count(SizeType(top + 1))];
      f' := Iter.BumpTop(f);
      assert stack == Cells(f.below) + [Saved(f.saved), Count(f'.count)];
    }

    /** Pops the count and the saved state: there are always two cells to pop. */
    method Close(another: bool, isArray: bool, ghost f: Iter.Frames)
      returns (state: Iter.PState, ghost f': Iter.Frames)
      requires err.None? && f.Frame? && Iter.StackOk(f) && stack == Cells(f)
      modifies this`pos, this`out, this`err, this`stack
      ensures stack == Cells(f')
      ensures var count := if another then SizeType(f.count + 1) else f.count;
              Iter.Step(state, f', Now()) ==
              Iter.Close(In(), if isArray then EndArray(count) else EndObject(count), f, old(Now()))
    {
      var c := stack[|stack| - 1].n;
      stack := stack[..|stack| - 1];
      if another {
        c := SizeType(c + 1);
      }
      var n := stack[|stack| - 1].state;
      stack := stack[..|stack| - 1];
      f' := f.below;
      assert stack == Cells(f.below);
      if n == Iter.Start {
        n := Iter.Finish;
      }
      Call(if isArray then EndArray(c) else EndObject(c));
      if err.Some? {
        state := Iter.Error;
      } else {
        pos := pos + 1;
        state := n;
      }
    }

    method HandleError(src: Iter.PState)
      modifies this`err
      ensures Now() == Iter.HandleError(src, old(Now()))
    {
      if err.Some? {
        return;
      }
      match src
      case Start => SetError(DocumentEmpty, pos);
      case Finish => SetError(RootNotSingular, pos);
      case ObjectInitial => SetError(ObjectMissName, pos);
      case MemberDelimiter => SetError(ObjectMissName, pos);
      case MemberKey => SetError(ObjectMissColon, pos);
      case MemberValue => SetError(ObjectMissCommaOrCurlyBracket, pos);
      case Element => SetError(ArrayMissCommaOrSquareBracket, pos);
      case _ => SetError(UnspecificSyntaxError, pos);
    }

    /**
     * The loop terminates because each step that is not an error consumes input. At its head the
     * stack holds one saved state and one count for each open container.
     */
    method IterativeParse()
      requires Now() == START && stack == []
      modifies this
      ensures Now() == Iter.IterativeParse(In())
      ensures err.None? ==> twice == old(twice)
    {
      hide Iter.Transit;
      var state := Iter.Start;
      ghost var f := Iter.NoFrames;
      SkipWhitespace();
      while Here() != 0
        invariant err.None? && twice == old(twice) && stack == Cells(f) && Iter.ConfigOk(state, f)
        invariant |stack| == 2 * f.Depth()
        invariant f.Depth() == Iter.Balance(out)
        invariant Iter.Loop(In(), state, f, Now()) == Iter.IterativeParse(In())
        decreases Left(s, pos)
      {
        var t := Iter.Tokenize(Here());
        var n := Iter.Predict(state, t);
        Iter.DepthIsBalance(In(), state, f, Now());
        var d;
        d, f := Transit(state, n, f);
        FlatStack(f);
        if d == Iter.Error {
          HandleError(state);
          if state != Iter.Finish {
            HandleError(state);
          }
          return;
        }
        state := d;
        if flags.stopWhenDone && state == Iter.Finish {
          return;
        }
        SkipWhitespace();
      }
      if state != Iter.Finish {
        HandleError(state);
      }
    }
  }

  /** The flat stack holds two cells for each open container. */
  lemma {:induction false} FlatStack(f: Iter.Frames)
    ensures |Cells(f)| == 2 * f.Depth()
  {
    if f.Frame? {
      FlatStack(f.below);
    }
  }

  /** If no limit is met, the digits are all taken. */
  lemma {:induction false} BigDigitsEnd(s: bytes, p: nat, d: nat)
    ensures BigDigits(s, p, d).1 ==> BigDigits(s, p, d).0 == DigitsEnd(s, p)
    decreases Left(s, p)
  {
    if IsDigit(Peek(s, p)) && d < DoubleLimit() {
      BigDigitsEnd(s, p + 1, d * 10 + (Peek(s, p) - 0x30));
    }
  }
}
