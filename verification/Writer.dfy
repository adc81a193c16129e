/** Writer as it runs: an output stream and a level stack, changed in place by each event. */
module Writer {
  import opened Bytes
  import opened Json
  import opened Encodings
  import Spec = WriterSpec

  lemma Regroup(a: bytes, b: bytes, c: bytes)
    ensures a + (b + c) == (a + b) + c
  {
  }

  class Writer {
    /** Does the target encoding support Unicode? */
    const u: bool
    var os: bytes
    var levelStack: seq<Spec.Level>
    var hasRoot: bool

    constructor (unicode: bool)
      ensures u == unicode && Now() == Spec.FRESH
    {
      u := unicode;
      os, levelStack, hasRoot := [], [], false;
    }

    function Now(): Spec.State
      reads this
    {
      Spec.State(os, levelStack, hasRoot)
    }

    method PutText(t: bytes)
      modifies this`os
      ensures os == old(os) + t
    {
      os := os + t;
    }

    /** The preconditions of this and of the handler methods are the assertions of the original. */
    method Prefix(isString: bool)
      requires Spec.Prefix(Now(), isString).Some?
      modifies this
      ensures Now() == Spec.Prefix(old(Now()), isString).value
    {
      if |levelStack| != 0 {
        var level := levelStack[|levelStack| - 1];
        if level.valueCount > 0 {
          if level.inArray {
            os := os + [0x2C];
          } else {
            os := os + [if level.valueCount % 2 == 0 then 0x2C else 0x3A];
          }
        }
        levelStack := levelStack[..|levelStack| - 1] + [level.(valueCount := level.valueCount + 1)];
      } else {
        hasRoot := true;
      }
    }

    method PutHex(n: nat)
      requires n < 16
      modifies this`os
      ensures os == old(os) + [Spec.HexDigit(n)]
    {
      os := os + [if n < 10 then 0x30 + n else 0x41 + n - 10];
    }

    method PutHex4(n: nat)
      requires n < 0x10000
      modifies this`os
      ensures os == old(os) + Spec.HexEscape(n)
    {
      PutText([0x5C, 0x75]);
      PutHex(n / 0x1000 % 16);
      PutHex(n / 0x100 % 16);
      PutHex(n / 16 % 16);
      PutHex(n % 16);
      assert os == old(os) + Spec.HexEscape(n);
    }

    method PutCodePoint(cp: nat)
      requires Scalar(cp)
      modifies this`os
      ensures os == old(os) + Spec.CodePointText(cp)
    {
      if cp <= 0xFFFF {
        PutHex4(cp);
      } else {
        var s := cp - 0x10000;
        PutHex4(s / 0x400 + 0xD800);
        PutHex4(s % 0x400 + 0xDC00);
        assert os == old(os) + Spec.CodePointText(cp);
      }
    }

    method PutUnit(c: byte)
      modifies this`os
      ensures os == old(os) + Spec.UnitText(c)
    {
      if Spec.Escape(c) == 0x75 {
        PutHex4(c);
      } else if Spec.Escape(c) != 0 {
        PutText([0x5C, Spec.Escape(c)]);
      } else {
        PutText([c]);
      }
    }

    /** `false` where an ASCII target meets bytes that are not UTF-8; what was put so far stays. */
    method WriteString(str: bytes) returns (ok: bool)
      modifies this`os
      ensures ok <==> Spec.Writable(u, str, 0)
      ensures os == old(os) + if ok then Spec.StringText(u, str) else [0x22] + Spec.UnitTexts(u, str, 0)
    {
      hide Decode8, Spec.UnitText, Spec.CodePointText;
      ghost var all := old(os) + [0x22] + Spec.UnitTexts(u, str, 0);
      PutText([0x22]);
      var p: nat := 0;
      while p < |str|
        invariant os + Spec.UnitTexts(u, str, p) == all
        invariant Spec.Writable(u, str, p) <==> Spec.Writable(u, str, 0)
        decreases Left(str, p)
      {
        ghost var before := os;
        if !u && str[p] >= 0x80 {
          var d := Decode8(str, p);
          if !d.ok {
            assert os == all;
            return false;
          }
          DecodeIsShortest(str, p);
          PutCodePoint(d.cp);
          p := d.pos;
          Regroup(before, Spec.CodePointText(d.cp), Spec.UnitTexts(u, str, p));
        } else {
          PutUnit(str[p]);
          p := p + 1;
          Regroup(before, Spec.UnitText(str[p - 1]), Spec.UnitTexts(u, str, p));
        }
      }
      assert os == all;
      PutText([0x22]);
      assert os == old(os) + Spec.StringText(u, str);
      ok := true;
    }

    method Null()
      requires Spec.Put(u, Now(), Event.Null).Some?
      modifies this
      ensures Now() == Spec.Put(u, old(Now()), Event.Null).value
    {
      Prefix(false);
      PutText(Spec.NULL_TEXT);
    }

    method Bool(b: bool)
      requires Spec.Put(u, Now(), Event.Bool(b)).Some?
      modifies this
      ensures Now() == Spec.Put(u, old(Now()), Event.Bool(b)).value
    {
      Prefix(false);
      PutText(if b then Spec.TRUE_TEXT else Spec.FALSE_TEXT);
    }

    /** Int, Uint, Int64 and Uint64: the same decimal text. */
    method Number(e: Event)
      requires e.Int? || e.Uint? || e.Int64? || e.Uint64?
      requires Spec.Put(u, Now(), e).Some?
      modifies this
      ensures Now() == Spec.Put(u, old(Now()), e).value
    {
      Prefix(false);
      PutText(Spec.IntText(e.n));
    }

    method Double(text: bytes)
      requires Spec.Put(u, Now(), Event.Double(text)).Some?
      modifies this
      ensures Now() == Spec.Put(u, old(Now()), Event.Double(text)).value
    {
      Prefix(false);
      PutText(text);
    }

    /** String and Key alike. */
    method String(str: bytes) returns (ok: bool)
      requires Spec.Prefix(Now(), true).Some?
      modifies this
      ensures ok <==> Spec.Put(u, old(Now()), Event.String(str)).Some?
      ensures ok ==> Now() == Spec.Put(u, old(Now()), Event.String(str)).value
    {
      Prefix(true);
      ok := WriteString(str);
    }

    method StartObject()
      requires Spec.Put(u, Now(), Event.StartObject).Some?
      modifies this
      ensures Now() == Spec.Put(u, old(Now()), Event.StartObject).value
    {
      Prefix(false);
      levelStack := levelStack + [Spec.Level(0, false)];
      PutText([0x7B]);
    }

    method EndObject(memberCount: nat)
      requires Spec.Put(u, Now(), Event.EndObject(memberCount)).Some?
      modifies this
      ensures Now() == Spec.Put(u, old(Now()), Event.EndObject(memberCount)).value
    {
      levelStack := levelStack[..|levelStack| - 1];
      PutText([0x7D]);
    }

    method StartArray()
      requires Spec.Put(u, Now(), Event.StartArray).Some?
      modifies this
      ensures Now() == Spec.Put(u, old(Now()), Event.StartArray).value
    {
      Prefix(false);
      levelStack := levelStack + [Spec.Level(0, true)];
      PutText([0x5B]);
    }

    method EndArray(elementCount: nat)
      requires Spec.Put(u, Now(), Event.EndArray(elementCount)).Some?
      modifies this
      ensures Now() == Spec.Put(u, old(Now()), Event.EndArray(elementCount)).value
    {
      levelStack := levelStack[..|levelStack| - 1];
      PutText([0x5D]);
    }
  }
}
