/** Encode, Decode, Validate and Transcode as they move the cursors of their streams. */
module EncodingStreams {
  import opened Bytes
  import opened Encodings

  class Source {
    const s: bytes
    var pos: nat

    constructor (s: bytes)
      ensures this.s == s && pos == 0
    {
      this.s, pos := s, 0;
    }

    method Take() returns (c: byte)
      modifies this`pos
      ensures c == Peek(s, old(pos)) && pos == old(pos) + 1
    {
      c := Peek(s, pos);
      pos := pos + 1;
    }
  }

  class Source16 {
    const s: seq<unit16>
    var pos: nat

    constructor (s: seq<unit16>)
      ensures this.s == s && pos == 0
    {
      this.s, pos := s, 0;
    }

    method Take() returns (c: unit16)
      modifies this`pos
      ensures c == Peek16(s, old(pos)) && pos == old(pos) + 1
    {
      c := Peek16(s, pos);
      pos := pos + 1;
    }
  }

  class Target<T> {
    var text: seq<T>

    constructor ()
      ensures text == []
    {
      text := [];
    }

    method Put(c: T)
      modifies this
      ensures text == old(text) + [c]
    {
      text := text + [c];
    }
  }

  // UTF8

  method Utf8Encode(output: Target<byte>, codepoint: nat)
    requires codepoint <= 0x10FFFF
    modifies output
    ensures output.text == old(output.text) + Encode8(codepoint)
  {
    if codepoint <= 0x7F {
      output.Put(codepoint);
    } else if codepoint <= 0x7FF {
      output.Put(0xC0 + codepoint / 0x40);
      output.Put(0x80 + codepoint % 0x40);
    } else if codepoint <= 0xFFFF {
      output.Put(0xE0 + codepoint / 0x1000);
      output.Put(0x80 + codepoint / 0x40 % 0x40);
      output.Put(0x80 + codepoint % 0x40);
    } else {
      output.Put(0xF0 + codepoint / 0x40000);
      output.Put(0x80 + codepoint / 0x1000 % 0x40);
      output.Put(0x80 + codepoint / 0x40 % 0x40);
      output.Put(0x80 + codepoint % 0x40);
    }
  }

  /** COPY and TRANS of Decode: one more byte goes into the code point, and must be in the mask. */
  method NextTail(input: Source, codepoint: nat, result: bool, mask: bv8) returns (codepoint': nat, result': bool)
    modifies input`pos
    ensures input.pos == old(input.pos) + 1
    ensures codepoint' == codepoint * 0x40 + Peek(input.s, old(input.pos)) % 0x40
    ensures result' == (result && Trans(Peek(input.s, old(input.pos)), mask))
  {
    var c := input.Take();
    codepoint' := codepoint * 0x40 + c % 0x40;
    result' := result && Trans(c, mask);
  }

  method Utf8Decode(input: Source) returns (result: bool, codepoint: nat)
    modifies input`pos
    ensures Decoded(result, codepoint, input.pos) == Decode8(input.s, old(input.pos))
  {
    hide Trans, GetRange;
    var c := input.Take();
    if c < 0x80 {
      return true, c;
    }
    var t := GetRange(c);
    codepoint := LeadBits(c);
    result := true;
    if t == 2 {
      codepoint, result := NextTail(input, codepoint, result, 0x70);
    } else if t == 3 {
      codepoint, result := NextTail(input, codepoint, result, 0x70);
      codepoint, result := NextTail(input, codepoint, result, 0x70);
    } else if t == 4 {
      codepoint, result := NextTail(input, codepoint, result, 0x50);
      codepoint, result := NextTail(input, codepoint, result, 0x70);
    } else if t == 5 {
      codepoint, result := NextTail(input, codepoint, result, 0x10);
      codepoint, result := NextTail(input, codepoint, result, 0x70);
      codepoint, result := NextTail(input, codepoint, result, 0x70);
    } else if t == 6 {
      codepoint, result := NextTail(input, codepoint, result, 0x70);
      codepoint, result := NextTail(input, codepoint, result, 0x70);
      codepoint, result := NextTail(input, codepoint, result, 0x70);
    } else if t == 10 {
      codepoint, result := NextTail(input, codepoint, result, 0x20);
      codepoint, result := NextTail(input, codepoint, result, 0x70);
    } else if t == 11 {
      codepoint, result := NextTail(input, codepoint, result, 0x60);
      codepoint, result := NextTail(input, codepoint, result, 0x70);
      codepoint, result := NextTail(input, codepoint, result, 0x70);
    } else {
      result := false;
    }
  }

  /** COPY and TRANS of Validate: one more byte is copied, and must be in the mask. */
  method CopyTail(input: Source, output: Target<byte>, result: bool, mask: bv8, ghost start: nat, ghost before: bytes)
    returns (result': bool)
    requires start <= input.pos && output.text == before + CopyRange(input.s, start, input.pos)
    modifies input`pos, output
    ensures input.pos == old(input.pos) + 1 && output.text == before + CopyRange(input.s, start, input.pos)
    ensures result' == (result && Trans(Peek(input.s, old(input.pos)), mask))
  {
    var c := input.Take();
    assert CopyRange(input.s, start, input.pos) == CopyRange(input.s, start, input.pos - 1) + [c];
    output.Put(c);
    result' := result && Trans(c, mask);
  }

  /** Validate copies what it reads, and reads as far as Decode, whatever the verdict. */
  method Utf8Validate(input: Source, output: Target<byte>) returns (result: bool)
    modifies input`pos, output
    ensures (result, input.pos) == Validate8(input.s, old(input.pos))
    ensures output.text == old(output.text) + CopyRange(input.s, old(input.pos), input.pos)
  {
    hide Trans, GetRange;
    ghost var p, before := input.pos, output.text;
    var c := input.Take();
    output.Put(c);
    assert CopyRange(input.s, p, p + 1) == [c];
    if c < 0x80 {
      return true;
    }
    result := true;
    var t := GetRange(c);
    if t == 2 {
      result := CopyTail(input, output, result, 0x70, p, before);
    } else if t == 3 {
      result := CopyTail(input, output, result, 0x70, p, before);
      result := CopyTail(input, output, result, 0x70, p, before);
    } else if t == 4 {
      result := CopyTail(input, output, result, 0x50, p, before);
      result := CopyTail(input, output, result, 0x70, p, before);
    } else if t == 5 {
      result := CopyTail(input, output, result, 0x10, p, before);
      result := CopyTail(input, output, result, 0x70, p, before);
      result := CopyTail(input, output, result, 0x70, p, before);
    } else if t == 6 {
      result := CopyTail(input, output, result, 0x70, p, before);
      result := CopyTail(input, output, result, 0x70, p, before);
      result := CopyTail(input, output, result, 0x70, p, before);
    } else if t == 10 {
      result := CopyTail(input, output, result, 0x20, p, before);
      result := CopyTail(input, output, result, 0x70, p, before);
    } else if t == 11 {
      result := CopyTail(input, output, result, 0x60, p, before);
      result := CopyTail(input, output, result, 0x70, p, before);
      result := CopyTail(input, output, result, 0x70, p, before);
    } else {
      result := false;
    }
  }

  // UTF16

  method Utf16Encode(output: Target<unit16>, codepoint: nat)
    requires Scalar(codepoint)
    modifies output
    ensures output.text == old(output.text) + Encode16(codepoint)
  {
    if codepoint <= 0xFFFF {
      output.Put(codepoint);
    } else {
      var v := codepoint - 0x10000;
      output.Put(0xD800 + v / 0x400);
      output.Put(0xDC00 + v % 0x400);
    }
  }

  method Utf16Decode(input: Source16) returns (result: bool, codepoint: nat)
    modifies input`pos
    ensures Decoded(result, codepoint, input.pos) == Decode16(input.s, old(input.pos))
  {
    var c := input.Take();
    if c < 0xD800 || c > 0xDFFF {
      return true, c;
    } else if c <= 0xDBFF {
      var high: nat := c % 0x400;
      codepoint := high * 0x400;
      c := input.Take();
      codepoint := codepoint + c % 0x400;
      codepoint := codepoint + 0x10000;
      return 0xDC00 <= c <= 0xDFFF, codepoint;
    }
    return false, 0;
  }

  // Transcoder, called until the end of the text

  /** One call of Transcode, from UTF-8. The assertions of UTF16::Encode never fail. */
  method TranscodeTo16(input: Source, output: Target<unit16>) returns (result: bool)
    requires input.pos < |input.s|
    modifies input`pos, output
    ensures var d := Decode8(input.s, old(input.pos));
            && result == d.ok && input.pos == d.pos
            && (result ==> Scalar(d.cp) && input.pos <= |input.s| && output.text == old(output.text) + Encode16(d.cp))
            && (!result ==> output.text == old(output.text))
  {
    hide Decode8, Encode16, Encode8;
    ghost var p := input.pos;
    var codepoint: nat;
    result, codepoint := Utf8Decode(input);
    if !result {
      return;
    }
    DecodeIsShortest(input.s, p);
    Utf16Encode(output, codepoint);
  }

  method ToUtf16(s: bytes) returns (r: Option<seq<unit16>>)
    ensures r == To16(s, 0)
  {
    hide Decode8, Encode16;
    var input := new Source(s);
    var output := new Target<unit16>();
    assert To16(s, 0).Some? ==> [] + To16(s, 0).value == To16(s, 0).value;
    while input.pos < |s|
      invariant input.pos <= |s| && input.s == s
      invariant To16(s, 0) ==
                if To16(s, input.pos) == None then None else Some(output.text + To16(s, input.pos).value)
      decreases |s| - input.pos
    {
      ghost var p, text := input.pos, output.text;
      var ok := TranscodeTo16(input, output);
      if !ok {
        return None;
      }
      if To16(s, input.pos).Some? {
        assert text + To16(s, p).value == output.text + To16(s, input.pos).value;
      }
    }
    r := Some(output.text);
    assert output.text + [] == output.text;
  }

  method TranscodeTo8(input: Source16, output: Target<byte>) returns (result: bool)
    requires input.pos < |input.s|
    modifies input`pos, output
    ensures var d := Decode16(input.s, old(input.pos));
            && result == d.ok && input.pos == d.pos
            && (result ==> Scalar(d.cp) && input.pos <= |input.s| && output.text == old(output.text) + Encode8(d.cp))
            && (!result ==> output.text == old(output.text))
  {
    hide Decode16, Encode8, Encode16;
    ghost var p := input.pos;
    var codepoint: nat;
    result, codepoint := Utf16Decode(input);
    if !result {
      return;
    }
    Decode16IsScalar(input.s, p);
    Utf8Encode(output, codepoint);
  }

  method ToUtf8(s: seq<unit16>) returns (r: Option<bytes>)
    ensures r == To8(s, 0)
  {
    hide Decode16, Encode8;
    var input := new Source16(s);
    var output := new Target<byte>();
    assert To8(s, 0).Some? ==> [] + To8(s, 0).value == To8(s, 0).value;
    while input.pos < |s|
      invariant input.pos <= |s| && input.s == s
      invariant To8(s, 0) == if To8(s, input.pos) == None then None else Some(output.text + To8(s, input.pos).value)
      decreases |s| - input.pos
    {
      ghost var p, text := input.pos, output.text;
      var ok := TranscodeTo8(input, output);
      if !ok {
        return None;
      }
      if To8(s, input.pos).Some? {
        assert text + To8(s, p).value == output.text + To8(s, input.pos).value;
      }
    }
    r := Some(output.text);
    assert output.text + [] == output.text;
  }
}
