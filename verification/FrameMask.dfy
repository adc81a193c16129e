/** WebSocket payload masking: byte by byte, and a machine word at a time. */
module FrameMask {
  import opened Words

  // Prepared keys

  /** The four-byte word of a machine with this byte order. */
  function Half(m: Machine): Machine {
    Machine(4, m.little)
  }

  /** `key.i` */
  function KeyWord(m: Machine, key: Key): bv64 {
    WordOf(Half(m), key)
  }

  function PrepareMaskingKey(m: Machine, key: Key): bv64 {
    if m.word == 8 then Or(Shl(KeyWord(m, key), 4), KeyWord(m, key)) else KeyWord(m, key)
  }

  /** A shift to the left, as a size_t holds it. */
  function ShlWord(m: Machine, w: bv64, k: nat): bv64
    requires k < 8
  {
    if m.word == 4 then Low32(Shl(w, k)) else Shl(w, k)
  }

  function CircshiftPreparedKey(m: Machine, w: bv64, offset: nat): bv64
    requires offset < m.word
  {
    if offset == 0 then w
    else if m.little then Or(Shr(w, offset), ShlWord(m, w, m.word - offset))
    else Or(ShlWord(m, w, offset), Shr(w, m.word - offset))
  }

  /** The word repeats four bytes. */
  predicate Prepared(m: Machine, w: bv64) {
    Fits(m, w) && (m.word == 8 ==> forall i :: 0 <= i < 4 ==> ByteAt(m, w, i) == ByteAt(m, w, i + 4))
  }

  function KeyOf(m: Machine, w: bv64): Key {
    [ByteAt(m, w, 0), ByteAt(m, w, 1), ByteAt(m, w, 2), ByteAt(m, w, 3)]
  }

  /** The key, started n bytes later. */
  function Rotated(key: Key, n: nat): Key {
    [KeyByte(key, n), KeyByte(key, n + 1), KeyByte(key, n + 2), KeyByte(key, n + 3)]
  }

  function KeyIndex(i: nat): (r: nat)
    ensures r < 4
  {
    i % 4
  }

  lemma KeyIndexNext(i: nat)
    ensures (KeyIndex(i) + 1) % 4 == KeyIndex(i + 1)
  {
  }

  /** The byte of the key for position i of the data. */
  function KeyByte(key: Key, i: nat): uint8 {
    key[KeyIndex(i)]
  }

  lemma RotatedByte(key: Key, n: nat, i: nat)
    ensures KeyByte(Rotated(key, n), i) == KeyByte(key, n + i)
  {
    KeyIndexAdd(n, i);
    hide KeyIndex;
    var k := KeyIndex(i);
    assert k == 0 || k == 1 || k == 2 || k == 3;
    assert Rotated(key, n)[k] == KeyByte(key, n + k);
  }

  lemma KeyIndexAdd(n: nat, i: nat)
    ensures KeyIndex(n + KeyIndex(i)) == KeyIndex(n + i)
  {
  }

  lemma RotatedTwice(key: Key, m: nat, n: nat)
    ensures Rotated(Rotated(key, m), n) == Rotated(key, m + n)
  {
    hide KeyByte;
    RotatedByte(key, m, n);
    RotatedByte(key, m, n + 1);
    RotatedByte(key, m, n + 2);
    RotatedByte(key, m, n + 3);
  }

  /** A whole number of keys. */
  predicate WholeKeys(n: nat) {
    n % 4 == 0
  }

  lemma KeyPeriod(key: Key, i: nat, n: nat)
    requires WholeKeys(n)
    ensures KeyByte(key, i + n) == KeyByte(key, i)
  {
  }

  lemma RotatedPeriod(key: Key, i: nat, n: nat)
    requires WholeKeys(n)
    ensures Rotated(key, i + n) == Rotated(key, i)
  {
    hide KeyByte;
    KeyPeriod(key, i, n);
    KeyPeriod(key, i + 1, n);
    KeyPeriod(key, i + 2, n);
    KeyPeriod(key, i + 3, n);
  }

  /** A prepared key shows the key over and over. */
  lemma PreparedByte(m: Machine, w: bv64, i: nat)
    requires Prepared(m, w) && i < m.word
    ensures ByteAt(m, w, i) == KeyByte(KeyOf(m, w), i)
  {
    hide ByteAt, Fits;
    assert i >= 4 ==> ByteAt(m, w, i - 4) == ByteAt(m, w, i - 4 + 4);
  }

  lemma PrepareLane(m: Machine, key: Key, k: nat)
    requires k < 8
    ensures var w := KeyWord(m, key);
            Lane(PrepareMaskingKey(m, key), k)
            == if k < 4 then Lane(w, k) else if m.word == 8 then Lane(w, k - 4) else 0
  {
    hide Lane, WordOf, Shl, Or, Or8;
    var w := KeyWord(m, key);
    WordOfFits(Half(m), key);
    LaneShl(w, 4, k);
    LaneOr(Shl(w, 4), w, k);
    Or8Zero(Lane(w, k));
    Or8Zero(Lane(Shl(w, 4), k));
  }

  lemma PrepareByte(m: Machine, key: Key, i: nat)
    requires i < m.word
    ensures ByteAt(m, PrepareMaskingKey(m, key), i) == key[if i < 4 then i else i - 4]
  {
    hide Lane, WordOf, PrepareMaskingKey;
    PrepareLane(m, key, LaneAt(m, i));
    WordOfBytes(Half(m), key, if i < 4 then i else i - 4);
  }

  lemma PrepareIsPrepared(m: Machine, key: Key)
    ensures Prepared(m, PrepareMaskingKey(m, key)) && KeyOf(m, PrepareMaskingKey(m, key)) == key
  {
    hide Lane, ByteAt, PrepareMaskingKey;
    var p := PrepareMaskingKey(m, key);
    forall k | m.word <= k < 8 ensures Lane(p, k) == 0 {
      PrepareLane(m, key, k);
    }
    forall i | 0 <= i < m.word ensures ByteAt(m, p, i) == key[if i < 4 then i else i - 4] {
      PrepareByte(m, key, i);
    }
  }

  /** Where a circular shift takes the lanes. */
  lemma ShiftLane(m: Machine, w: bv64, n: nat, k: nat)
    requires Fits(m, w) && 0 < n < m.word && k < 8
    ensures var to := if k >= m.word then 0 else Lane(w, if k + n < m.word then k + n else k + n - m.word);
            && Lane(Or(Shr(w, n), ShlWord(m, w, m.word - n)), k) == to
            && Lane(Or(ShlWord(m, w, m.word - n), Shr(w, n)), k) == to
  {
    hide Lane, Shl, Shr, Or, Or8, Low32;
    var r, l := Shr(w, n), ShlWord(m, w, m.word - n);
    LaneShr(w, n, k);
    LaneShl(w, m.word - n, k);
    LaneLow(Shl(w, m.word - n), k);
    LaneOr(r, l, k);
    LaneOr(l, r, k);
    Or8Zero(Lane(r, k));
    Or8Zero(Lane(l, k));
  }

  /** A circular shift of any word, seen in memory: it starts n bytes later. */
  lemma ShiftByte(m: Machine, w: bv64, n: nat, i: nat)
    requires Fits(m, w) && n < m.word && i < m.word
    ensures ByteAt(m, CircshiftPreparedKey(m, w, n), i) == ByteAt(m, w, if i + n < m.word then i + n else i + n - m.word)
  {
    hide Lane, Shl, Shr, Or, ShlWord;
    if n > 0 {
      ShiftLane(m, w, if m.little then n else m.word - n, LaneAt(m, i));
    }
  }

  lemma ShiftFits(m: Machine, w: bv64, n: nat)
    requires Fits(m, w) && n < m.word
    ensures Fits(m, CircshiftPreparedKey(m, w, n))
  {
    hide Lane, Shl, Shr, Or, ShlWord;
    if n > 0 {
      forall k | m.word <= k < 8 ensures Lane(CircshiftPreparedKey(m, w, n), k) == 0 {
        ShiftLane(m, w, if m.little then n else m.word - n, k);
      }
    }
  }

  /** Shifting a prepared key rotates the key. */
  lemma ShiftRotates(m: Machine, w: bv64, n: nat)
    requires Prepared(m, w) && n < m.word
    ensures Prepared(m, CircshiftPreparedKey(m, w, n))
    ensures KeyOf(m, CircshiftPreparedKey(m, w, n)) == Rotated(KeyOf(m, w), n)
  {
    hide ByteAt, Fits, CircshiftPreparedKey, KeyByte;
    var s, key := CircshiftPreparedKey(m, w, n), KeyOf(m, w);
    ShiftFits(m, w, n);
    forall i | 0 <= i < m.word ensures ByteAt(m, s, i) == KeyByte(key, n + i) {
      ShiftByte(m, w, n, i);
      var j := if i + n < m.word then i + n else i + n - m.word;
      PreparedByte(m, w, j);
      KeyPeriod(key, j, m.word);
    }
    forall i | 0 <= i < 4 ensures m.word == 8 ==> ByteAt(m, s, i) == ByteAt(m, s, i + 4) {
      KeyPeriod(key, n + i, 4);
    }
  }

  /** The lower four bytes of a prepared key as a key of its own: `key.i = prepared_key`. */
  function LowKey(m: Machine, w: bv64): Key {
    KeyOf(Half(m), Low32(w))
  }

  lemma LowKeyIs(m: Machine, w: bv64)
    requires Prepared(m, w)
    ensures LowKey(m, w) == KeyOf(m, w)
  {
    hide Lane, Low32, Fits;
    forall i | 0 <= i < 4 ensures LowKey(m, w)[i] == KeyOf(m, w)[i] {
      LaneLow(w, LaneAt(Half(m), i));
      assert m.word == 8 ==> ByteAt(m, w, i) == ByteAt(m, w, i + 4);
    }
  }

  // What masking does

  /** Section 5.3 of RFC 6455, from the given position of the key on. */
  function Masked(data: seq<uint8>, key: Key, offset: nat): (r: seq<uint8>)
    ensures |r| == |data|
  {
    seq(|data|, i requires 0 <= i < |data| => Xor8(data[i], KeyByte(key, offset + i)))
  }

  /** Masking twice is the identity. */
  lemma MaskTwice(data: seq<uint8>, key: Key, offset: nat)
    ensures Masked(Masked(data, key, offset), key, offset) == data
  {
    hide Xor8, KeyByte;
    forall i | 0 <= i < |data| ensures Masked(Masked(data, key, offset), key, offset)[i] == data[i] {
      Xor8Twice(data[i], KeyByte(key, offset + i));
    }
  }

  lemma MaskedRotated(data: seq<uint8>, key: Key, n: nat, k: nat)
    ensures Masked(data, Rotated(key, n), k) == Masked(data, key, n + k)
  {
    hide Xor8, KeyByte, Rotated;
    forall i | 0 <= i < |data| ensures Masked(data, Rotated(key, n), k)[i] == Masked(data, key, n + k)[i] {
      RotatedByte(key, n, k + i);
    }
  }

  lemma MaskedConcat(a: seq<uint8>, b: seq<uint8>, key: Key, n: nat)
    ensures Masked(a + b, key, n) == Masked(a, key, n) + Masked(b, key, n + |a|)
  {
    hide Xor8, KeyByte;
  }

  // The methods. A pointer is an array and a position; output may be the same as input.

  /** Both hold `length` bytes, and do not overlap unless they are the same. */
  predicate Buffers(input: array<uint8>, from: nat, output: array<uint8>, to: nat, length: nat) {
    from + length <= input.Length && to + length <= output.Length && (input == output ==> from == to)
  }

  /** Output holds `data`, and is otherwise as it was. */
  ghost predicate Wrote(before: seq<uint8>, after: seq<uint8>, to: nat, data: seq<uint8>) {
    && to + |data| <= |before| == |after|
    && forall k :: 0 <= k < |after| ==> after[k] == if to <= k < to + |data| then data[k - to] else before[k]
  }

  lemma WroteMore(before: seq<uint8>, mid: seq<uint8>, after: seq<uint8>, to: nat, a: seq<uint8>, b: seq<uint8>)
    requires Wrote(before, mid, to, a) && Wrote(mid, after, to + |a|, b)
    ensures Wrote(before, after, to, a + b)
  {
  }

  /** What lies behind the bytes written is as before. */
  lemma WroteBehind(before: seq<uint8>, after: seq<uint8>, to: nat, data: seq<uint8>, from: nat, end: nat)
    requires Wrote(before, after, to, data) && to + |data| <= from <= end <= |before|
    ensures after[from..end] == before[from..end]
  {
  }

  /** The bytes of a masked word are the masked bytes. */
  lemma MaskedWord(m: Machine, read: seq<uint8>, w: bv64)
    requires Prepared(m, w) && |read| == m.word
    ensures BytesOf(m, Xor(WordOf(m, read), w)) == Masked(read, KeyOf(m, w), 0)
  {
    hide Prepared, KeyOf, ByteAt, WordOf, Xor, Xor8, KeyByte;
    forall k | 0 <= k < m.word
      ensures ByteAt(m, Xor(WordOf(m, read), w), k) == Masked(read, KeyOf(m, w), 0)[k]
    {
      WordOfBytes(m, read, k);
      XorByte(m, WordOf(m, read), w, k);
      PreparedByte(m, w, k);
    }
  }

  method WriteWord(m: Machine, output: array<uint8>, at: nat, word: bv64)
    requires at + m.word <= output.Length
    modifies output
    ensures Wrote(old(output[..]), output[..], at, BytesOf(m, word))
  {
    hide ByteAt;
    for i := 0 to m.word
      invariant Wrote(old(output[..]), output[..], at, BytesOf(m, word)[..i])
    {
      output[at + i] := ByteAt(m, word, i);
    }
    assert BytesOf(m, word)[..m.word] == BytesOf(m, word);
  }

  /** n * sizeof(size_t) */
  function Size(m: Machine, n: nat): nat {
    if m.word == 4 then n * 4 else n * 8
  }

  lemma WordEnds(m: Machine, i: nat, n: nat)
    requires i < n
    ensures Size(m, i) + m.word == Size(m, i + 1) <= Size(m, n)
  {
  }

  lemma Fours(m: Machine, n: nat)
    ensures WholeKeys(Size(m, n))
  {
    EightIsFours(n);
  }

  lemma EightIsFours(n: nat)
    ensures n * 4 % 4 == 0 && n * 8 % 4 == 0
  {
  }

  /** `output_word[i] = input_word[i] ^ prepared_key` */
  method MaskWord(m: Machine, input: array<uint8>, from: nat, output: array<uint8>, to: nat, w: bv64)
    requires Buffers(input, from, output, to, m.word) && Prepared(m, w)
    modifies output
    ensures Wrote(old(output[..]), output[..], to, Masked(old(input[from..from + m.word]), KeyOf(m, w), 0))
  {
    hide Prepared, KeyOf, ByteAt, WordOf, Masked, Xor, Wrote, BytesOf;
    var read := input[from..from + m.word];
    var word := Xor(WordOf(m, read), w);
    MaskedWord(m, read, w);
    WriteWord(m, output, to, word);
  }

  /** The loop over whole words. */
  method MaskWords(m: Machine, input: array<uint8>, from: nat, output: array<uint8>, to: nat, n: nat, w: bv64)
    requires Buffers(input, from, output, to, Size(m, n)) && Prepared(m, w)
    modifies output
    ensures Wrote(old(output[..]), output[..], to, Masked(old(input[from..from + Size(m, n)]), KeyOf(m, w), 0))
  {
    hide Prepared, KeyOf, Masked, Wrote, Size;
    var i := 0;
    ghost var all, key := Size(m, n), KeyOf(m, w);
    ghost var data, outputWas, inputWas := input[from..from + all], output[..], input[..];
    WroteNone(output[..], to);
    MaskedNone(key);
    NoWords(m, n);
    assert data[..0] == [];
    while i < n
      invariant i <= n && Size(m, i) <= all
      invariant Wrote(outputWas, output[..], to, Masked(data[..Size(m, i)], key, 0))
    {
      var at := Size(m, i);
      WordEnds(m, i, n);
      Fours(m, i);
      ghost var before := output[..];
      KeepBehind(outputWas, before, input == output, to, at, inputWas, input[..], from, all, Masked(data[..at], key, 0));
      NextSlice(input[..], from, at, m.word, all, data);
      assert input[from + at..from + at + m.word] == input[..][from + at..from + at + m.word];
      MaskWord(m, input, from + at, output, to + at, w);
      NextWord(outputWas, before, output[..], to, at, m.word, data, key);
      i := i + 1;
    }
    assert data[..all] == data;
  }

  lemma NoWords(m: Machine, n: nat)
    ensures Size(m, 0) == 0 <= Size(m, n)
  {
  }

  /** The next n of the bytes of s that are still those of data. */
  lemma NextSlice(s: seq<uint8>, from: nat, at: nat, n: nat, all: nat, data: seq<uint8>)
    requires at + n <= all == |data| && from + all <= |s| && s[from + at..from + all] == data[at..]
    ensures s[from + at..from + at + n] == data[at..at + n]
  {
    assert s[from + at..from + all][..n] == s[from + at..from + at + n];
  }

  lemma NextWord(whole: seq<uint8>, before: seq<uint8>, after: seq<uint8>, to: nat, at: nat, n: nat, data: seq<uint8>, key: Key)
    requires at + n <= |data| && WholeKeys(at) && Wrote(whole, before, to, Masked(data[..at], key, 0))
    requires Wrote(before, after, to + at, Masked(data[at..at + n], key, 0))
    ensures Wrote(whole, after, to, Masked(data[..at + n], key, 0))
  {
    hide Wrote, Masked, Rotated;
    RotatedPeriod(key, 0, at);
    RotatedNone(key);
    MaskedRotated(data[at..at + n], key, at, 0);
    MaskedConcat(data[..at], data[at..at + n], key, 0);
    assert data[..at] + data[at..at + n] == data[..at + n];
    WroteMore(whole, before, after, to, Masked(data[..at], key, 0), Masked(data[at..at + n], key, at));
  }

  lemma WroteNone(s: seq<uint8>, to: nat)
    requires to <= |s|
    ensures Wrote(s, s, to, [])
  {
  }

  lemma MaskedParts(data: seq<uint8>, k: nat, key: Key, n: nat)
    requires k <= |data|
    ensures Masked(data, key, n) == Masked(data[..k], key, n) + Masked(data[k..], key, n + k)
  {
    assert data[..k] + data[k..] == data;
    MaskedConcat(data[..k], data[k..], key, n);
  }

  /** The loop over single bytes; `keyAt` is how the caller finds the key byte for a position. */
  method MaskRest(input: array<uint8>, from: nat, output: array<uint8>, to: nat, start: nat, length: nat,
                  keyAt: nat --> uint8, ghost key: Key)
    requires start <= length && Buffers(input, from, output, to, length)
    requires forall i :: start <= i < length ==> keyAt.requires(i) && keyAt(i) == KeyByte(key, i)
    modifies output
    ensures Wrote(old(output[..]), output[..], to + start, Masked(old(input[from + start..from + length]), key, start))
  {
    hide Xor8, Wrote, KeyByte, Masked;
    var i := start;
    ghost var data, outputWas, inputWas := input[from + start..from + length], output[..], input[..];
    ghost var masked := Masked(data, key, start);
    WroteNone(output[..], to + start);
    assert masked[..0] == [];
    while i < length
      invariant start <= i <= length
      invariant Wrote(outputWas, output[..], to + start, masked[..i - start])
    {
      ghost var before, k := output[..], i - start;
      KeepBehind(outputWas, before, input == output, to + start, k, inputWas, input[..], from + start, length - start, masked[..k]);
      FirstBehind(input[..], from + i, from + length, data, k);
      MaskedAt(data, key, start, k);
      output[to + i] := Xor8(input[from + i], keyAt(i));
      WroteOne(before, output[..], to + i, masked[k]);
      assert masked[..k] + [masked[k]] == masked[..k + 1];
      WroteMore(outputWas, before, output[..], to + start, masked[..k], [masked[k]]);
      i := i + 1;
    }
    assert masked[..length - start] == masked;
  }

  lemma FirstBehind(s: seq<uint8>, from: nat, end: nat, data: seq<uint8>, k: nat)
    requires from < end <= |s| && k < |data| && s[from..end] == data[k..]
    ensures s[from] == data[k]
  {
    assert s[from..end][0] == data[k..][0];
  }

  lemma MaskedAt(data: seq<uint8>, key: Key, n: nat, i: nat)
    requires i < |data|
    ensures Masked(data, key, n)[i] == Xor8(data[i], KeyByte(key, n + i))
  {
  }

  lemma WroteOne(before: seq<uint8>, after: seq<uint8>, at: nat, b: uint8)
    requires at < |before| && after == before[at := b]
    ensures Wrote(before, after, at, [b])
  {
  }

  /** byte_mask, which takes the key from any position on. */
  method ByteMask(input: array<uint8>, from: nat, length: nat, output: array<uint8>, to: nat, key: Key, keyOffset: nat)
    requires Buffers(input, from, output, to, length)
    modifies output
    ensures Wrote(old(output[..]), output[..], to, Masked(old(input[from..from + length]), key, keyOffset))
  {
    hide Xor8, Wrote, Masked, KeyIndex;
    var keyIndex, i := KeyIndex(keyOffset), 0;
    ghost var data, outputWas, inputWas := input[from..from + length], output[..], input[..];
    ghost var masked := Masked(data, key, keyOffset);
    WroteNone(output[..], to);
    assert masked[..0] == [];
    while i != length
      invariant i <= length && keyIndex == KeyIndex(keyOffset + i)
      invariant Wrote(outputWas, output[..], to, masked[..i])
    {
      ghost var before := output[..];
      KeepBehind(outputWas, before, input == output, to, i, inputWas, input[..], from, length, masked[..i]);
      assert input[from + i] == input[..][from + i..from + length][0] == data[i..][0];
      MaskedAt(data, key, keyOffset, i);
      KeyIndexNext(keyOffset + i);
      output[to + i] := Xor8(input[from + i], key[keyIndex]);
      WroteOne(before, output[..], to + i, masked[i]);
      assert masked[..i] + [masked[i]] == masked[..i + 1];
      WroteMore(outputWas, before, output[..], to, masked[..i], [masked[i]]);
      keyIndex := (keyIndex + 1) % 4;
      i := i + 1;
    }
    assert masked[..length] == masked;
  }

  /** word_mask_exact: the bytes of byte_mask, whole words first. */
  method WordMaskExact(m: Machine, input: array<uint8>, from: nat, output: array<uint8>, to: nat, length: nat, key: Key)
    requires Buffers(input, from, output, to, length)
    modifies output
    ensures Wrote(old(output[..]), output[..], to, Masked(old(input[from..from + length]), key, 0))
  {
    hide Size, Wrote, Masked, KeyOf, Prepared, PrepareMaskingKey, WordCount, WholeKeys;
    var preparedKey := PrepareMaskingKey(m, key);
    PrepareIsPrepared(m, key);
    var n := WordCount(m, length);
    var start := Size(m, n);
    ghost var data := input[from..from + length];
    WholeWords(m, length);
    assert data[..start] == input[from..from + start];
    MaskWords(m, input, from, output, to, n, preparedKey);
    ghost var mid := output[..];
    KeepBehind(old(output[..]), mid, input == output, to, start, old(input[..]), input[..], from, length,
               Masked(old(input[from..from + start]), key, 0));
    MaskRest(input, from, output, to, start, length, i => key[i % 4], key);
    assert data[start..] == old(input[from + start..from + length]);
    TwoParts(old(output[..]), mid, output[..], to, data, start, key);
  }

  /** How many whole words fit. */
  function WordCount(m: Machine, length: nat): nat {
    length / m.word
  }

  /** The part of the key that the end of a chunk takes. */
  lemma KeyRest(length: nat)
    ensures length % 4 < 4 && WholeKeys(length - length % 4)
  {
  }

  lemma WholeWords(m: Machine, length: nat)
    ensures var n := WordCount(m, length);
            Size(m, n) <= length < Size(m, n) + m.word && WholeKeys(Size(m, n))
  {
    Fours(m, WordCount(m, length));
  }

  /** The bytes of input that are not masked yet are still there. */
  lemma KeepBehind(before: seq<uint8>, after: seq<uint8>, same: bool, to: nat, done: nat,
                   inputBefore: seq<uint8>, inputAfter: seq<uint8>, from: nat, length: nat, data: seq<uint8>)
    requires Wrote(before, after, to, data) && |data| == done <= length && from + length <= |inputBefore|
    requires if same then inputBefore == before && inputAfter == after && from == to else inputAfter == inputBefore
    ensures inputAfter[from + done..from + length] == inputBefore[from..from + length][done..]
  {
    if same {
      WroteBehind(before, after, to, data, from + done, from + length);
    }
  }

  lemma TwoParts(before: seq<uint8>, mid: seq<uint8>, after: seq<uint8>, to: nat, data: seq<uint8>, k: nat, key: Key)
    requires k <= |data|
    requires Wrote(before, mid, to, Masked(data[..k], key, 0)) && Wrote(mid, after, to + k, Masked(data[k..], key, k))
    ensures Wrote(before, after, to, Masked(data, key, 0))
  {
    hide Wrote, Masked;
    MaskedParts(data, k, key, 0);
    WroteMore(before, mid, after, to, Masked(data[..k], key, 0), Masked(data[k..], key, k));
  }

  /** word_mask_circ: returns the key with which the next chunk goes on. */
  method WordMaskCirc(m: Machine, input: array<uint8>, from: nat, output: array<uint8>, to: nat, length: nat, w: bv64)
    returns (next: bv64)
    requires Buffers(input, from, output, to, length) && Prepared(m, w)
    modifies output
    ensures Wrote(old(output[..]), output[..], to, Masked(old(input[from..from + length]), KeyOf(m, w), 0))
    ensures Prepared(m, next) && KeyOf(m, next) == Rotated(KeyOf(m, w), length)
  {
    hide Size, Wrote, Masked, KeyOf, Prepared, CircshiftPreparedKey, Rotated, WordCount, WholeKeys;
    var n := WordCount(m, length);
    var start := Size(m, n);
    var l := length - start;
    WholeWords(m, length);
    ghost var data, key := input[from..from + length], KeyOf(m, w);
    assert data[..start] == input[from..from + start];
    MaskWords(m, input, from, output, to, n, w);
    ghost var mid := output[..];
    KeepBehind(old(output[..]), mid, input == output, to, start, old(input[..]), input[..], from, length,
               Masked(old(input[from..from + start]), key, 0));
    MaskBehind(m, input, from, output, to, start, length, w);
    assert data[start..] == old(input[from + start..from + length]);
    TwoParts(old(output[..]), mid, output[..], to, data, start, key);
    next := CircshiftPreparedKey(m, w, l);
    ShiftRotates(m, w, l);
    RotatedPeriod(key, l, start);
  }

  /** The bytes behind the last whole word, masked with the bytes of the prepared key. */
  method MaskBehind(m: Machine, input: array<uint8>, from: nat, output: array<uint8>, to: nat, start: nat, length: nat,
                    w: bv64)
    requires Buffers(input, from, output, to, length) && Prepared(m, w)
    requires WholeKeys(start) && start <= length < start + m.word
    modifies output
    ensures Wrote(old(output[..]), output[..], to + start,
                  Masked(old(input[from + start..from + length]), KeyOf(m, w), start))
  {
    hide Wrote, Masked, KeyOf, Prepared, KeyByte, ByteAt, WholeKeys;
    ghost var key := KeyOf(m, w);
    forall i | 0 <= i < length - start ensures ByteAt(m, w, i) == KeyByte(key, start + i) {
      PreparedByte(m, w, i);
      KeyPeriod(key, i, start);
    }
    var byteKey: nat --> uint8 := i requires start <= i < start + m.word => ByteAt(m, w, i - start);
    assert forall i :: start <= i < length ==> byteKey(i) == KeyByte(key, start + (i - start));
    MaskRest(input, from, output, to, start, length, byteKey, key);
  }

  /** byte_mask_circ: on a prepared key, the lower half is the key whatever the byte order. */
  method ByteMaskCirc(m: Machine, input: array<uint8>, from: nat, output: array<uint8>, to: nat, length: nat, w: bv64)
    returns (next: bv64)
    requires Buffers(input, from, output, to, length) && Prepared(m, w)
    modifies output
    ensures Wrote(old(output[..]), output[..], to, Masked(old(input[from..from + length]), KeyOf(m, w), 0))
    ensures Prepared(m, next) && KeyOf(m, next) == Rotated(KeyOf(m, w), length)
  {
    hide Wrote, Masked, KeyOf, Prepared, CircshiftPreparedKey, Rotated, LowKey, WholeKeys;
    var key := LowKey(m, w);
    LowKeyIs(m, w);
    MaskRest(input, from, output, to, 0, length, i => key[i % 4], key);
    next := CircshiftPreparedKey(m, w, length % 4);
    ShiftRotates(m, w, length % 4);
    KeyRest(length);
    RotatedPeriod(key, length % 4, length - length % 4);
  }

  // Streaming

  /** One chunk of a message, and which of the two functions masks it. */
  datatype Chunk = Chunk(size: nat, byWords: bool)

  function Total(chunks: seq<Chunk>): nat {
    if chunks == [] then 0 else chunks[0].size + Total(chunks[1..])
  }

  /**
   * A message masked chunk by chunk, in place or into another buffer, in whatever way it is split and with
   * either function for each chunk, the returned key fed into the next call: the bytes of one byte_mask over
   * the whole.
   */
  method MaskChunks(m: Machine, input: array<uint8>, from: nat, output: array<uint8>, to: nat, chunks: seq<Chunk>,
                    key: Key)
    requires Buffers(input, from, output, to, Total(chunks))
    modifies output
    ensures Wrote(old(output[..]), output[..], to, Masked(old(input[from..from + Total(chunks)]), key, 0))
  {
    hide Wrote, Masked, KeyOf, Prepared, PrepareMaskingKey, Rotated;
    var w, at, i := PrepareMaskingKey(m, key), 0, 0;
    PrepareIsPrepared(m, key);
    ghost var all := Total(chunks);
    ghost var data, outputWas, inputWas := input[from..from + all], output[..], input[..];
    WroteNone(outputWas, to);
    RotatedNone(key);
    MaskedNone(key);
    assert data[..0] == [];
    while i < |chunks|
      invariant 0 <= at && i <= |chunks| && at + Total(chunks[i..]) == all
      invariant Prepared(m, w) && KeyOf(m, w) == Rotated(key, at)
      invariant Wrote(outputWas, output[..], to, Masked(data[..at], key, 0))
    {
      assert chunks[i..][0] == chunks[i] && chunks[i..][1..] == chunks[i + 1..];
      var size := chunks[i].size;
      ghost var before := output[..];
      KeepBehind(outputWas, before, input == output, to, at, inputWas, input[..], from, all, Masked(data[..at], key, 0));
      NextSlice(input[..], from, at, size, all, data);
      assert input[from + at..from + at + size] == input[..][from + at..from + at + size];
      if chunks[i].byWords {
        w := WordMaskCirc(m, input, from + at, output, to + at, size, w);
      } else {
        w := ByteMaskCirc(m, input, from + at, output, to + at, size, w);
      }
      NextChunk(outputWas, before, output[..], to, data, at, size, key);
      RotatedTwice(key, at, size);
      at, i := at + size, i + 1;
    }
    assert chunks[|chunks|..] == [] && data[..at] == data;
  }

  lemma RotatedNone(key: Key)
    ensures Rotated(key, 0) == key
  {
  }

  lemma MaskedNone(key: Key)
    ensures Masked([], key, 0) == []
  {
  }

  lemma NextChunk(was: seq<uint8>, before: seq<uint8>, after: seq<uint8>, to: nat, data: seq<uint8>, at: nat, size: nat,
                  key: Key)
    requires at + size <= |data| && Wrote(was, before, to, Masked(data[..at], key, 0))
    requires Wrote(before, after, to + at, Masked(data[at..at + size], Rotated(key, at), 0))
    ensures Wrote(was, after, to, Masked(data[..at + size], key, 0))
  {
    hide Wrote, Masked, Rotated;
    MaskedRotated(data[at..at + size], key, at, 0);
    MaskedConcat(data[..at], data[at..at + size], key, 0);
    assert data[..at] + data[at..at + size] == data[..at + size];
    WroteMore(was, before, after, to, Masked(data[..at], key, 0), Masked(data[at..at + size], key, at));
  }
}
