/** MD5, sections 3.1 to 3.4 of RFC 1321: padding, length and streaming, for any block function. */
module Md5 {
  import opened Bytes

  type Word = w: int | 0 <= w < TWO_TO_THE_32 witness 0

  /** The digest buffer. */
  datatype Abcd = Abcd(a: Word, b: Word, c: Word, d: Word)

  /** md5_process: what one block of 64 bytes makes of the digest buffer. */
  type Process = (Abcd, bytes) -> Abcd

  const INIT: Abcd := Abcd(0x67452301, 0xefcdab89, 0x98badcfe, 0x10325476)

  // What a message hashes to

  /** The block function over the whole blocks of a text, first to last. */
  function Fold(process: Process, d: Abcd, s: bytes): Abcd
    decreases |s|
  {
    if |s| < 64 then d else Fold(process, process(d, s[..64]), s[64..])
  }

  /** The low n bytes of a number, least significant first. */
  function LittleEndian(v: nat, n: nat): (r: bytes)
    ensures |r| == n
    decreases n
  {
    if n == 0 then [] else [v % 256] + LittleEndian(v / 256, n - 1)
  }

  function Zeros(n: nat): (r: bytes)
    ensures |r| == n
  {
    seq(n, i => 0)
  }

  /** The number of zeros that pad to 56 bytes mod 64, behind the byte 0x80. */
  function ZeroCount(length: nat): nat {
    (55 - length) % 64
  }

  /** Sections 3.1 and 3.2: a one bit, zeros, and the length in bits mod 2^64. */
  function Padded(m: bytes): bytes {
    m + [0x80] + Zeros(ZeroCount(|m|)) + LittleEndian(8 * |m| % TWO_TO_THE_64, 8)
  }

  function DigestBytes(d: Abcd): (r: bytes)
    ensures |r| == 16
  {
    LittleEndian(d.a, 4) + LittleEndian(d.b, 4) + LittleEndian(d.c, 4) + LittleEndian(d.d, 4)
  }

  function Hash(process: Process, m: bytes): bytes {
    DigestBytes(Fold(process, INIT, Padded(m)))
  }

  lemma PaddedIsBlocks(m: bytes)
    ensures |Padded(m)| % 64 == 0 && |Padded(m)| - |m| - 8 <= 64
  {
    hide LittleEndian, Zeros;
    PaddingFits(|m|);
    assert |Padded(m)| == |m| + 1 + ZeroCount(|m|) + 8;
  }

  lemma PaddingFits(n: nat)
    ensures (n + 1 + ZeroCount(n) + 8) % 64 == 0 && ZeroCount(n) < 64
  {
    var q := (55 - n) / 64;
    assert 55 - n == 64 * q + ZeroCount(n);
    assert n + 1 + ZeroCount(n) + 8 == 64 * (1 - q);
  }

  lemma {:induction false} FoldConcat(process: Process, d: Abcd, a: bytes, b: bytes)
    requires Blocks(|a|)
    ensures Fold(process, d, a + b) == Fold(process, Fold(process, d, a), b)
    decreases |a|
  {
    if a == [] {
      assert a + b == b;
    } else {
      assert (a + b)[..64] == a[..64] && (a + b)[64..] == a[64..] + b;
      FoldConcat(process, process(d, a[..64]), a[64..], b);
    }
  }

  lemma FoldOne(process: Process, d: Abcd, block: bytes)
    requires |block| == 64
    ensures Fold(process, d, block) == process(d, block)
  {
    assert block[..64] == block;
    assert Fold(process, process(d, block), block[64..]) == process(d, block);
  }

  // The bit count, in two 32-bit words

  lemma SplitBits(n: nat)
    ensures 8 * n == n / 0x2000_0000 * TWO_TO_THE_32 + 8 * n % TWO_TO_THE_32
  {
    var q, r := n / 0x2000_0000, n % 0x2000_0000;
    assert n == q * 0x2000_0000 + r;
    assert 8 * n == q * TWO_TO_THE_32 + 8 * r;
  }

  lemma HighLow(high: nat, low: nat)
    requires low < TWO_TO_THE_32
    ensures (high * TWO_TO_THE_32 + low) % TWO_TO_THE_64 == high % TWO_TO_THE_32 * TWO_TO_THE_32 + low
  {
    var q := high / TWO_TO_THE_32;
    assert high == q * TWO_TO_THE_32 + high % TWO_TO_THE_32;
    assert high * TWO_TO_THE_32 + low == q * TWO_TO_THE_64 + (high % TWO_TO_THE_32 * TWO_TO_THE_32 + low);
  }

  /** The bit count of n bytes, mod 2^64. */
  predicate Counts(low: Word, high: Word, n: nat) {
    high * TWO_TO_THE_32 + low == 8 * n % TWO_TO_THE_64
  }

  function LowAfter(low: Word, k: nat): Word {
    (low + 8 * k % TWO_TO_THE_32) % TWO_TO_THE_32
  }

  function HighAfter(low: Word, high: Word, k: nat): Word {
    var h := (high + k / 0x2000_0000) % TWO_TO_THE_32;
    if LowAfter(low, k) < 8 * k % TWO_TO_THE_32 then (h + 1) % TWO_TO_THE_32 else h
  }

  /** Adding the bits of k bytes, with the carry between the words. */
  lemma {:induction false} CountsAdd(low: Word, high: Word, n: nat, k: nat)
    requires Counts(low, high, n)
    ensures Counts(LowAfter(low, k), HighAfter(low, high, k), n + k)
  {
    var bits, low' := 8 * k % TWO_TO_THE_32, LowAfter(low, k);
    var carry := if low' < bits then 1 else 0;
    SplitBits(k);
    assert low + bits == carry * TWO_TO_THE_32 + low';
    HighIs(low, high, k);
    HighLow(high + k / 0x2000_0000 + carry, low');
    AddModulo(8 * n, 8 * k);
  }

  lemma HighIs(low: Word, high: Word, k: nat)
    ensures var carry := if LowAfter(low, k) < 8 * k % TWO_TO_THE_32 then 1 else 0;
            HighAfter(low, high, k) == (high + k / 0x2000_0000 + carry) % TWO_TO_THE_32
  {
    hide LowAfter;
  }

  lemma AddModulo(a: nat, b: nat)
    ensures (a % TWO_TO_THE_64 + b) % TWO_TO_THE_64 == (a + b) % TWO_TO_THE_64
  {
    var q := a / TWO_TO_THE_64;
    assert a == q * TWO_TO_THE_64 + a % TWO_TO_THE_64;
    assert a + b == q * TWO_TO_THE_64 + (a % TWO_TO_THE_64 + b);
  }

  /** What the low word of a bit count says of the byte count. */
  lemma LowWordIs(low: Word, high: Word, n: nat)
    requires Counts(low, high, n)
    ensures low / 8 % 64 == n % 64 && (55 - low / 8) % 64 == (55 - n) % 64
  {
    var q := 8 * n / TWO_TO_THE_64;
    assert 8 * n == q * TWO_TO_THE_64 + high * TWO_TO_THE_32 + low;
    assert low == 8 * (n - q * 0x2000_0000_0000_0000 - high * 0x2000_0000);
    var k := q * 0x2000_0000_0000_0000 + high * 0x2000_0000;
    assert n - low / 8 == k == 64 * (q * 0x80_0000_0000_0000 + high * 0x80_0000);
    Congruent(n, low / 8, q * 0x80_0000_0000_0000 + high * 0x80_0000);
  }

  lemma Congruent(a: int, b: int, k: int)
    requires a - b == 64 * k
    ensures a % 64 == b % 64 && (55 - a) % 64 == (55 - b) % 64
  {
  }

  /** A whole number of blocks. */
  predicate Blocks(n: nat) {
    n % 64 == 0
  }

  lemma BlocksNext(n: nat)
    requires Blocks(n)
    ensures Blocks(n + 64)
  {
  }

  /** The length of the whole blocks of n bytes, and of what is left. */
  function Whole(n: nat): (k: nat)
    ensures k <= n && Blocks(k)
  {
    n - n % 64
  }

  function Rest(n: nat): (k: nat)
    ensures k < 64 && Whole(n) + k == n
  {
    n % 64
  }

  lemma WholeIs(n: nat, done: nat)
    requires Blocks(done) && done <= n < done + 64
    ensures Whole(n) == done && Rest(n) == n - done
  {
  }

  // Bytes of words

  function Power(k: nat): nat {
    if k == 0 then 1 else 256 * Power(k - 1)
  }

  lemma LittleEndianByte(v: nat, i: nat)
    requires i < 4
    ensures Power(i) > 0 && LittleEndian(v, 4)[i] == v / Power(i) % 256
  {
    assert v / 256 / 256 == v / 0x1_0000 && v / 256 / 256 / 256 == v / 0x100_0000;
    FourBytes(v);
    assert Power(1) == 256 && Power(2) == 0x1_0000 && Power(3) == 0x100_0000;
  }

  lemma FourBytes(v: nat)
    ensures LittleEndian(v, 4) == [v % 256, v / 256 % 256, v / 256 / 256 % 256, v / 256 / 256 / 256 % 256]
  {
    assert LittleEndian(v / 256 / 256 / 256, 1) == [v / 256 / 256 / 256 % 256];
    assert LittleEndian(v / 256 / 256, 2) == [v / 256 / 256 % 256] + LittleEndian(v / 256 / 256 / 256, 1);
  }

  /** The low k bytes, then those above. */
  lemma {:induction false} LittleEndianSplit(low: nat, high: nat, k: nat, n: nat)
    requires low < Power(k)
    ensures LittleEndian(high * Power(k) + low, k + n) == LittleEndian(low, k) + LittleEndian(high, n)
    decreases k
  {
    if k > 0 {
      var p := high * Power(k - 1);
      PowerStep(high, k);
      LowestByte(p, low);
      assert LittleEndian(256 * p + low, k + n) == [low % 256] + LittleEndian(p + low / 256, k - 1 + n);
      LittleEndianSplit(low / 256, high, k - 1, n);
    }
  }

  lemma PowerStep(high: nat, k: nat)
    requires k > 0
    ensures high * Power(k) == 256 * (high * Power(k - 1))
  {
  }

  lemma LowestByte(p: nat, low: nat)
    ensures (256 * p + low) % 256 == low % 256 && (256 * p + low) / 256 == p + low / 256
  {
  }

  function WordBytes(words: seq<Word>): (r: bytes)
    ensures |r| == 4 * |words|
  {
    if words == [] then [] else LittleEndian(words[0], 4) + WordBytes(words[1..])
  }

  lemma {:induction false} WordByte(words: seq<Word>, i: nat)
    requires i < 4 * |words|
    ensures Power(i % 4) > 0 && WordBytes(words)[i] == words[i / 4] / Power(i % 4) % 256
    decreases |words|
  {
    hide LittleEndian, Power;
    if i < 4 {
      LittleEndianByte(words[0], i);
    } else {
      WordByte(words[1..], i - 4);
    }
  }

  /** The loop that both the length and the digest are written with. */
  method Spread(words: seq<Word>) returns (out: bytes)
    ensures out == WordBytes(words)
  {
    hide WordBytes, Power;
    out := [];
    for i := 0 to 4 * |words|
      invariant out == WordBytes(words)[..i]
    {
      WordByte(words, i);
      out := out + [words[i / 4] / Power(i % 4) % 256];
    }
  }

  class Md5State {
    var low: Word
    var high: Word
    var abcd: Abcd
    const buf: array<byte>
    const process: Process
    /** All bytes appended so far. */
    ghost var message: bytes

    ghost predicate Valid()
      reads this, buf
    {
      && Counts(low, high, |message|)
      && Holds(message)
    }

    /** The whole blocks of the message are processed, and the rest is in the buffer. */
    ghost predicate Holds(m: bytes)
      reads this`abcd, buf
    {
      && buf.Length == 64
      && abcd == Fold(process, INIT, m[..Whole(|m|)])
      && buf[..Rest(|m|)] == m[Whole(|m|)..]
    }

    /** md5_init */
    constructor (process: Process)
      ensures Valid() && fresh(buf) && message == [] && this.process == process
    {
      low, high, abcd := 0, 0, INIT;
      this.process := process;
      buf := new byte[64];
      message := [];
    }

    /** memcpy into the buffer. */
    method CopyToBuf(offset: nat, data: bytes, p: nat, n: nat)
      requires p + n <= |data| && offset + n <= buf.Length == 64
      modifies buf
      ensures buf[..offset + n] == old(buf[..offset]) + data[p..p + n]
    {
      for i := 0 to n
        invariant buf[..offset + i] == old(buf[..offset]) + data[p..p + i]
      {
        buf[offset + i] := data[p + i];
        assert buf[..offset + i + 1] == buf[..offset + i] + [data[p + i]];
      }
    }

    /** The message length grows by nbytes. */
    method UpdateLength(nbytes: nat, ghost n: nat)
      requires Counts(low, high, n)
      modifies this`low, this`high
      ensures Counts(low, high, n + nbytes)
    {
      hide Counts;
      CountsAdd(low, high, n, nbytes);
      var nbits := 8 * nbytes % TWO_TO_THE_32;
      high := (high + nbytes / 0x2000_0000) % TWO_TO_THE_32;
      low := (low + nbits) % TWO_TO_THE_32;
      if low < nbits {
        high := (high + 1) % TWO_TO_THE_32;
      }
    }

    /** md5_append */
    method Append(data: bytes)
      requires Valid()
      modifies this`low, this`high, this`abcd, this`message, buf
      ensures Valid() && message == old(message) + data
    {
      hide Fold, Counts, Whole, Rest;
      ghost var was := message;
      OffsetIs(low, high, |was|);
      var offset := low / 8 % 64;
      if |data| <= 0 {
        assert message + data == message;
        return;
      }
      UpdateLength(|data|, |was|);
      message := was + data;
      AppendBytes(was, data, offset);
    }

    /** The part of md5_append behind the length. */
    method AppendBytes(ghost was: bytes, data: bytes, offset: nat)
      requires data != [] && offset == Rest(|was|) && Holds(was)
      modifies this`abcd, buf
      ensures Holds(was + data)
    {
      hide Fold, Whole, Rest, Blocks;
      ghost var m, done := was + data, Whole(|was|);
      var p := 0;
      SplitAt(was, data, done);
      if offset != 0 {
        var copy := if offset + |data| > 64 then 64 - offset else |data|;
        CopyToBuf(offset, data, 0, copy);
        FilledUp(was, data, done, copy);
        assert buf[..offset + copy] == m[done..done + offset + copy];
        if offset + copy < 64 {
          WholeIs(|m|, done);
          return;
        }
        p := copy;
        assert buf[..] == buf[..64];
        NextBlock(process, m, done, buf[..]);
        BlocksNext(done);
        abcd := process(abcd, buf[..]);
        done := done + 64;
      }
      AppendBlocks(m, done, data, p);
    }

    /** Whole blocks are processed straight from the data, and what is left is kept. */
    method AppendBlocks(ghost m: bytes, ghost from: nat, data: bytes, start: nat)
      requires buf.Length == 64 && start <= |data| && Blocks(from)
      requires from <= |m| && m[from..] == data[start..] && abcd == Fold(process, INIT, m[..from])
      modifies this`abcd, buf
      ensures Holds(m)
    {
      hide Fold, Whole, Rest, Blocks;
      ghost var done: nat := from;
      var p := start;
      while |data| - p >= 64
        invariant start <= p <= |data| && Blocks(done) && done <= |m| && m[done..] == data[p..]
        invariant abcd == Fold(process, INIT, m[..done])
      {
        NextSlices(m, done, data, p);
        NextBlock(process, m, done, data[p..p + 64]);
        BlocksNext(done);
        abcd := process(abcd, data[p..p + 64]);
        p, done := p + 64, done + 64;
      }
      assert |m[done..]| == |data[p..]|;
      WholeIs(|m|, done);
      if |data| - p != 0 {
        CopyToBuf(0, data, p, |data| - p);
      }
      assert buf[..|data| - p] == data[p..p + (|data| - p)] == data[p..];
    }

    /** md5_finish */
    method Finish() returns (digest: bytes)
      requires Valid()
      modifies this`low, this`high, this`abcd, this`message, buf
      ensures digest == Hash(process, old(message))
    {
      hide Fold, Counts, Whole, Rest, LittleEndian, WordBytes;
      ghost var m := message;
      var data := Spread([low, high]);
      LengthIs(low, high, |m|);
      OffsetIs(low, high, |m|);
      var zeros := Zeros((55 - low / 8) % 64);
      Append([0x80] + zeros);
      Append(data);
      assert message == Padded(m) by {
        assert message == m + ([0x80] + zeros) + data == m + [0x80] + zeros + data;
      }
      PaddedIsBlocks(m);
      WholeIs(|message|, |message|);
      assert message[..|message|] == message;
      digest := Spread([abcd.a, abcd.b, abcd.c, abcd.d]);
      FourWords(abcd);
    }
  }

  lemma SplitAt(was: bytes, data: bytes, done: nat)
    requires done <= |was|
    ensures (was + data)[..done] == was[..done]
    ensures done == |was| ==> (was + data)[done..] == data
  {
  }

  /** What the buffer held, and the bytes behind it. */
  lemma FilledUp(was: bytes, data: bytes, done: nat, copy: nat)
    requires done <= |was| && copy <= |data|
    ensures was[done..] + data[0..copy] == (was + data)[done..|was| + copy]
    ensures (was + data)[|was| + copy..] == data[copy..]
  {
  }

  /** Where the rest of the message is the rest of the data, so is its next block. */
  lemma NextSlices(m: bytes, done: nat, data: bytes, p: nat)
    requires done <= |m| && p + 64 <= |data| && m[done..] == data[p..]
    ensures done + 64 <= |m| && data[p..p + 64] == m[done..done + 64] && data[p + 64..] == m[done + 64..]
  {
    assert |m[done..]| == |data[p..]|;
    assert data[p..p + 64] == data[p..][..64] && m[done..][..64] == m[done..done + 64];
    assert data[p + 64..] == data[p..][64..] && m[done..][64..] == m[done + 64..];
  }

  lemma OffsetIs(low: Word, high: Word, n: nat)
    requires Counts(low, high, n)
    ensures low / 8 % 64 == Rest(n) && (55 - low / 8) % 64 == ZeroCount(n)
  {
    LowWordIs(low, high, n);
  }

  lemma LengthIs(low: Word, high: Word, n: nat)
    requires Counts(low, high, n)
    ensures WordBytes([low, high]) == LittleEndian(8 * n % TWO_TO_THE_64, 8)
  {
    hide LittleEndian;
    assert Power(4) == TWO_TO_THE_32;
    LittleEndianSplit(low, high, 4, 4);
    assert [low, high][1..] == [high] && [high][1..] == [];
    assert WordBytes([high]) == LittleEndian(high, 4) + [];
  }

  lemma FourWords(d: Abcd)
    ensures WordBytes([d.a, d.b, d.c, d.d]) == DigestBytes(d)
  {
    hide LittleEndian;
    assert [d.a, d.b, d.c, d.d][1..] == [d.b, d.c, d.d] && [d.b, d.c, d.d][1..] == [d.c, d.d];
    assert [d.c, d.d][1..] == [d.d] && [d.d][1..] == [];
    assert WordBytes([d.d]) == LittleEndian(d.d, 4);
    assert WordBytes([d.c, d.d]) == LittleEndian(d.c, 4) + LittleEndian(d.d, 4);
    assert WordBytes([d.b, d.c, d.d]) == LittleEndian(d.b, 4) + (LittleEndian(d.c, 4) + LittleEndian(d.d, 4));
  }

  lemma NextBlock(process: Process, m: bytes, done: nat, block: bytes)
    requires Blocks(done) && done + 64 <= |m| && block == m[done..done + 64]
    ensures Fold(process, INIT, m[..done + 64]) == process(Fold(process, INIT, m[..done]), block)
  {
    hide Fold;
    assert m[..done + 64] == m[..done] + block;
    FoldConcat(process, INIT, m[..done], block);
    FoldOne(process, Fold(process, INIT, m[..done]), block);
  }

  /** md5_init, md5_append for each chunk, md5_finish: the hash of the message, however it is split. */
  method HashChunks(process: Process, chunks: seq<bytes>) returns (digest: bytes)
    ensures digest == Hash(process, Concat(chunks))
  {
    hide Hash, Fold, Counts, Whole, Rest, Md5State.Valid;
    var state := new Md5State(process);
    var i := 0;
    while i < |chunks|
      invariant i <= |chunks| && state.Valid() && fresh(state) && fresh(state.buf) && state.process == process
      invariant state.message + Concat(chunks[i..]) == Concat(chunks)
    {
      assert chunks[i..][0] == chunks[i] && chunks[i..][1..] == chunks[i + 1..];
      ghost var rest := Concat(chunks[i + 1..]);
      assert state.message + (chunks[i] + rest) == state.message + chunks[i] + rest;
      state.Append(chunks[i]);
      i := i + 1;
    }
    assert chunks[|chunks|..] == [] && state.message + [] == state.message;
    digest := state.Finish();
  }
}
