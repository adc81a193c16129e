/** MemoryPoolAllocator: a linked list of chunks that is changed in place. */
module Allocator {
  import opened Bytes
  import S = AllocatorSpec

  class ChunkHeader {
    const address: nat
    var capacity: nat
    var size: nat
    var next: ChunkHeader?

    constructor (address: nat, capacity: nat, next: ChunkHeader?)
      ensures Value() == S.Chunk(address, capacity, 0) && this.next == next
    {
      this.address, this.capacity, this.size, this.next := address, capacity, 0, next;
    }

    function Value(): S.Chunk
      reads this
    {
      S.Chunk(address, capacity, size)
    }
  }

  class MemoryPoolAllocator {
    var chunkHead: ChunkHeader?
    const chunkCapacity: nat
    const userBuffer: ChunkHeader?
    /** The address space. */
    const memory: array<byte>
    /** The addresses given back to the base allocator. */
    var freed: seq<nat>
    /** The chunks that chunkHead leads to. */
    ghost var list: seq<ChunkHeader>

    ghost predicate Linked()
      reads this, list
    {
      Path(chunkHead, list) && (userBuffer != null ==> list != [] && list[|list| - 1] == userBuffer)
    }

    ghost function Pool(): S.Pool
      reads this, list, memory
    {
      S.Pool(Chunks(list), chunkCapacity, memory[..])
    }

    constructor (chunkCapacity: nat, memory: array<byte>)
      ensures Linked() && Pool() == S.Empty(chunkCapacity, memory[..]) && fresh(list)
      ensures this.memory == memory && userBuffer == null
    {
      this.chunkHead, this.chunkCapacity, this.userBuffer := null, chunkCapacity, null;
      this.memory, this.freed, this.list := memory, [], [];
    }

    /** The first chunk is in the user's buffer, which must be larger than a header. */
    constructor WithBuffer(buffer: nat, size: nat, chunkCapacity: nat, memory: array<byte>)
      requires buffer != 0 && size > S.HEADER
      ensures Linked() && Pool() == S.WithBuffer(buffer, size, chunkCapacity, memory[..]) && fresh(list)
      ensures this.memory == memory && userBuffer != null
    {
      var chunk := new ChunkHeader(buffer, size - S.HEADER, null);
      this.chunkHead, this.chunkCapacity, this.userBuffer := chunk, chunkCapacity, chunk;
      this.memory, this.freed, this.list := memory, [], [chunk];
    }

    /** `base` is the address that the base allocator answers. */
    method AddChunk(capacity: nat, base: nat)
      requires Linked()
      modifies this`chunkHead, this`list
      ensures Linked() && Pool() == S.AddChunk(old(Pool()), capacity, base) && fresh(list[0]) && list[1..] == old(list)
    {
      var chunk := new ChunkHeader(base, capacity, chunkHead);
      chunkHead := chunk;
      list := [chunk] + list;
      assert list[1..] == old(list);
    }

    method Malloc(size: nat, base: nat) returns (buffer: nat)
      requires Linked()
      modifies this`chunkHead, this`list, list
      ensures Linked() && S.Given(Pool(), buffer) == S.Malloc(old(Pool()), size, base)
      ensures forall c :: c in list && c !in old(list) ==> fresh(c)
    {
      hide S.Align;
      var n := S.Align(size);
      if chunkHead == null || chunkHead.size + n > chunkHead.capacity {
        AddChunk(if chunkCapacity > n then chunkCapacity else n, base);
      }
      buffer := chunkHead.address + S.HEADER + chunkHead.size;
      Take(n);
    }

    /** The next n bytes of the head chunk are in use. */
    method Take(n: nat)
      requires Linked() && list != []
      modifies list[0]
      ensures Linked() && Pool() == S.Use(old(Pool()), n)
    {
      ghost var was := Chunks(list);
      chunkHead.size := chunkHead.size + n;
      assert was[1..] == Chunks(list[1..]);
    }

    /** Realloc; a block that the caller holds is in a chunk, and so is not null. */
    method Realloc(original: nat, originalSize: nat, newSize: nat, base: nat) returns (buffer: nat)
      requires Linked() && S.Valid(Pool())
      requires original > 0 ==> S.Placed(Pool(), S.Block(original, originalSize))
      requires original > 0 && originalSize < newSize ==>
                 (S.PlacedFits(Pool(), S.Block(original, originalSize));
                  S.Grows(Pool(), original, originalSize, newSize)
                  || S.CopyFits(Pool(), S.Block(original, originalSize), newSize, base))
      modifies this`chunkHead, this`list, list, memory
      ensures Linked()
      ensures original > 0 ==> (S.PlacedFits(old(Pool()), S.Block(original, originalSize)); old(Pool()).chunks != [])
      ensures original > 0 ==> original + originalSize <= |old(Pool()).memory|
      ensures S.Given(Pool(), buffer) == S.Realloc(old(Pool()), original, originalSize, newSize, base)
    {
      hide S.Align, S.Valid, S.Placed, S.CanMalloc, S.Malloc, S.Copy;
      if original == 0 {
        buffer := Malloc(newSize, base);
        return;
      }
      ghost var block := S.Block(original, originalSize);
      S.PlacedFits(Pool(), block);
      if originalSize >= newSize {
        return original;
      }
      if original + originalSize == chunkHead.address + S.HEADER + chunkHead.size {
        var increment := S.Align(newSize - originalSize);
        if chunkHead.size + increment <= chunkHead.capacity {
          Take(increment);
          return original;
        }
      }
      buffer := Malloc(newSize, base);
      MemCopy(buffer, original, originalSize);
    }

    /** memcpy, on ranges that do not overlap. */
    method MemCopy(to: nat, from: nat, n: nat)
      requires from + n <= memory.Length && to + n <= memory.Length
      requires S.Apart(S.Block(from, n), S.Block(to, n))
      modifies memory
      ensures memory[..] == S.Copy(old(memory[..]), from, to, n)
    {
      var i := 0;
      while i < n
        invariant i <= n
        invariant forall k :: 0 <= k < memory.Length ==>
                    memory[k] == if to <= k < to + i then old(memory[from + k - to]) else old(memory[k])
      {
        memory[to + i] := memory[from + i];
        i := i + 1;
      }
    }

    /** The total of the chunks' sizes. */
    method Size() returns (size: nat)
      requires Linked()
      ensures size == Total(Chunks(list), (c: S.Chunk) => c.size)
    {
      size := 0;
      var c := chunkHead;
      ghost var rest := list;
      while c != null
        invariant Path(c, rest)
        invariant size + Total(Chunks(rest), (c: S.Chunk) => c.size) == Total(Chunks(list), (c: S.Chunk) => c.size)
        decreases |rest|
      {
        size := size + c.size;
        c := c.next;
        assert Chunks(rest)[1..] == Chunks(rest[1..]);
        rest := rest[1..];
      }
    }

    method Capacity() returns (capacity: nat)
      requires Linked()
      ensures capacity == Total(Chunks(list), (c: S.Chunk) => c.capacity)
    {
      capacity := 0;
      var c := chunkHead;
      ghost var rest := list;
      while c != null
        invariant Path(c, rest)
        invariant capacity + Total(Chunks(rest), (c: S.Chunk) => c.capacity) == Total(Chunks(list), (c: S.Chunk) => c.capacity)
        decreases |rest|
      {
        capacity := capacity + c.capacity;
        c := c.next;
        assert Chunks(rest)[1..] == Chunks(rest[1..]);
        rest := rest[1..];
      }
    }

    /** Clear: every chunk but the user's buffer is given back, head first. */
    method Clear()
      requires Linked()
      modifies this`chunkHead, this`list, this`freed
      ensures Linked() && list == if userBuffer == null then [] else [userBuffer]
      ensures freed == old(freed) + Addresses(old(list)[..|old(list)| - |list|])
    {
      ghost var i := 0;
      while chunkHead != null && chunkHead != userBuffer
        invariant i <= |old(list)| && list == old(list)[i..] && Linked()
        invariant freed == old(freed) + Addresses(old(list)[..i])
        decreases |list|
      {
        var next := chunkHead.next;
        assert old(list)[..i + 1] == old(list)[..i] + [chunkHead];
        assert freed + [chunkHead.address] == old(freed) + Addresses(old(list)[..i + 1]);
        freed := freed + [chunkHead.address];
        chunkHead := next;
        list := list[1..];
        i := i + 1;
      }
    }
  }

  /** The chunks reached from `c` by next, all different. */
  ghost predicate Path(c: ChunkHeader?, list: seq<ChunkHeader>)
    reads list
  {
    if list == [] then c == null
    else c == list[0] && list[0] !in list[1..] && Path(list[0].next, list[1..])
  }

  ghost function Chunks(list: seq<ChunkHeader>): (r: seq<S.Chunk>)
    reads list
    ensures |r| == |list|
  {
    if list == [] then [] else [list[0].Value()] + Chunks(list[1..])
  }

  ghost function Addresses(list: seq<ChunkHeader>): seq<nat> {
    seq(|list|, i requires 0 <= i < |list| => list[i].address)
  }

  function Total(chunks: seq<S.Chunk>, f: S.Chunk -> nat): nat {
    if chunks == [] then 0 else f(chunks[0]) + Total(chunks[1..], f)
  }

  /** The used bytes never exceed the capacity. */
  lemma {:induction false} SizeWithinCapacity(p: S.Pool)
    requires S.Valid(p)
    ensures Total(p.chunks, (c: S.Chunk) => c.size) <= Total(p.chunks, (c: S.Chunk) => c.capacity)
    decreases |p.chunks|
  {
    if p.chunks != [] {
      assert S.ValidChunk(p, p.chunks[0]);
      SizeWithinCapacity(p.(chunks := p.chunks[1..]));
    }
  }
}
