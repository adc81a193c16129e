/** MemoryPoolAllocator on a flat address space: chunks, the blocks handed out, and their contents. */
module AllocatorSpec {
  import opened Bytes

  /** sizeof(ChunkHeader) */
  const HEADER: nat := 24
  /** The largest size that RAPIDJSON_ALIGN rounds up. */
  const ALIGN_LIMIT: nat := 0xFFFF_FFFC

  /** RAPIDJSON_ALIGN on a 64-bit size: the mask `~3u` has 32 bits, so the upper half of the size is lost. */
  function Align(x: nat): nat {
    var y := (x + 3) % TWO_TO_THE_32;
    y - y % 4
  }

  /** The expression of the original on 64-bit words is this arithmetic. */
  lemma AlignIsMask(x: bv64)
    ensures var y := (x + 3) % 0x1_0000_0000; (x + 3) & 0xFFFF_FFFC == y - y % 4
  {
  }

  /** Rounding up reserves enough if and only if the size is at most the limit. */
  lemma AlignCovers(x: nat)
    ensures Align(x) >= x <==> x <= ALIGN_LIMIT
    ensures x <= ALIGN_LIMIT ==> Align(x) < x + 4 && Align(x) % 4 == 0
    ensures x > ALIGN_LIMIT ==> Align(x) <= ALIGN_LIMIT
  {
  }

  /** A chunk: its header at `address`, then `capacity` bytes of which `size` are in use. */
  datatype Chunk = Chunk(address: nat, capacity: nat, size: nat) {
    function Payload(): nat { address + HEADER }
    function Top(): nat { Payload() + size }
    function End(): nat { Payload() + capacity }
  }

  /** The chunks, head first. */
  datatype Pool = Pool(chunks: seq<Chunk>, chunkCapacity: nat, memory: bytes)

  /** No 64-bit sum of addresses and sizes wraps around: all addresses are below 2^63. */
  predicate Valid(p: Pool) {
    && |p.memory| <= TWO_TO_THE_63
    && (forall i :: 0 <= i < |p.chunks| ==> ValidChunk(p, p.chunks[i]))
    && (forall i, j :: 0 <= i < j < |p.chunks| ==> Separate(p.chunks[i], p.chunks[j]))
  }

  predicate ValidChunk(p: Pool, c: Chunk) {
    c.address > 0 && c.End() <= |p.memory| && c.size <= c.capacity
  }

  predicate Separate(c: Chunk, d: Chunk) {
    c.End() <= d.address || d.End() <= c.address
  }

  /** What the base allocator promises of the range that it returns. */
  predicate Fresh(p: Pool, address: nat, n: nat) {
    && address > 0 && address + n <= |p.memory|
    && forall i :: 0 <= i < |p.chunks| ==> address + n <= p.chunks[i].address || p.chunks[i].End() <= address
  }

  // Malloc and Realloc

  function AddChunk(p: Pool, capacity: nat, base: nat): Pool {
    p.(chunks := [Chunk(base, capacity, 0)] + p.chunks)
  }

  predicate NeedsChunk(p: Pool, n: nat) {
    p.chunks == [] || p.chunks[0].size + n > p.chunks[0].capacity
  }

  function NewCapacity(p: Pool, n: nat): nat {
    if p.chunkCapacity > n then p.chunkCapacity else n
  }

  /** The range for a new chunk, if one is needed, is `base`. */
  predicate CanMalloc(p: Pool, size: nat, base: nat) {
    NeedsChunk(p, Align(size)) ==> Fresh(p, base, HEADER + NewCapacity(p, Align(size)))
  }

  datatype Given = Given(pool: Pool, address: nat)

  function Malloc(p: Pool, size: nat, base: nat): (r: Given)
    ensures r.pool.chunks != []
  {
    var n := Align(size);
    var p1 := if NeedsChunk(p, n) then AddChunk(p, NewCapacity(p, n), base) else p;
    Given(Use(p1, n), p1.chunks[0].Top())
  }

  /** The next n bytes of the head chunk are taken. */
  function Use(p: Pool, n: nat): Pool
    requires p.chunks != []
  {
    p.(chunks := [p.chunks[0].(size := p.chunks[0].size + n)] + p.chunks[1..])
  }

  /** The last allocation, with room behind it. */
  predicate Grows(p: Pool, address: nat, originalSize: nat, newSize: nat)
    requires p.chunks != []
  {
    && originalSize < newSize
    && address + originalSize == p.chunks[0].Top()
    && p.chunks[0].size + Align(newSize - originalSize) <= p.chunks[0].capacity
  }

  /** memcpy */
  function Copy(memory: bytes, from: nat, to: nat, n: nat): (r: bytes)
    requires from + n <= |memory|
    ensures |r| == |memory|
  {
    seq(|memory|, i requires 0 <= i < |memory| => if to <= i < to + n then memory[from + i - to] else memory[i])
  }

  /** Realloc; address 0 is the null pointer. */
  function Realloc(p: Pool, address: nat, originalSize: nat, newSize: nat, base: nat): Given
    requires address > 0 ==> p.chunks != [] && address + originalSize <= |p.memory|
  {
    if address == 0 then Malloc(p, newSize, base)
    else if originalSize >= newSize then Given(p, address)
    else if Grows(p, address, originalSize, newSize) then Given(Use(p, Align(newSize - originalSize)), address)
    else
      var r := Malloc(p, newSize, base);
      r.(pool := r.pool.(memory := Copy(r.pool.memory, address, r.address, originalSize)))
  }

  // Blocks

  datatype Block = Block(address: nat, size: nat)

  predicate Within(b: Block, c: Chunk) {
    c.Payload() <= b.address && b.address + b.size <= c.Top()
  }

  predicate Placed(p: Pool, b: Block) {
    exists i :: 0 <= i < |p.chunks| && Within(b, p.chunks[i])
  }

  /** No byte is in both. */
  predicate Apart(a: Block, b: Block) {
    a.size == 0 || b.size == 0 || a.address + a.size <= b.address || b.address + b.size <= a.address
  }

  /** The blocks that callers hold lie in the used parts of the chunks, and do not overlap. */
  predicate Safe(p: Pool, live: seq<Block>) {
    && Valid(p)
    && (forall i :: 0 <= i < |live| ==> Placed(p, live[i]))
    && (forall i, j :: 0 <= i < j < |live| ==> Apart(live[i], live[j]))
  }

  function Contents(memory: bytes, b: Block): bytes
    requires b.address + b.size <= |memory|
  {
    memory[b.address..b.address + b.size]
  }

  lemma PlacedFits(p: Pool, b: Block)
    requires Valid(p) && Placed(p, b)
    ensures p.chunks != [] && 0 < b.address && b.address + b.size <= |p.memory|
  {
  }

  // What one allocation does to the chunks

  lemma AddChunkKeeps(p: Pool, capacity: nat, base: nat, b: Block)
    requires Placed(p, b)
    ensures Placed(AddChunk(p, capacity, base), b)
  {
    var i :| 0 <= i < |p.chunks| && Within(b, p.chunks[i]);
    assert AddChunk(p, capacity, base).chunks[i + 1] == p.chunks[i];
  }

  lemma UseKeeps(p: Pool, n: nat, b: Block)
    requires p.chunks != [] && Placed(p, b)
    ensures Placed(Use(p, n), b)
  {
    var i :| 0 <= i < |p.chunks| && Within(b, p.chunks[i]);
    assert Within(b, Use(p, n).chunks[i]);
  }

  lemma AddChunkValid(p: Pool, capacity: nat, base: nat)
    requires Valid(p) && Fresh(p, base, HEADER + capacity)
    ensures Valid(AddChunk(p, capacity, base))
  {
  }

  lemma UseValid(p: Pool, n: nat)
    requires Valid(p) && p.chunks != [] && p.chunks[0].size + n <= p.chunks[0].capacity
    ensures Valid(Use(p, n))
  {
    var c, d := p.chunks[0], Use(p, n).chunks[0];
    assert d.End() == c.End() && d.address == c.address;
  }

  /** No live block reaches above the top of the head chunk into the head chunk. */
  lemma BelowTop(p: Pool, b: Block)
    requires Valid(p) && Placed(p, b)
    ensures b.address + b.size <= p.chunks[0].Top() || p.chunks[0].End() + HEADER <= b.address
  {
    var i :| 0 <= i < |p.chunks| && Within(b, p.chunks[i]);
    if i > 0 {
      assert Separate(p.chunks[0], p.chunks[i]);
    }
  }

  /** A block that starts in the payload of the head chunk lies there or nowhere. */
  lemma OnlyInHead(p: Pool, b: Block)
    requires Valid(p) && p.chunks != [] && p.chunks[0].Payload() <= b.address <= p.chunks[0].End()
    ensures Placed(p, b) <==> b.address + b.size <= p.chunks[0].Top()
  {
    assert b.address + b.size <= p.chunks[0].Top() ==> Within(b, p.chunks[0]);
    forall i | 0 < i < |p.chunks| ensures !Within(b, p.chunks[i]) {
      assert Separate(p.chunks[0], p.chunks[i]) && ValidChunk(p, p.chunks[i]);
    }
  }

  /** Malloc hands out the bytes between the old and the new top of the head chunk. */
  lemma {:induction false} MallocGives(p: Pool, live: seq<Block>, size: nat, base: nat)
    requires Safe(p, live) && CanMalloc(p, size, base)
    ensures var r := Malloc(p, size, base);
            && Safe(r.pool, live) && r.pool.memory == p.memory && r.address > 0
            && r.address + Align(size) == r.pool.chunks[0].Top()
            && r.pool.chunks[0].Payload() <= r.address <= r.pool.chunks[0].End()
            && (forall i :: 0 <= i < |live| ==> Apart(live[i], Block(r.address, Align(size))))
            && (Placed(r.pool, Block(r.address, size)) <==> size <= ALIGN_LIMIT)
  {
    hide Align, Placed, Valid;
    var n := Align(size);
    var p1 := if NeedsChunk(p, n) then AddChunk(p, NewCapacity(p, n), base) else p;
    var r := Malloc(p, size, base);
    if NeedsChunk(p, n) {
      AddChunkValid(p, NewCapacity(p, n), base);
    }
    UseValid(p1, n);
    forall i | 0 <= i < |live|
      ensures Placed(r.pool, live[i])
      ensures Apart(live[i], Block(r.address, n))
    {
      if NeedsChunk(p, n) {
        AddChunkKeeps(p, NewCapacity(p, n), base, live[i]);
      }
      BelowTop(p1, live[i]);
      UseKeeps(p1, n, live[i]);
    }
    HeadBounds(p1);
    AlignCovers(size);
    OnlyInHead(r.pool, Block(r.address, size));
  }

  /** What memcpy demands when Realloc moves a block: the copy lies inside the memory, and apart from the block. */
  predicate CopyFits(p: Pool, b: Block, newSize: nat, base: nat) {
    var to := Block(Malloc(p, newSize, base).address, b.size);
    to.address + to.size <= |p.memory| && Apart(b, to)
  }

  /** It is met whenever the block fits into what rounding up reserves; for every size up to the limit. */
  lemma {:induction false} CopyFitsIf(p: Pool, b: Block, newSize: nat, base: nat)
    requires Valid(p) && Placed(p, b) && CanMalloc(p, newSize, base) && b.size <= newSize
    ensures b.size <= Align(newSize) ==> CopyFits(p, b, newSize, base)
    ensures newSize <= ALIGN_LIMIT ==> b.size <= Align(newSize)
  {
    hide Align, Malloc, Placed, CanMalloc;
    assert [b][0] == b;
    MallocGives(p, [b], newSize, base);
    AlignCovers(newSize);
    HeadBounds(Malloc(p, newSize, base).pool);
    var r := Malloc(p, newSize, base);
    assert ValidChunk(r.pool, r.pool.chunks[0]);
    assert Apart([b][0], Block(r.address, Align(newSize)));
  }

  lemma HeadBounds(p: Pool)
    requires Valid(p) && p.chunks != []
    ensures p.chunks[0].Payload() > 0 && p.chunks[0].Top() <= p.chunks[0].End()
  {
    assert ValidChunk(p, p.chunks[0]);
  }

  // Runs

  datatype State = State(pool: Pool, live: seq<Block>)

  /**
   * A call by a caller that passes on what it was given, `base` being the base allocator's answer; or a write
   * of one byte by the caller into its block.
   */
  datatype Call =
    | Allocate(size: nat, base: nat)
    | Resize(i: nat, size: nat, base: nat)
    | Store(i: nat, offset: nat, value: byte)

  function Step(s: State, c: Call): State
    requires Safe(s.pool, s.live) && Allowed(s, c)
  {
    match c
    case Allocate(size, base) =>
      var r := Malloc(s.pool, size, base);
      State(r.pool, s.live + [Block(r.address, size)])
    case Resize(i, size, base) =>
      var b := s.live[i];
      PlacedFits(s.pool, b);
      var r := Realloc(s.pool, b.address, b.size, size, base);
      State(r.pool, s.live[i := Block(r.address, size)])
    case Store(i, offset, value) =>
      PlacedFits(s.pool, s.live[i]);
      s.(pool := Write(s.pool, s.live[i].address + offset, value))
  }

  function Write(p: Pool, address: nat, value: byte): Pool
    requires address < |p.memory|
  {
    p.(memory := p.memory[address := value])
  }

  predicate Moves(s: State, i: nat, size: nat)
    requires Safe(s.pool, s.live) && i < |s.live|
  {
    PlacedFits(s.pool, s.live[i]);
    s.live[i].size < size && !Grows(s.pool, s.live[i].address, s.live[i].size, size)
  }

  predicate Allowed(s: State, c: Call)
    requires Safe(s.pool, s.live)
  {
    match c
    case Allocate(size, base) => CanMalloc(s.pool, size, base)
    case Resize(i, size, base) => i < |s.live| && (Moves(s, i, size) ==> CanMalloc(s.pool, size, base))
    case Store(i, offset, _) => i < |s.live| && offset < s.live[i].size
  }

  /** The number of bytes that the call asks for. */
  function Request(s: State, c: Call): nat
    requires Safe(s.pool, s.live) && Allowed(s, c)
  {
    match c
    case Allocate(size, _) => size
    case Resize(i, size, _) =>
      if s.live[i].size >= size then 0
      else if Moves(s, i, size) then size
      else size - s.live[i].size
    case Store(_, _, _) => 0
  }

  lemma {:induction false} AllocateSafe(s: State, size: nat, base: nat)
    requires Safe(s.pool, s.live) && CanMalloc(s.pool, size, base)
    ensures var t := Step(s, Allocate(size, base)); Safe(t.pool, t.live) <==> size <= ALIGN_LIMIT
  {
    hide Align, Malloc, Placed, Valid;
    MallocGives(s.pool, s.live, size, base);
    AlignCovers(size);
    var t := Step(s, Allocate(size, base));
    assert t.live[|s.live|] == Block(Malloc(s.pool, size, base).address, size);
  }

  /** Growing in place takes bytes above the top of the head chunk. */
  lemma {:induction false} GrowSafe(s: State, i: nat, size: nat)
    requires Safe(s.pool, s.live) && i < |s.live| && s.pool.chunks != []
    requires var b := s.live[i]; Grows(s.pool, b.address, b.size, size)
    ensures var b := s.live[i];
            Safe(Use(s.pool, Align(size - b.size)), s.live[i := Block(b.address, size)])
            <==> size - b.size <= ALIGN_LIMIT
  {
    hide Align, Placed, Valid;
    var p, b := s.pool, s.live[i];
    var n := Align(size - b.size);
    var q, grown := Use(p, n), Block(b.address, size);
    var live := s.live[i := grown];
    UseValid(p, n);
    AlignCovers(size - b.size);
    InHead(p, b);
    OnlyInHead(q, grown);
    forall j | 0 <= j < |live| && j != i ensures Placed(q, live[j]) {
      UseKeeps(p, n, live[j]);
    }
    if size - b.size <= ALIGN_LIMIT {
      forall j | 0 <= j < |live| && j != i ensures Apart(live[j], grown) {
        BelowTop(p, live[j]);
        assert Apart(s.live[j], b);
      }
    } else {
      assert live[i] == grown;
    }
  }

  /** A block that ends at the top of the head chunk lies in the head chunk. */
  lemma InHead(p: Pool, b: Block)
    requires Valid(p) && p.chunks != [] && Placed(p, b) && b.address + b.size == p.chunks[0].Top()
    ensures p.chunks[0].Payload() <= b.address <= p.chunks[0].End()
  {
    var i :| 0 <= i < |p.chunks| && Within(b, p.chunks[i]);
    assert ValidChunk(p, p.chunks[0]) && ValidChunk(p, p.chunks[i]);
    if i > 0 {
      assert Separate(p.chunks[0], p.chunks[i]);
    }
  }

  /** Blocks stay apart when one of them is replaced by one that is apart from the others. */
  lemma ReplaceApart(live: seq<Block>, i: nat, b: Block)
    requires forall j, k :: 0 <= j < k < |live| ==> Apart(live[j], live[k])
    requires i < |live| && forall j :: 0 <= j < |live| && j != i ==> Apart(live[j], b)
    ensures var next := live[i := b]; forall j, k :: 0 <= j < k < |live| ==> Apart(next[j], next[k])
  {
  }

  lemma {:induction false} MoveSafe(s: State, i: nat, size: nat, base: nat)
    requires Safe(s.pool, s.live) && i < |s.live| && Moves(s, i, size) && CanMalloc(s.pool, size, base)
    ensures var t := Step(s, Resize(i, size, base)); Safe(t.pool, t.live) <==> size <= ALIGN_LIMIT
  {
    hide Align, Malloc, Placed;
    var b := s.live[i];
    PlacedFits(s.pool, b);
    MallocGives(s.pool, s.live, size, base);
    AlignCovers(size);
    var r := Malloc(s.pool, size, base);
    var t := Step(s, Resize(i, size, base));
    var moved := Block(r.address, size);
    assert t.live == s.live[i := moved] && t.pool.chunks == r.pool.chunks;
    SamePlaces(r.pool, t.pool);
    if size <= ALIGN_LIMIT {
      ReplaceApart(s.live, i, moved);
    } else {
      assert t.live[i] == moved;
    }
  }

  lemma SamePlaces(p: Pool, q: Pool)
    requires p.chunks == q.chunks && |p.memory| == |q.memory|
    ensures Valid(p) <==> Valid(q)
    ensures forall b :: Placed(p, b) <==> Placed(q, b)
  {
  }

  lemma {:induction false} ShrinkSafe(s: State, i: nat, size: nat)
    requires Safe(s.pool, s.live) && i < |s.live| && size <= s.live[i].size
    ensures Safe(s.pool, s.live[i := Block(s.live[i].address, size)])
  {
    var b := s.live[i];
    var k :| 0 <= k < |s.pool.chunks| && Within(b, s.pool.chunks[k]);
    var shrunk := Block(b.address, size);
    assert Within(shrunk, s.pool.chunks[k]);
    ReplaceApart(s.live, i, shrunk);
  }

  /**
   * Every call keeps all live blocks inside their chunks and apart from each other, and each chunk's
   * size within its capacity - if and only if it asks for at most ALIGN_LIMIT bytes.
   */
  lemma {:induction false} StepSafe(s: State, c: Call)
    requires Safe(s.pool, s.live) && Allowed(s, c)
    ensures Safe(Step(s, c).pool, Step(s, c).live) <==> Request(s, c) <= ALIGN_LIMIT
  {
    hide Align, Malloc, Safe, CanMalloc;
    match c
    case Allocate(size, base) => AllocateSafe(s, size, base);
    case Resize(i, size, base) =>
      var b := s.live[i];
      StepFits(s, i);
      if b.size >= size {
        ShrinkSafe(s, i, size);
      } else if Moves(s, i, size) {
        MoveSafe(s, i, size, base);
      } else {
        GrowSafe(s, i, size);
      }
    case Store(i, offset, value) => StoreSafe(s, i, offset, value);
  }

  /** A write into a block moves nothing. */
  lemma {:induction false} StoreSafe(s: State, i: nat, offset: nat, value: byte)
    requires Safe(s.pool, s.live) && Allowed(s, Store(i, offset, value))
    ensures Safe(Step(s, Store(i, offset, value)).pool, s.live)
  {
    hide Placed, Valid;
    StepFits(s, i);
    SamePlaces(s.pool, Step(s, Store(i, offset, value)).pool);
  }

  lemma StepFits(s: State, i: nat)
    requires Safe(s.pool, s.live) && i < |s.live|
    ensures s.pool.chunks != [] && 0 < s.live[i].address && s.live[i].address + s.live[i].size <= |s.pool.memory|
  {
    PlacedFits(s.pool, s.live[i]);
  }

  function Min(a: nat, b: nat): nat {
    if a < b then a else b
  }

  /** What block j holds before a call and after it, as far as it is in both. */
  predicate Kept(s: State, t: State, j: nat)
    requires Safe(s.pool, s.live) && Safe(t.pool, t.live) && j < |s.live| <= |t.live|
  {
    StepFits(s, j);
    StepFits(t, j);
    var n := Min(s.live[j].size, t.live[j].size);
    Contents(s.pool.memory, s.live[j])[..n] == Contents(t.pool.memory, t.live[j])[..n]
  }

  lemma CopyOutside(memory: bytes, from: nat, to: nat, n: nat, b: Block)
    requires from + n <= |memory| && b.address + b.size <= |memory| && Apart(b, Block(to, n))
    ensures Contents(Copy(memory, from, to, n), b) == Contents(memory, b)
  {
  }

  lemma CopyInside(memory: bytes, from: nat, to: nat, n: nat)
    requires from + n <= |memory| && to + n <= |memory|
    ensures Copy(memory, from, to, n)[to..to + n] == memory[from..from + n]
  {
  }

  /** A block that moves takes its contents along; the others are not touched. */
  lemma {:induction false} MoveKeeps(s: State, i: nat, size: nat, base: nat)
    requires Safe(s.pool, s.live) && i < |s.live| && Moves(s, i, size) && CanMalloc(s.pool, size, base)
    requires size <= ALIGN_LIMIT
    ensures var t := Step(s, Resize(i, size, base));
            Safe(t.pool, t.live) && |t.live| == |s.live| && forall j :: 0 <= j < |s.live| ==> Kept(s, t, j)
  {
    hide Align, Malloc, Safe, CanMalloc, Copy;
    var t := Step(s, Resize(i, size, base));
    MoveSafe(s, i, size, base);
    MallocGives(s.pool, s.live, size, base);
    AlignCovers(size);
    var b, r := s.live[i], Malloc(s.pool, size, base);
    StepFits(s, i);
    assert t.pool.memory == Copy(s.pool.memory, b.address, r.address, b.size);
    forall j | 0 <= j < |s.live| ensures Kept(s, t, j) {
      StepFits(s, j);
      StepFits(t, j);
      if j == i {
        assert t.live[i] == Block(r.address, size);
        CopyInside(s.pool.memory, b.address, r.address, b.size);
        Prefix(t.pool.memory, r.address, b.size, size);
      } else {
        assert Apart(s.live[j], Block(r.address, b.size));
        CopyOutside(s.pool.memory, b.address, r.address, b.size, s.live[j]);
      }
    }
  }

  lemma Prefix(memory: bytes, a: nat, n: nat, m: nat)
    requires n <= m && a + m <= |memory|
    ensures memory[a..a + m][..n] == memory[a..a + n]
  {
  }

  /** A write changes no other block. */
  lemma {:induction false} StoreKeeps(s: State, i: nat, offset: nat, value: byte, j: nat)
    requires Safe(s.pool, s.live) && Allowed(s, Store(i, offset, value)) && j < |s.live| && j != i
    ensures (StoreSafe(s, i, offset, value); Kept(s, Step(s, Store(i, offset, value)), j))
  {
    hide Placed, Valid;
    StepFits(s, i);
    StepFits(s, j);
    StoreSafe(s, i, offset, value);
    if i < j {
      assert Apart(s.live[i], s.live[j]);
    } else {
      assert Apart(s.live[j], s.live[i]);
    }
    WriteOutside(s.pool.memory, s.live[i].address + offset, value, s.live[j]);
  }

  lemma WriteOutside(memory: bytes, a: nat, value: byte, b: Block)
    requires a < |memory| && b.address + b.size <= |memory| && (a < b.address || b.address + b.size <= a)
    ensures Contents(memory[a := value], b) == Contents(memory, b)
  {
  }

  /**
   * Every call keeps the contents of every block but the one written to: a resized block keeps its old
   * contents as a prefix.
   */
  lemma {:induction false} StepKeeps(s: State, c: Call)
    requires Safe(s.pool, s.live) && Allowed(s, c) && Request(s, c) <= ALIGN_LIMIT
    ensures var t := Step(s, c);
            && Safe(t.pool, t.live) && |t.live| == |s.live| + (if c.Allocate? then 1 else 0)
            && forall j :: 0 <= j < |s.live| && !(c.Store? && c.i == j) ==> Kept(s, t, j)
  {
    hide Align, Malloc, Safe, CanMalloc, Contents;
    StepSafe(s, c);
    var t := Step(s, c);
    match c
    case Allocate(size, base) =>
      MallocGives(s.pool, s.live, size, base);
      forall j | 0 <= j < |s.live| ensures Kept(s, t, j) {
        assert t.live[j] == s.live[j];
        StepFits(s, j);
        StepFits(t, j);
      }
    case Resize(i, size, base) =>
      StepFits(s, i);
      if Moves(s, i, size) {
        MoveKeeps(s, i, size, base);
      } else {
        forall j | 0 <= j < |s.live| ensures Kept(s, t, j) {
          StepFits(s, j);
          StepFits(t, j);
          var n := Min(s.live[j].size, t.live[j].size);
          assert t.pool.memory == s.pool.memory && t.live[j].address == s.live[j].address;
          SamePrefix(s.pool.memory, s.live[j].address, s.live[j].size, t.live[j].size);
        }
      }
    case Store(i, offset, value) =>
      forall j | 0 <= j < |s.live| && j != i ensures Kept(s, t, j) {
        StoreKeeps(s, i, offset, value, j);
      }
  }

  lemma SamePrefix(memory: bytes, a: nat, m: nat, n: nat)
    requires a + m <= |memory| && a + n <= |memory|
    ensures Contents(memory, Block(a, m))[..Min(m, n)] == Contents(memory, Block(a, n))[..Min(m, n)]
  {
  }

  /** A run in which every call asks for at most ALIGN_LIMIT bytes, and the base allocator keeps its promise. */
  predicate Runs(s: State, calls: seq<Call>)
    requires Safe(s.pool, s.live)
    decreases |calls|
  {
    calls == [] ||
    (Allowed(s, calls[0]) && Request(s, calls[0]) <= ALIGN_LIMIT
     && (StepSafe(s, calls[0]); Runs(Step(s, calls[0]), calls[1..])))
  }

  function Run(s: State, calls: seq<Call>): State
    requires Safe(s.pool, s.live) && Runs(s, calls)
    decreases |calls|
  {
    if calls == [] then s
    else
      StepSafe(s, calls[0]);
      Run(Step(s, calls[0]), calls[1..])
  }

  /** Over every run all live blocks stay inside their chunks and apart. */
  lemma {:induction false} RunSafe(s: State, calls: seq<Call>)
    requires Safe(s.pool, s.live) && Runs(s, calls)
    ensures Safe(Run(s, calls).pool, Run(s, calls).live) && |s.live| <= |Run(s, calls).live|
    decreases |calls|
  {
    hide Safe, Allowed, Request;
    if calls != [] {
      StepSafe(s, calls[0]);
      StepKeeps(s, calls[0]);
      RunSafe(Step(s, calls[0]), calls[1..]);
    }
  }

  predicate Untouched(s: State, t: State, j: nat)
    requires Safe(s.pool, s.live) && Safe(t.pool, t.live) && j < |s.live| <= |t.live|
  {
    StepFits(s, j);
    StepFits(t, j);
    t.live[j] == s.live[j] && Contents(t.pool.memory, t.live[j]) == Contents(s.pool.memory, s.live[j])
  }

  /** Over every run a block that is neither resized nor written to keeps its place and its contents. */
  lemma {:induction false} RunKeeps(s: State, calls: seq<Call>, j: nat)
    requires Safe(s.pool, s.live) && Runs(s, calls) && j < |s.live|
    requires forall k :: 0 <= k < |calls| ==> !calls[k].Allocate? ==> calls[k].i != j
    ensures (RunSafe(s, calls); Untouched(s, Run(s, calls), j))
    decreases |calls|
  {
    hide Safe, Allowed, Request, Step, Untouched;
    RunSafe(s, calls);
    if calls == [] {
      UntouchedStart(s, j);
    } else {
      StepSafe(s, calls[0]);
      StepUntouched(s, calls[0], j);
      var t := Step(s, calls[0]);
      RunKeeps(t, calls[1..], j);
      RunSafe(t, calls[1..]);
      UntouchedThen(s, t, Run(t, calls[1..]), j);
    }
  }

  lemma UntouchedStart(s: State, j: nat)
    requires Safe(s.pool, s.live) && j < |s.live|
    ensures Untouched(s, s, j)
  {
    hide Safe;
    StepFits(s, j);
  }

  lemma {:induction false} StepUntouched(s: State, c: Call, j: nat)
    requires Safe(s.pool, s.live) && Allowed(s, c) && Request(s, c) <= ALIGN_LIMIT && j < |s.live|
    requires !c.Allocate? ==> c.i != j
    ensures (StepSafe(s, c); |s.live| <= |Step(s, c).live| && Untouched(s, Step(s, c), j))
  {
    hide Safe, Malloc, Realloc, Contents, Moves, CanMalloc;
    StepSafe(s, c);
    StepKeeps(s, c);
    var t := Step(s, c);
    StepFits(s, j);
    StepFits(t, j);
    assert Kept(s, t, j) && t.live[j] == s.live[j];
    WholeContents(s.pool.memory, s.live[j]);
    WholeContents(t.pool.memory, t.live[j]);
  }

  lemma WholeContents(memory: bytes, b: Block)
    requires b.address + b.size <= |memory|
    ensures Contents(memory, b)[..Min(b.size, b.size)] == Contents(memory, b)
  {
  }

  lemma UntouchedThen(s: State, t: State, u: State, j: nat)
    requires Safe(s.pool, s.live) && Safe(t.pool, t.live) && Safe(u.pool, u.live)
    requires j < |s.live| <= |t.live| <= |u.live| && Untouched(s, t, j) && Untouched(t, u, j)
    ensures Untouched(s, u, j)
  {
    hide Safe, Contents;
    StepFits(s, j);
    StepFits(t, j);
    StepFits(u, j);
  }

  // What callers find in their blocks

  /** What a caller knows of the bytes of its block, by offset. */
  type Known = map<nat, byte>

  function Cut(known: Known, size: nat): Known {
    map o: nat | o in known && o < size :: known[o]
  }

  function Put(known: Known, offset: nat, value: byte): Known {
    known[offset := value]
  }

  /** The block holds what its caller knows of it. */
  predicate Holds(memory: bytes, b: Block, known: Known)
    requires b.address + b.size <= |memory|
  {
    forall o <- known :: o < b.size && memory[b.address + o] == known[o]
  }

  ghost predicate AllHold(s: State, known: seq<Known>)
    requires Safe(s.pool, s.live)
  {
    && |known| == |s.live|
    && forall j :: 0 <= j < |s.live| ==> (StepFits(s, j); Holds(s.pool.memory, s.live[j], known[j]))
  }

  /**
   * What callers know after a call: of a new block nothing, of a resized block what still fits, and the byte
   * that was written.
   */
  function Learn(known: seq<Known>, c: Call): seq<Known>
    requires !c.Allocate? ==> c.i < |known|
  {
    match c
    case Allocate(_, _) => known + [map[]]
    case Resize(i, size, _) => known[i := Cut(known[i], size)]
    case Store(i, offset, value) => known[i := Put(known[i], offset, value)]
  }

  predicate Learnable(n: nat, calls: seq<Call>)
    decreases |calls|
  {
    calls == [] ||
    ((calls[0].Allocate? || calls[0].i < n) && Learnable(if calls[0].Allocate? then n + 1 else n, calls[1..]))
  }

  function LearnAll(known: seq<Known>, calls: seq<Call>): seq<Known>
    requires Learnable(|known|, calls)
    decreases |calls|
  {
    if calls == [] then known else LearnAll(Learn(known, calls[0]), calls[1..])
  }

  lemma {:induction false} KeptHolds(s: State, t: State, j: nat, known: Known, after: Known)
    requires Safe(s.pool, s.live) && Safe(t.pool, t.live) && j < |s.live| <= |t.live| && Kept(s, t, j)
    requires (StepFits(s, j); Holds(s.pool.memory, s.live[j], known))
    requires forall o <- after :: o in known && after[o] == known[o] && o < t.live[j].size
    ensures (StepFits(t, j); Holds(t.pool.memory, t.live[j], after))
  {
    hide Safe;
    StepFits(s, j);
    StepFits(t, j);
    var n := Min(s.live[j].size, t.live[j].size);
    forall o <- after
      ensures o < t.live[j].size && t.pool.memory[t.live[j].address + o] == after[o]
    {
      assert o < n;
      assert Contents(s.pool.memory, s.live[j])[..n][o] == s.pool.memory[s.live[j].address + o];
      assert Contents(t.pool.memory, t.live[j])[..n][o] == t.pool.memory[t.live[j].address + o];
    }
  }

  /** After a call the blocks hold what their callers know then. */
  lemma {:induction false} StepHolds(s: State, c: Call, known: seq<Known>)
    requires Safe(s.pool, s.live) && Allowed(s, c) && Request(s, c) <= ALIGN_LIMIT && AllHold(s, known)
    ensures (StepSafe(s, c); AllHold(Step(s, c), Learn(known, c)))
  {
    hide Safe, Align, Malloc, Kept, Holds, CanMalloc;
    StepSafe(s, c);
    StepKeeps(s, c);
    var t, after := Step(s, c), Learn(known, c);
    forall j | 0 <= j < |t.live|
      ensures (StepFits(t, j); Holds(t.pool.memory, t.live[j], after[j]))
    {
      StepFits(t, j);
      if j == |s.live| {
        HoldsNothing(t.pool.memory, t.live[j]);
      } else {
        StepFits(s, j);
        HoldsInside(s.pool.memory, s.live[j], known[j]);
        if c.Store? && c.i == j {
          WriteHolds(s.pool.memory, s.live[j], known[j], c.offset, c.value);
        } else {
          assert t.live[j].size == if c.Resize? && c.i == j then c.size else s.live[j].size;
          KeptHolds(s, t, j, known[j], after[j]);
        }
      }
    }
  }

  lemma HoldsNothing(memory: bytes, b: Block)
    requires b.address + b.size <= |memory|
    ensures Holds(memory, b, map[])
  {
  }

  lemma HoldsInside(memory: bytes, b: Block, known: Known)
    requires b.address + b.size <= |memory| && Holds(memory, b, known)
    ensures forall o <- known :: o < b.size
  {
  }

  lemma WriteHolds(memory: bytes, b: Block, known: Known, offset: nat, value: byte)
    requires b.address + b.size <= |memory| && Holds(memory, b, known) && offset < b.size
    ensures Holds(memory[b.address + offset := value], b, Put(known, offset, value))
  {
  }

  /**
   * Over every run of calls and writes, each block holds the bytes that were last written into it, as far as
   * it was not cut since, however often it was resized or moved, and whatever was written to other blocks.
   */
  lemma {:induction false} RunHolds(s: State, calls: seq<Call>, known: seq<Known>)
    requires Safe(s.pool, s.live) && Runs(s, calls) && AllHold(s, known)
    ensures Learnable(|known|, calls)
    ensures (RunSafe(s, calls); AllHold(Run(s, calls), LearnAll(known, calls)))
    decreases |calls|
  {
    hide Safe, Request, Step, AllHold;
    RunSafe(s, calls);
    HoldsAll(s, known);
    if calls != [] {
      StepSafe(s, calls[0]);
      StepHolds(s, calls[0], known);
      RunHolds(Step(s, calls[0]), calls[1..], Learn(known, calls[0]));
    }
  }

  lemma HoldsAll(s: State, known: seq<Known>)
    requires Safe(s.pool, s.live) && AllHold(s, known)
    ensures |known| == |s.live|
  {
  }

  /** A pool without chunks, and one whose first chunk is the user's buffer. */
  function Empty(chunkCapacity: nat, memory: bytes): Pool {
    Pool([], chunkCapacity, memory)
  }

  function WithBuffer(address: nat, size: nat, chunkCapacity: nat, memory: bytes): Pool
    requires size > HEADER
  {
    Pool([Chunk(address, size - HEADER, 0)], chunkCapacity, memory)
  }

  lemma StartsSafe(address: nat, size: nat, chunkCapacity: nat, memory: bytes)
    requires |memory| <= TWO_TO_THE_63
    ensures Safe(Empty(chunkCapacity, memory), [])
    ensures 0 < address && HEADER < size && address + size <= |memory| ==>
              Safe(WithBuffer(address, size, chunkCapacity, memory), [])
  {
  }

  /** A size above the limit gets fewer bytes than it asks for: the next block starts inside it. */
  lemma OversizeOverlaps(p: Pool, size: nat, base: nat, next: nat, base2: nat)
    requires Valid(p) && CanMalloc(p, size, base) && size > ALIGN_LIMIT && 0 < next <= ALIGN_LIMIT
    requires var r := Malloc(p, size, base); !NeedsChunk(r.pool, Align(next))
    ensures var r := Malloc(p, size, base);
            !Apart(Block(r.address, size), Block(Malloc(r.pool, next, base2).address, next))
  {
    AlignCovers(size);
  }
}
