/** The chunk allocator of mini_memory_pool.c: first fit over a table in which
    only the first chunk of a block is marked. */
module MemoryPools {
  import opened CArithmetic

  const CHUNK_SIZE: nat := 4096

  /** 32 megabytes. */
  const CHUNKS: nat := 8192

  datatype Chunk = Chunk(busAddress: nat, used: nat, owner: int)

  /** The chunks that size bytes take, in unsigned int arithmetic. */
  function Need(size: nat): (n: nat)
    requires size < TWO_32
    ensures size + CHUNK_SIZE <= TWO_32 ==> (n - 1) * 4096 < size <= n * 4096
    ensures n == 0 <==> size == 0 || size + 4096 > 0x1_0000_0000
  {
    Uint32(size + CHUNK_SIZE - 1) / CHUNK_SIZE
  }

  // ---------- the table ----------

  /** Chunk k belongs to the block with head h. */
  predicate InBlock(t: seq<Chunk>, h: nat, k: nat)
    requires h < |t|
  {
    h <= k < h + t[h].used
  }

  ghost predicate Occupied(t: seq<Chunk>, k: nat) {
    exists h: nat :: h < |t| && InBlock(t, h, k)
  }

  /** The shape that every operation relies on: blocks end inside the table,
      and all of a block but its head is unmarked. */
  ghost predicate Shape(t: seq<Chunk>) {
    && (forall h: nat :: h < |t| ==> h + t[h].used <= |t|)
    && (forall h: nat, k: nat :: h < |t| && k < |t| && h < k && InBlock(t, h, k) ==> t[k].used == 0)
  }

  /** Unmarked chunks have no owner. */
  ghost predicate Clean(t: seq<Chunk>) {
    forall k: nat :: k < |t| && t[k].used == 0 ==> t[k].owner == 0
  }

  /** The addresses of the chunks, which do not wrap around. */
  ghost predicate Layout(t: seq<Chunk>, base: nat) {
    && 0 < base && base + CHUNK_SIZE * |t| <= TWO_32
    && forall k: nat :: k < |t| ==> t[k].busAddress == base + CHUNK_SIZE * k
  }

  /** n free chunks from i on. */
  ghost predicate FreeRun(t: seq<Chunk>, i: nat, n: nat) {
    i + n <= |t| && forall k: nat :: i <= k < i + n ==> !Occupied(t, k)
  }

  /** The plain search: the lowest free run of n chunks from i on, -1 if there is none. */
  ghost function LowestRun(t: seq<Chunk>, i: nat, n: nat): (r: int)
    ensures r == -1 || r >= i
    decreases |t| - i
  {
    if i + n > |t| || i >= |t| then -1 else if FreeRun(t, i, n) then i else LowestRun(t, i + 1, n)
  }

  /** LowestRun fails only if there is no free run of n chunks, and otherwise
      gives the lowest one. */
  lemma {:induction false} LowestRunIsLowest(t: seq<Chunk>, i: nat, n: nat)
    requires n > 0
    ensures var r := LowestRun(t, i, n);
            && (r == -1 <==> forall s: nat :: s >= i ==> !FreeRun(t, s, n))
            && (r != -1 ==> FreeRun(t, r, n) && forall s: nat :: i <= s < r ==> !FreeRun(t, s, n))
    decreases |t| - i
  {
    if i + n <= |t| && !FreeRun(t, i, n) {
      LowestRunIsLowest(t, i + 1, n);
    }
  }

  // ---------- the operations on the table ----------

  /** A request for no chunks is served like one for one chunk. */
  function RunLength(need: nat): (n: nat)
    ensures n > 0
  {
    if need == 0 then 1 else need
  }

  ghost function Allocated(t: seq<Chunk>, need: nat, owner: int): (seq<Chunk>, int) {
    LowestRunIsLowest(t, 0, RunLength(need));
    var i := LowestRun(t, 0, RunLength(need));
    if i == -1 then (t, -1) else (t[i := Chunk(t[i].busAddress, need, owner)], i)
  }

  function IndexOf(t: seq<Chunk>, address: nat, i: nat): (r: int)
    ensures r == -1 || i <= r < |t|
    decreases |t| - i
  {
    if i >= |t| then -1 else if t[i].busAddress == address then i else IndexOf(t, address, i + 1)
  }

  function Cleared(c: Chunk): Chunk {
    Chunk(c.busAddress, 0, 0)
  }

  function Freed(t: seq<Chunk>, address: nat, owner: int): (r: seq<Chunk>)
    ensures |r| == |t|
  {
    var i := IndexOf(t, address, 0);
    if i == -1 || t[i].owner != owner then t else t[i := Cleared(t[i])]
  }

  function Released(t: seq<Chunk>, owner: int): (r: seq<Chunk>)
    ensures |r| == |t|
  {
    seq(|t|, k requires 0 <= k < |t| => if t[k].owner == owner then Cleared(t[k]) else t[k])
  }

  function ResetTable(base: nat, n: nat): (r: seq<Chunk>)
    ensures |r| == n
  {
    seq(n, k requires 0 <= k < n => Chunk(base + CHUNK_SIZE * k, 0, 0))
  }

  class MemoryPool {
    const base: nat
    const table: array<Chunk>

    ghost predicate Valid()
      reads this, table
    {
      Shape(table[..]) && Layout(table[..], base)
    }

    /** mini_memalloc_init at an address other than 0. */
    constructor (address: nat)
      requires 0 < address && address + CHUNK_SIZE * CHUNKS <= TWO_32
      ensures base == address && fresh(table) && table.Length == 8192 && Valid() && table[..] == ResetTable(address, CHUNKS)
    {
      base := address;
      table := new Chunk[CHUNKS](_ => Chunk(0, 0, 0));
      new;
      ResetMems();
      ResetIsEmpty(address, CHUNKS);
    }

    /** mini_ResetMems. */
    method ResetMems()
      requires base + CHUNK_SIZE * table.Length <= TWO_32
      modifies table
      ensures table[..] == ResetTable(base, table.Length)
    {
      var ba := base;
      for i := 0 to table.Length
        invariant ba == Uint32(base + CHUNK_SIZE * i) || i == table.Length
        invariant forall k: nat :: k < i ==> table[k] == Chunk(base + CHUNK_SIZE * k, 0, 0)
      {
        table[i] := Chunk(ba, 0, 0);
        ba := Uint32(ba + CHUNK_SIZE);
      }
    }

    /** The search of AllocMemory, which skips whole blocks. */
    method FindRun(need: nat) returns (found: int)
      requires Shape(table[..])
      ensures found == LowestRun(table[..], 0, RunLength(need))
    {
      ghost var t, n := table[..], RunLength(need);
      LowestRunIsLowest(t, 0, n);
      var i := 0;
      while i < table.Length
        invariant 0 <= i <= table.Length && NoneBefore(t, i, n) && Boundary(t, i)
        decreases table.Length - i
      {
        if table[i].used == 0 {
          if i + need > table.Length {
            NoRoom(t, i, n);
            return -1;
          }
          var j := i;
          while j < i + need && table[j].used == 0
            invariant i <= j <= i + need
            invariant forall k: nat :: i <= k < j ==> t[k].used == 0
          {
            j := j + 1;
          }
          if j == i + need {
            RunFound(t, i, n);
            return i;
          }
          SkipBlock(t, i, j, n);
          i := j + table[j].used;
        } else {
          SkipBlock(t, i, i, n);
          i := i + table[i].used;
        }
      }
      NoRoom(t, i, n);
      return -1;
    }

    /** AllocMemory. */
    method AllocMemory(size: nat, owner: int) returns (busAddress: nat, code: int)
      requires Valid() && size < TWO_32
      modifies table
      ensures var (t, i) := Allocated(old(table[..]), Need(size), owner);
              && table[..] == t
              && busAddress == (if i == -1 then 0 else base + 4096 * i)
              && code == if i == -1 then -1 else 0
      ensures Valid()
    {
      var need := Uint32(size + CHUNK_SIZE - 1) / CHUNK_SIZE;
      busAddress := 0;
      var i := FindRun(need);
      AllocatedShape(table[..], need, owner, base);
      if i != -1 {
        LowestRunIsLowest(table[..], 0, RunLength(need));
        busAddress := table[i].busAddress;
        table[i] := table[i].(owner := owner);
        table[i] := table[i].(used := need);
      }
      return busAddress, if busAddress == 0 then -1 else 0;
    }

    /** FreeMemory. */
    method FreeMemory(busAddress: nat, owner: int)
      requires Valid()
      modifies table
      ensures table[..] == Freed(old(table[..]), busAddress, owner) && Valid()
    {
      FreedShape(table[..], busAddress, owner, base);
      var i := 0;
      while i < table.Length && table[i].busAddress != busAddress
        invariant 0 <= i <= table.Length
        invariant IndexOf(table[..], busAddress, 0) == IndexOf(table[..], busAddress, i)
      {
        i := i + 1;
      }
      if i < table.Length && table[i].owner == owner {
        table[i] := table[i].(owner := 0);
        table[i] := table[i].(used := 0);
      }
    }

    /** memalloc_release. */
    method Release(owner: int)
      requires Valid()
      modifies table
      ensures table[..] == Released(old(table[..]), owner) && Valid()
    {
      ghost var t := table[..];
      ReleasedShape(t, owner, base);
      for i := 0 to table.Length
        invariant forall k: nat :: k < i ==> table[k] == Released(t, owner)[k]
        invariant forall k: nat :: i <= k < table.Length ==> table[k] == t[k]
      {
        if table[i].owner == owner {
          table[i] := table[i].(owner := 0, used := 0);
        }
      }
      assert table[..] == Released(t, owner);
    }
  }

  // ---------- why the search may skip ----------

  ghost predicate NoneBefore(t: seq<Chunk>, i: nat, n: nat) {
    forall s: nat :: s < i ==> !FreeRun(t, s, n)
  }

  /** No block reaches from below i to i. */
  ghost predicate Boundary(t: seq<Chunk>, i: nat) {
    forall h: nat :: h < |t| && h < i ==> h + t[h].used <= i
  }

  lemma NoRoom(t: seq<Chunk>, i: nat, n: nat)
    requires NoneBefore(t, i, n) && n > 0 && i + n > |t|
    ensures LowestRun(t, 0, n) == -1
  {
    LowestRunIsLowest(t, 0, n);
    assert forall s: nat :: !FreeRun(t, s, n);
  }

  lemma HeadOccupies(t: seq<Chunk>, k: nat)
    requires k < |t|
    ensures t[k].used > 0 ==> Occupied(t, k)
  {
    if t[k].used > 0 {
      assert InBlock(t, k, k);
    }
  }

  lemma RunFound(t: seq<Chunk>, i: nat, n: nat)
    requires NoneBefore(t, i, n) && n > 0 && Boundary(t, i) && i + n <= |t|
    requires forall k: nat :: i <= k < i + n ==> t[k].used == 0
    ensures LowestRun(t, 0, n) == i
  {
    forall k: nat | i <= k < i + n
      ensures !Occupied(t, k)
    {
      forall h: nat | h < |t|
        ensures !InBlock(t, h, k)
      {
        if h < i {
          assert h + t[h].used <= i;
        }
      }
    }
    assert FreeRun(t, i, n);
    LowestRunIsLowest(t, 0, n);
  }

  /** No free run of n chunks starts at i or later before the end of the block
      at j, if it would have to run into that block. */
  lemma SkipBlock(t: seq<Chunk>, i: nat, j: nat, n: nat)
    requires Shape(t) && NoneBefore(t, i, n) && Boundary(t, i) && n > 0
    requires i <= j < |t| && t[j].used > 0 && (j < i + n)
    requires forall k: nat :: i <= k < j ==> t[k].used == 0
    ensures var next := j + t[j].used; next <= |t| && NoneBefore(t, next, n) && Boundary(t, next)
  {
    var next := j + t[j].used;
    forall s: nat | i <= s < next
      ensures !FreeRun(t, s, n)
    {
      var k := if s <= j then j else s;
      assert InBlock(t, j, k);
      assert Occupied(t, k);
    }
    forall h: nat | h < |t| && h < next
      ensures h + t[h].used <= next
    {
      if j < h {
        assert InBlock(t, j, h);
      }
    }
  }

  // ---------- what the operations keep ----------

  lemma ResetIsEmpty(base: nat, n: nat)
    requires 0 < base && base + CHUNK_SIZE * n <= TWO_32
    ensures Shape(ResetTable(base, n)) && Clean(ResetTable(base, n)) && Layout(ResetTable(base, n), base)
  {
  }

  lemma AllocatedShape(t: seq<Chunk>, need: nat, owner: int, base: nat)
    requires Shape(t) && Layout(t, base)
    ensures var r := Allocated(t, need, owner).0;
            |r| == |t| && Shape(r) && Layout(r, base) && (need > 0 && Clean(t) ==> Clean(r))
  {
    LowestRunIsLowest(t, 0, RunLength(need));
    var (r, i) := Allocated(t, need, owner);
    if i != -1 {
      forall h: nat, k: nat | h < |r| && k < |r| && h < k && InBlock(r, h, k)
        ensures r[k].used == 0
      {
        HeadOccupies(t, k);
        if h != i {
          assert InBlock(t, h, k);
          assert Occupied(t, k);
        }
      }
    }
  }

  lemma FreedShape(t: seq<Chunk>, address: nat, owner: int, base: nat)
    requires Shape(t) && Layout(t, base)
    ensures Shape(Freed(t, address, owner)) && Layout(Freed(t, address, owner), base)
  {
    var r := Freed(t, address, owner);
    forall h: nat, k: nat | h < |r| && k < |r| && h < k && InBlock(r, h, k)
      ensures r[k].used == 0
    {
      assert InBlock(t, h, k);
    }
  }

  lemma ReleasedShape(t: seq<Chunk>, owner: int, base: nat)
    requires Shape(t) && Layout(t, base)
    ensures Shape(Released(t, owner)) && Layout(Released(t, owner), base)
  {
    var r := Released(t, owner);
    forall h: nat, k: nat | h < |r| && k < |r| && h < k && InBlock(r, h, k)
      ensures r[k].used == 0
    {
      assert InBlock(t, h, k);
    }
  }

  // ---------- the live blocks ----------

  datatype Block = Block(head: nat, length: nat, owner: int)

  /** The blocks in use. */
  ghost function Blocks(t: seq<Chunk>): set<Block> {
    set h | 0 <= h < |t| && t[h].used > 0 :: Block(h, t[h].used, t[h].owner)
  }

  predicate Apart(a: Block, b: Block) {
    a.head + a.length <= b.head || b.head + b.length <= a.head
  }

  /** Blocks in use lie inside the pool and apart from each other. */
  lemma BlocksAreApart(t: seq<Chunk>, a: Block, b: Block)
    requires Shape(t) && a in Blocks(t) && b in Blocks(t)
    ensures a.head + a.length <= |t| && (a != b ==> Apart(a, b))
  {
    assert InBlock(t, a.head, b.head) <==> a.head <= b.head < a.head + a.length;
    assert InBlock(t, b.head, a.head) <==> b.head <= a.head < b.head + b.length;
  }

  lemma BlockAt(t: seq<Chunk>, b: Block)
    ensures b in Blocks(t) <==> b.head < |t| && b.length > 0 && t[b.head].used == b.length && t[b.head].owner == b.owner
  {
  }

  /** A request is served by a new block of the chunks it needs, apart from all
      blocks in use and with no lower place; the blocks in use stay. A request
      that needs no chunks gets an address but no block. */
  lemma AllocationIsExact(t: seq<Chunk>, need: nat, owner: int)
    requires Shape(t)
    ensures var (r, i) := Allocated(t, need, owner);
            && (i == -1 <==> forall s: nat :: !FreeRun(t, s, RunLength(need)))
            && (i == -1 ==> r == t)
            && (i != -1 ==> FreeRun(t, i, RunLength(need)) && forall s: nat :: s < i ==> !FreeRun(t, s, RunLength(need)))
            && (i != -1 && need > 0 ==>
                  && Block(i, need, owner) !in Blocks(t) && Blocks(r) == Blocks(t) + {Block(i, need, owner)}
                  && forall b :: b in Blocks(t) ==> Apart(b, Block(i, need, owner)))
            && (i != -1 && need == 0 ==> Blocks(r) == Blocks(t))
  {
    LowestRunIsLowest(t, 0, RunLength(need));
    var (r, i) := Allocated(t, need, owner);
    if i != -1 {
      HeadOccupies(t, i);
      assert t[i].used == 0;
      BlocksAfterUpdate(t, i, r[i]);
      forall b | b in Blocks(t) && need > 0
        ensures Apart(b, Block(i, need, owner))
      {
        ApartFromRun(t, b, Block(i, need, owner));
      }
    }
  }

  lemma ApartFromRun(t: seq<Chunk>, b: Block, c: Block)
    requires b in Blocks(t) && c.length > 0 && FreeRun(t, c.head, c.length)
    ensures Apart(b, c)
  {
    BlockAt(t, b);
    assert !Occupied(t, c.head);
    assert InBlock(t, b.head, c.head) <==> b.head <= c.head < b.head + b.length;
    HeadOccupies(t, b.head);
  }

  lemma BlocksAfterUpdate(t: seq<Chunk>, i: nat, c: Chunk)
    requires i < |t|
    ensures Blocks(t[i := c]) == Blocks(t) - (if t[i].used > 0 then {Block(i, t[i].used, t[i].owner)} else {})
                                 + (if c.used > 0 then {Block(i, c.used, c.owner)} else {})
  {
    var r := t[i := c];
    forall b
      ensures b in Blocks(r) <==> (b in Blocks(t) && b.head != i) || (c.used > 0 && b == Block(i, c.used, c.owner))
    {
      BlockAt(r, b);
      BlockAt(t, b);
    }
  }

  lemma {:induction false} AddressFound(t: seq<Chunk>, base: nat, k: nat, i: nat)
    requires Layout(t, base) && i <= k < |t|
    ensures IndexOf(t, base + CHUNK_SIZE * k, i) == k
    decreases k - i
  {
    if i < k {
      AddressFound(t, base, k, i + 1);
    }
  }

  lemma {:induction false} AddressOf(t: seq<Chunk>, address: nat, i: nat)
    ensures var r := IndexOf(t, address, i); r != -1 ==> t[r].busAddress == address
    decreases |t| - i
  {
    if i < |t| && t[i].busAddress != address {
      AddressOf(t, address, i + 1);
    }
  }

  /** Freeing removes the caller's block at that address and no other. */
  lemma FreeingIsExact(t: seq<Chunk>, base: nat, address: nat, owner: int)
    requires Layout(t, base)
    ensures forall b: Block :: b in Blocks(Freed(t, address, owner)) <==>
              b in Blocks(t) && !(b.owner == owner && base + CHUNK_SIZE * b.head == address)
    ensures Clean(t) ==> Clean(Freed(t, address, owner))
  {
    var r := Freed(t, address, owner);
    var i := IndexOf(t, address, 0);
    AddressOf(t, address, 0);
    forall b: Block
      ensures b in Blocks(r) <==> b in Blocks(t) && !(b.owner == owner && base + CHUNK_SIZE * b.head == address)
    {
      BlockAt(t, b);
      BlockAt(r, b);
      if b.head < |t| {
        AddressFound(t, base, b.head, 0);
      }
    }
  }

  /** Releasing an owner removes exactly the blocks of that owner. */
  lemma ReleasingIsExact(t: seq<Chunk>, owner: int)
    ensures forall b: Block :: b in Blocks(Released(t, owner)) <==> b in Blocks(t) && b.owner != owner
    ensures Clean(t) ==> Clean(Released(t, owner))
  {
    forall b: Block
      ensures b in Blocks(Released(t, owner)) <==> b in Blocks(t) && b.owner != owner
    {
      BlockAt(t, b);
      BlockAt(Released(t, owner), b);
    }
  }

  /** Freeing what was just allocated restores the table. */
  lemma AllocThenFree(t: seq<Chunk>, base: nat, need: nat, owner: int)
    requires Shape(t) && Clean(t) && Layout(t, base) && Allocated(t, need, owner).1 != -1
    ensures var (r, i) := Allocated(t, need, owner);
            Freed(r, base + CHUNK_SIZE * i, owner) == t
  {
    LowestRunIsLowest(t, 0, RunLength(need));
    var (r, i) := Allocated(t, need, owner);
    AllocatedShape(t, need, owner, base);
    AddressFound(r, base, i, 0);
    HeadOccupies(t, i);
    assert Cleared(r[i]) == t[i];
  }

  // ---------- runs ----------

  datatype Op = Alloc(size: nat, owner: int) | Free(address: nat, owner: int) | Release(owner: int)

  /** A size is an unsigned int. */
  predicate FitsWord(op: Op) {
    op.Alloc? ==> op.size < TWO_32
  }

  /** A request for a positive size that does not wrap around. */
  predicate Sized(op: Op) {
    op.Alloc? ==> 0 < op.size <= TWO_32 - CHUNK_SIZE
  }

  ghost function Apply(t: seq<Chunk>, op: Op): seq<Chunk>
    requires FitsWord(op)
  {
    match op
    case Alloc(size, owner) => Allocated(t, Need(size), owner).0
    case Free(address, owner) => Freed(t, address, owner)
    case Release(owner) => Released(t, owner)
  }

  ghost function ApplyAll(t: seq<Chunk>, ops: seq<Op>): seq<Chunk>
    requires forall op :: op in ops ==> FitsWord(op)
    decreases |ops|
  {
    if ops == [] then t else ApplyAll(Apply(t, ops[0]), ops[1..])
  }

  ghost predicate Sound(t: seq<Chunk>, base: nat, n: nat) {
    |t| == n && Shape(t) && Layout(t, base)
  }

  lemma StepIsSound(t: seq<Chunk>, base: nat, n: nat, op: Op)
    requires Sound(t, base, n) && FitsWord(op)
    ensures Sound(Apply(t, op), base, n) && (Clean(t) && Sized(op) ==> Clean(Apply(t, op)))
  {
    match op
    case Alloc(size, owner) =>
      AllocatedShape(t, Need(size), owner, base);
    case Free(address, owner) =>
      FreedShape(t, address, owner, base);
    case Release(owner) =>
      ReleasedShape(t, owner, base);
  }

  lemma {:induction false} RunIsSound(t: seq<Chunk>, base: nat, n: nat, ops: seq<Op>)
    requires Sound(t, base, n) && forall op :: op in ops ==> FitsWord(op)
    ensures Sound(ApplyAll(t, ops), base, n)
    ensures Clean(t) && (forall op :: op in ops ==> Sized(op)) ==> Clean(ApplyAll(t, ops))
    decreases |ops|
  {
    hide Sound, Apply, Clean, FitsWord, Sized;
    if ops != [] {
      StepIsSound(t, base, n, ops[0]);
      RunIsSound(Apply(t, ops[0]), base, n, ops[1..]);
    }
  }

  /** After every sequence of operations from a reset, requests for no bytes
      included, the table has its shape and the blocks in use lie apart inside
      the pool; without such requests unmarked chunks have no owner. */
  lemma RunFromReset(base: nat, n: nat, ops: seq<Op>)
    requires 0 < base && base + CHUNK_SIZE * n <= TWO_32 && forall op :: op in ops ==> FitsWord(op)
    ensures var t := ApplyAll(ResetTable(base, n), ops);
            && Sound(t, base, n) && ((forall op :: op in ops ==> Sized(op)) ==> Clean(t))
            && forall a, b :: a in Blocks(t) && b in Blocks(t) ==>
                 a.head + a.length <= n && (a != b ==> Apart(a, b))
  {
    ResetIsEmpty(base, n);
    RunIsSound(ResetTable(base, n), base, n, ops);
    var t := ApplyAll(ResetTable(base, n), ops);
    forall a, b | a in Blocks(t) && b in Blocks(t)
      ensures a.head + a.length <= n && (a != b ==> Apart(a, b))
    {
      BlocksAreApart(t, a, b);
    }
  }

  /** A request for size 0 reserves nothing: the next one-chunk request is
      given the same chunk, so that two callers hold one address. */
  lemma ZeroSizeReservesNothing(t: seq<Chunk>, base: nat, owner: int, other: int)
    requires Shape(t) && Layout(t, base) && Allocated(t, Need(0), owner).1 != -1
    ensures var (r, i) := Allocated(t, Need(0), owner); Allocated(r, Need(1), other).1 == i
  {
    LowestRunIsLowest(t, 0, 1);
    var (r, i) := Allocated(t, Need(0), owner);
    LowestRunIsLowest(r, 0, 1);
    HeadOccupies(t, i);
    forall k: nat
      ensures Occupied(r, k) <==> Occupied(t, k)
    {
      SameOccupancy(t, r, i, k);
    }
    assert forall s: nat :: FreeRun(r, s, 1) <==> FreeRun(t, s, 1);
  }

  lemma SameOccupancy(t: seq<Chunk>, r: seq<Chunk>, i: nat, k: nat)
    requires i < |t| && |r| == |t| && r == t[i := r[i]] && r[i].used == t[i].used
    ensures Occupied(r, k) <==> Occupied(t, k)
  {
    forall h: nat | h < |t|
      ensures InBlock(r, h, k) <==> InBlock(t, h, k)
    {
    }
  }
}
