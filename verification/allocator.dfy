/**
 * The two-pool memory allocator. Each pool hands out blocks downwards from
 * its top; a block is preceded by an 8-byte header {"\x7fMBL", size}, and
 * only the most recent block of a pool can be given back.
 *
 * The static `pools[2]` table is an array of `Pool` values and the block
 * headers the allocator writes into RAM are a map from header address to
 * header. Memory that never received a header is taken not to hold the
 * block magic.
 */
module Allocator {
  import opened Types
  import Utils

  const MAX_POOLS: nat := 2

  /** enum pool_idx */
  const POOL_MEM1: int := 0
  const POOL_MEM2: int := 1
  const POOL_ANY: int := 2

  /** "\x7fMEMPOOL" */
  const POOL_HDR_MAGIC: seq<u8> := [0x7f, 0x4d, 0x45, 0x4d, 0x50, 0x4f, 0x4f, 0x4c]
  /** "\x7fMBL" */
  const BLOCK_HDR_MAGIC: seq<u8> := [0x7f, 0x4d, 0x42, 0x4c]
  /** sizeof(struct block): four magic bytes and a u32 size. */
  const BLOCK_HDR_SIZE: u32 := 8
  /** Lowest MEM1 address the first pool may use (just above the exception vectors). */
  const MEM1_POOL_BOTTOM: u32 := 0x8000_4000

  datatype Pool = Pool(magic: seq<u8>, top: u32, bottom: u32, curBottom: u32)
  datatype BlockHeader = BlockHeader(magic: seq<u8>, size: u32)

  /** The allocator's whole state: the pool table and the headers it wrote. */
  datatype Heap = Heap(pools: seq<Pool>, headers: map<u32, BlockHeader>)

  /** A zero-initialised static pool: no magic, no memory. */
  const ZERO_POOL: Pool := Pool([0, 0, 0, 0, 0, 0, 0, 0], 0, 0, 0)

  datatype AllocResult = Null | Ptr(mem: u32) | AllocPanic
  datatype FreeResult = Returned | FreePanic

  predicate WellFormed(h: Heap) { |h.pools| == MAX_POOLS }
  predicate MagicOk(p: Pool) { p.magic == POOL_HDR_MAGIC }
  /** top, bottom and cur_bottom all zero: the pool does not exist. */
  predicate Absent(p: Pool) { p.top == 0 && p.bottom == 0 && p.curBottom == 0 }

  /** Bytes between the current bottom and the pool's end, as the u32 difference. */
  function FreeBytes(p: Pool): u32 { Sub32(p.curBottom, p.bottom) }

  // ------------------------------------------------------------ specification

  /** `_poolAlloc(&pools[i], size)` as written: the new cur_bottom is old - size + 8. */
  function PoolAllocAsWritten(h: Heap, i: nat, size: u32): (AllocResult, Heap)
    requires WellFormed(h) && i < MAX_POOLS
  {
    var p := h.pools[i];
    if !MagicOk(p) then (AllocPanic, h)
    else if Absent(p) then (Null, h)
    else
      var mem := Sub32(p.curBottom, size);
      var block := Sub32(mem, BLOCK_HDR_SIZE);
      var bottom := Sub32(p.curBottom, Sub32(size, BLOCK_HDR_SIZE));
      (Ptr(mem), Heap(h.pools[i := p.(curBottom := bottom)],
                      h.headers[block := BlockHeader(BLOCK_HDR_MAGIC, size)]))
  }

  /** `M_PoolAlloc(sel, size)` on console `c`. */
  function MPoolAlloc(c: Console, h: Heap, sel: int, size: u32): (AllocResult, Heap)
    requires WellFormed(h)
  {
    if sel == POOL_MEM1 || sel == POOL_MEM2 then PoolAlloc(h, sel, size)
    else if sel == POOL_ANY then
      if c == GameCube then PoolAlloc(h, POOL_MEM1, size)
      else if !MagicOk(h.pools[POOL_MEM1]) || !MagicOk(h.pools[POOL_MEM2]) then (AllocPanic, h)
      else if FreeBytes(h.pools[POOL_MEM1]) > FreeBytes(h.pools[POOL_MEM2]) then PoolAlloc(h, POOL_MEM1, size)
      else PoolAlloc(h, POOL_MEM2, size)
    else (AllocPanic, h)
  }

  /** The body of `free`'s loop from pool i onwards. */
  function FreeFrom(h: Heap, ptr: u32, i: nat): (FreeResult, Heap)
    requires WellFormed(h) && i <= MAX_POOLS
    decreases MAX_POOLS - i
  {
    if i == MAX_POOLS then (Returned, h)
    else
      var p := h.pools[i];
      if !MagicOk(p) then (FreePanic, h)
      else if Absent(p) then FreeFrom(h, ptr, i + 1)
      else
        var mem := Sub32(ptr, BLOCK_HDR_SIZE);
        if mem == p.curBottom then
          if mem !in h.headers || h.headers[mem].magic != BLOCK_HDR_MAGIC then (FreePanic, h)
          else
            var bottom := Add32(p.curBottom, Add32(BLOCK_HDR_SIZE, h.headers[mem].size));
            (Returned, h.(pools := h.pools[i := p.(curBottom := bottom)]))
        else FreeFrom(h, ptr, i + 1)
  }

  /** `free(ptr)`. */
  function Free(h: Heap, ptr: u32): (FreeResult, Heap)
    requires WellFormed(h)
  {
    FreeFrom(h, ptr, 0)
  }

  /** `ALIGN_UP(size, 32 - sizeof(struct block))`: `(size + 23) & ~23`. */
  function MallocSize(size: u32): u32
  {
    And32(Add32(size, 24 - 1), Not32(24 - 1))
  }

  /** `malloc(size)`. */
  function Malloc(c: Console, h: Heap, size: u32): (AllocResult, Heap)
    requires WellFormed(h)
  {
    MPoolAlloc(c, h, POOL_ANY, MallocSize(size))
  }

  /** The pool M_Init places in MEM1, below the relocated loader image at `relocDest`. */
  function Mem1Pool(relocDest: u32): Pool
  {
    Pool(POOL_HDR_MAGIC, relocDest, MEM1_POOL_BOTTOM, relocDest)
  }

  /** The pool M_Init places over the whole of the Wii's MEM2. */
  const MEM2_POOL: Pool := Pool(POOL_HDR_MAGIC, Utils.MEM2_CACHED_BASE + Utils.MEM2_SIZE_WII,
                                Utils.MEM2_CACHED_BASE, Utils.MEM2_CACHED_BASE + Utils.MEM2_SIZE_WII)

  /** `M_Init()`: the Wii case falls through into the empty Wii U case. */
  function Init(c: Console, h: Heap, relocDest: u32): Heap
    requires WellFormed(h)
  {
    match c
    case GameCube => h.(pools := h.pools[0 := Mem1Pool(relocDest)])
    case Wii => h.(pools := h.pools[0 := Mem1Pool(relocDest)][1 := MEM2_POOL])
    case WiiU => h
  }

  // ----------------------------------------------------------------- lemmas

  /** Every outcome of `_poolAlloc`: panic on a bad magic, NULL for an absent pool, otherwise a block. */
  lemma PoolAllocOutcome(h: Heap, i: nat, size: u32)
    requires WellFormed(h) && i < MAX_POOLS
    ensures var (r, h') := PoolAllocAsWritten(h, i, size);
      && (r.AllocPanic? <==> !MagicOk(h.pools[i]))
      && (r.Null? <==> MagicOk(h.pools[i]) && Absent(h.pools[i]))
      && (!r.Ptr? ==> h' == h)
      && (r.Ptr? ==>
            && WellFormed(h')
            && r.mem == Sub32(h.pools[i].curBottom, size)
            && h'.headers == h.headers[Sub32(r.mem, 8) := BlockHeader(BLOCK_HDR_MAGIC, size)]
            && h'.pools[i] == h.pools[i].(curBottom := Add32(Sub32(h.pools[i].curBottom, size), 8))
            && (forall j :: 0 <= j < MAX_POOLS && j != i ==> h'.pools[j] == h.pools[j]))
  {
    AsWrittenBottom(h.pools[i].curBottom, size);
  }

  /** No exhaustion check: a live pool hands out a block of any size, even past its bottom. */
  lemma NoExhaustionCheck(h: Heap, i: nat, size: u32)
    requires WellFormed(h) && i < MAX_POOLS
    requires MagicOk(h.pools[i]) && !Absent(h.pools[i])
    requires size > FreeBytes(h.pools[i])
    ensures PoolAllocAsWritten(h, i, size).0.Ptr?
  {
  }

  /** The new cur_bottom sits 16 bytes above the header just written. */
  lemma CurBottomAboveHeader(h: Heap, i: nat, size: u32)
    requires WellFormed(h) && i < MAX_POOLS
    requires PoolAllocAsWritten(h, i, size).0.Ptr?
    ensures var (r, h') := PoolAllocAsWritten(h, i, size);
      h'.pools[i].curBottom == Add32(Sub32(r.mem, BLOCK_HDR_SIZE), 16)
  {
    AsWrittenBottom(h.pools[i].curBottom, size);
  }

  /** The as-written cur_bottom, old - (size - 8), is old - size + 8 and the header + 16, all mod 2^32. */
  lemma AsWrittenBottom(cur: u32, size: u32)
    ensures Sub32(cur, Sub32(size, 8)) == Add32(Sub32(cur, size), 8)
    ensures Sub32(cur, Sub32(size, 8)) == Add32(Sub32(Sub32(cur, size), 8), 16)
  {
    ModInner32(size - 8, cur);
    ModInner32(cur - size, 8);
    ModInner32(cur - size, -8);
    ModInner32(cur - size - 8, 16);
  }

  /** With the corrected step, header + (8 + size) is the old cur_bottom again, mod 2^32. */
  lemma CorrectedRestores(cur: u32, size: u32)
    ensures Add32(Sub32(Sub32(cur, size), 8), Add32(8, size)) == cur
  {
    var hdr := Sub32(Sub32(cur, size), 8);
    var s := Add32(8, size);
    ModInner32(cur - size, -8);
    assert hdr == (cur - size - 8) % TWO_32;
    ModInner32(cur - size - 8, s);
    assert Add32(hdr, s) == (cur - size - 8 + s) % TWO_32;
    ModInner32(8 + size, cur - size - 8);
    assert (cur - size - 8 + s) % TWO_32 == cur % TWO_32;
    DivModUnique(cur, TWO_32, 0, cur);
  }

  /**
   * As written, freeing the block just allocated matches no pool and changes
   * nothing: the allocating pool's cur_bottom is 16 bytes above the header.
   */
  lemma FreshBlockIsNeverFreed(h: Heap, i: nat, size: u32)
    requires WellFormed(h) && i < MAX_POOLS
    requires forall j :: 0 <= j < MAX_POOLS ==> MagicOk(h.pools[j])
    requires PoolAllocAsWritten(h, i, size).0.Ptr?
    requires var (r, _) := PoolAllocAsWritten(h, i, size);
      forall j :: 0 <= j < MAX_POOLS && j != i ==> h.pools[j].curBottom != Sub32(r.mem, BLOCK_HDR_SIZE)
    ensures var (r, h') := PoolAllocAsWritten(h, i, size);
      Free(h', r.mem) == (Returned, h')
  {
    var (r, h') := PoolAllocAsWritten(h, i, size);
    var hdr := Sub32(r.mem, BLOCK_HDR_SIZE);
    assert h'.pools[i].curBottom != hdr;
    if i == 0 {
      assert FreeFrom(h', r.mem, 0) == FreeFrom(h', r.mem, 1);
    } else {
      assert FreeFrom(h', r.mem, 1) == FreeFrom(h', r.mem, 2);
    }
  }

  /** The allocation the code evidently intends: cur_bottom moves down to the header. */
  function PoolAlloc(h: Heap, i: nat, size: u32): (AllocResult, Heap)
    requires WellFormed(h) && i < MAX_POOLS
  {
    var p := h.pools[i];
    if !MagicOk(p) then (AllocPanic, h)
    else if Absent(p) then (Null, h)
    else
      var mem := Sub32(p.curBottom, size);
      var block := Sub32(mem, BLOCK_HDR_SIZE);
      (Ptr(mem), Heap(h.pools[i := p.(curBottom := block)],
                      h.headers[block := BlockHeader(BLOCK_HDR_MAGIC, size)]))
  }

  /**
   * With the corrected step, freeing the most recent block undoes the
   * allocation: every pool is back to what it was.
   */
  lemma FixedAllocThenFreeRestores(h: Heap, i: nat, size: u32)
    requires WellFormed(h) && i < MAX_POOLS
    requires forall j :: 0 <= j < MAX_POOLS ==> MagicOk(h.pools[j])
    requires h.pools[i].bottom != 0
    requires PoolAlloc(h, i, size).0.Ptr?
    requires var (r, _) := PoolAlloc(h, i, size);
      forall j :: 0 <= j < MAX_POOLS && j != i ==> h.pools[j].curBottom != Sub32(r.mem, BLOCK_HDR_SIZE)
    ensures var (r, h') := PoolAlloc(h, i, size);
      Free(h', r.mem).0 == Returned && Free(h', r.mem).1.pools == h.pools
  {
    var (r, h') := PoolAlloc(h, i, size);
    var hdr := Sub32(r.mem, BLOCK_HDR_SIZE);
    assert h'.pools[i].curBottom == hdr && h'.headers[hdr].size == size;
    CorrectedRestores(h.pools[i].curBottom, size);
    assert Add32(hdr, Add32(BLOCK_HDR_SIZE, size)) == h.pools[i].curBottom;
    assert h'.pools[i].(curBottom := h.pools[i].curBottom) == h.pools[i];
    assert !Absent(h'.pools[i]);
    if i == 1 {
      assert FreeFrom(h', r.mem, 0) == FreeFrom(h', r.mem, 1);
    }
  }

  /**
   * As written, two consecutive allocations from one pool overlap: the second
   * block ends 8 bytes above the start of the first.
   */
  lemma ConsecutiveAllocationsOverlap(h: Heap, i: nat, size1: u32, size2: u32)
    requires WellFormed(h) && i < MAX_POOLS
    requires MagicOk(h.pools[i]) && !Absent(h.pools[i]) && size1 >= 8
    requires h.pools[i].curBottom >= size1 + size2 + 16
    ensures var (r1, h1) := PoolAllocAsWritten(h, i, size1);
      var (r2, _) := PoolAllocAsWritten(h1, i, size2);
      r1.Ptr? && r2.Ptr? && r2.mem + size2 == r1.mem + 8
  {
    var (r1, h1) := PoolAllocAsWritten(h, i, size1);
    var cur := h.pools[i].curBottom;
    DivModUnique(cur - size1, TWO_32, 0, cur - size1);
    DivModUnique(size1 - 8, TWO_32, 0, size1 - 8);
    DivModUnique(cur - size1 + 8, TWO_32, 0, cur - size1 + 8);
    assert r1.mem == cur - size1;
    assert Sub32(size1, 8) == size1 - 8;
    assert Sub32(cur, Sub32(size1, 8)) == cur - size1 + 8;
    assert h1.pools[i] == h.pools[i].(curBottom := Sub32(cur, Sub32(size1, 8)));
    assert !Absent(h1.pools[i]);
  }

  /** With the corrected step, the second block and its header lie wholly below the first header. */
  lemma ConsecutiveAllocationsDisjoint(h: Heap, i: nat, size1: u32, size2: u32)
    requires WellFormed(h) && i < MAX_POOLS
    requires MagicOk(h.pools[i]) && !Absent(h.pools[i])
    requires h.pools[i].curBottom >= size1 + size2 + 16
    ensures var (r1, h1) := PoolAlloc(h, i, size1);
      var (r2, _) := PoolAlloc(h1, i, size2);
      r1.Ptr? && r2.Ptr? && r2.mem + size2 == r1.mem - BLOCK_HDR_SIZE
  {
    var (r1, h1) := PoolAlloc(h, i, size1);
    assert h1.pools[i].curBottom == r1.mem - 8;
    assert !Absent(h1.pools[i]);
  }

  /** `free` scans pools in index order and changes at most the first pool whose cur_bottom is ptr - 8. */
  lemma {:induction false} FreeChangesOnlyMatchingPool(h: Heap, ptr: u32, i: nat)
    requires WellFormed(h) && i <= MAX_POOLS
    ensures var (r, h') := FreeFrom(h, ptr, i);
      && WellFormed(h') && h'.headers == h.headers
      && (r == FreePanic ==> h' == h)
      && (forall j :: 0 <= j < MAX_POOLS && h'.pools[j] != h.pools[j] ==>
            i <= j && h.pools[j].curBottom == Sub32(ptr, BLOCK_HDR_SIZE) && MagicOk(h.pools[j]) && !Absent(h.pools[j])
            && h'.pools[j] == h.pools[j].(curBottom := h'.pools[j].curBottom)
            && (forall k :: i <= k < j ==> Absent(h.pools[k]) || h.pools[k].curBottom != Sub32(ptr, BLOCK_HDR_SIZE)))
    decreases MAX_POOLS - i
  {
    if i < MAX_POOLS {
      FreeChangesOnlyMatchingPool(h, ptr, i + 1);
    }
  }

  /** A pointer that matches no live pool is ignored. */
  lemma {:induction false} FreeOfUnknownPointer(h: Heap, ptr: u32, i: nat)
    requires WellFormed(h) && i <= MAX_POOLS
    requires forall j :: i <= j < MAX_POOLS ==> MagicOk(h.pools[j])
    requires forall j :: i <= j < MAX_POOLS ==> Absent(h.pools[j]) || h.pools[j].curBottom != Sub32(ptr, BLOCK_HDR_SIZE)
    ensures FreeFrom(h, ptr, i) == (Returned, h)
    decreases MAX_POOLS - i
  {
    if i < MAX_POOLS {
      FreeOfUnknownPointer(h, ptr, i + 1);
    }
  }

  /** POOL_ANY: MEM1 on GameCube; elsewhere MEM1 iff it has strictly more free bytes. Unknown selectors panic. */
  lemma AnyPoolChoice(c: Console, h: Heap, sel: int, size: u32)
    requires WellFormed(h)
    ensures sel == POOL_ANY && c == GameCube ==> MPoolAlloc(c, h, sel, size) == PoolAlloc(h, 0, size)
    ensures sel == POOL_ANY && c != GameCube && (!MagicOk(h.pools[0]) || !MagicOk(h.pools[1])) ==>
      MPoolAlloc(c, h, sel, size) == (AllocPanic, h)
    ensures sel == POOL_ANY && c != GameCube && MagicOk(h.pools[0]) && MagicOk(h.pools[1]) ==>
      MPoolAlloc(c, h, sel, size) == PoolAlloc(h, if FreeBytes(h.pools[0]) > FreeBytes(h.pools[1]) then 0 else 1, size)
    ensures sel !in {POOL_MEM1, POOL_MEM2, POOL_ANY} ==> MPoolAlloc(c, h, sel, size) == (AllocPanic, h)
  {
  }

  /** malloc's rounding: at least size, at most size + 23, with bits 0, 1, 2 and 4 clear. */
  lemma MallocSizeBounds(size: u32)
    requires size + 23 < TWO_32
    ensures size <= MallocSize(size) <= size + 23
    ensures And32(MallocSize(size), 23) == 0
  {
    var x := Add32(size, 23);
    assert x == size + 23;
    Pow2Values();
    assert Not32(23) == Pow2(32) - 1 - 23;
    AndComplement(x, 23, 32);
    AndBound(x, 23);
    AndComplementZero(23, 32);
    AndOfDisjoint(x, Not32(23), 23);
  }

  /** The mask 23 is not a power of two minus one: one byte rounds up to 8, which is no multiple of 24. */
  lemma MallocSizeOfOne()
    ensures MallocSize(1) == 8
  {
    Pow2Values();
    assert Not32(23) == Pow2(32) - 1 - 23;
    AndComplement(24, 23, 32);
    assert BitAnd(24, 23) == 16;
  }

  /** And 24 bytes round up to 40, which is no multiple of 24 or 32 either. */
  lemma MallocSizeOfTwentyFour()
    ensures MallocSize(24) == 40
  {
    Pow2Values();
    assert Not32(23) == Pow2(32) - 1 - 23;
    AndComplement(47, 23, 32);
    assert BitAnd(47, 23) == 7;
  }

  /** M_Init's layout on each console; pools it does not set keep a zero magic. */
  lemma InitLayout(c: Console, h: Heap, relocDest: u32)
    requires WellFormed(h)
    ensures WellFormed(Init(c, h, relocDest)) && Init(c, h, relocDest).headers == h.headers
    ensures c != WiiU ==> Init(c, h, relocDest).pools[0] == Pool(POOL_HDR_MAGIC, relocDest, 0x8000_4000, relocDest)
    ensures c == Wii ==> Init(c, h, relocDest).pools[1] == Pool(POOL_HDR_MAGIC, 0x9400_0000, 0x9000_0000, 0x9400_0000)
    ensures c != Wii ==> Init(c, h, relocDest).pools[1] == h.pools[1]
    ensures c == WiiU ==> Init(c, h, relocDest) == h
  {
  }

  /** On a Wii U, allocating from the zero-initialised table panics instead of returning NULL. */
  lemma WiiUAllocationPanics(relocDest: u32, sel: int, size: u32)
    ensures var h := Init(WiiU, Heap([ZERO_POOL, ZERO_POOL], map[]), relocDest);
      MPoolAlloc(WiiU, h, sel, size).0 == AllocPanic
  {
  }

  /** On a GameCube, an explicit MEM2 request also panics, because the magic check comes first. */
  lemma GameCubeMem2Panics(relocDest: u32, size: u32)
    ensures var h := Init(GameCube, Heap([ZERO_POOL, ZERO_POOL], map[]), relocDest);
      MPoolAlloc(GameCube, h, POOL_MEM2, size).0 == AllocPanic
  {
  }

  // ---------------------------------------------------------------- the code

  class Allocator {
    var pools: array<Pool>
    var headers: map<u32, BlockHeader>

    ghost predicate Valid()
      reads this
    {
      pools.Length == MAX_POOLS
    }

    ghost function State(): (h: Heap)
      reads this, pools
      requires Valid()
      ensures WellFormed(h)
    {
      Heap(pools[..], headers)
    }

    /** The static table before M_Init: all zero. */
    constructor ()
      ensures Valid() && fresh(pools)
      ensures State() == Heap([ZERO_POOL, ZERO_POOL], map[])
    {
      pools := new Pool[MAX_POOLS](_ => ZERO_POOL);
      headers := map[];
    }

    method PoolAllocAt(i: nat, size: u32) returns (r: AllocResult)
      requires Valid() && i < MAX_POOLS
      modifies this, pools
      ensures Valid() && pools == old(pools)
      ensures (r, State()) == PoolAlloc(old(State()), i, size)
    {
      var p := pools[i];
      if p.magic != POOL_HDR_MAGIC {
        return AllocPanic;
      }
      if p.top == 0 && p.bottom == 0 && p.curBottom == 0 {
        return Null;
      }
      var bottom := p.curBottom;
      var mem := Sub32(bottom, size);
      var block := Sub32(mem, BLOCK_HDR_SIZE);
      headers := headers[block := BlockHeader(BLOCK_HDR_MAGIC, size)];
      pools[i] := p.(curBottom := block);
      return Ptr(mem);
    }

    method MPoolAllocate(c: Console, sel: int, size: u32) returns (r: AllocResult)
      requires Valid()
      modifies this, pools
      ensures Valid() && pools == old(pools)
      ensures (r, State()) == MPoolAlloc(c, old(State()), sel, size)
    {
      if sel == POOL_MEM1 || sel == POOL_MEM2 {
        r := PoolAllocAt(sel, size);
      } else if sel == POOL_ANY {
        if c == GameCube {
          r := PoolAllocAt(POOL_MEM1, size);
        } else if pools[POOL_MEM1].magic != POOL_HDR_MAGIC || pools[POOL_MEM2].magic != POOL_HDR_MAGIC {
          r := AllocPanic;
        } else {
          var mem1Free := Sub32(pools[POOL_MEM1].curBottom, pools[POOL_MEM1].bottom);
          var mem2Free := Sub32(pools[POOL_MEM2].curBottom, pools[POOL_MEM2].bottom);
          if mem1Free > mem2Free {
            r := PoolAllocAt(POOL_MEM1, size);
          } else {
            r := PoolAllocAt(POOL_MEM2, size);
          }
        }
      } else {
        r := AllocPanic;
      }
    }

    method FreeBlock(ptr: u32) returns (r: FreeResult)
      requires Valid()
      modifies pools
      ensures Valid()
      ensures (r, State()) == Free(old(State()), ptr)
    {
      var i := 0;
      while i < MAX_POOLS
        invariant 0 <= i <= MAX_POOLS
        invariant State() == old(State())
        invariant FreeFrom(State(), ptr, i) == Free(State(), ptr)
      {
        var p := pools[i];
        if p.magic != POOL_HDR_MAGIC {
          return FreePanic;
        }
        if !(p.top == 0 && p.bottom == 0 && p.curBottom == 0) {
          var mem := Sub32(ptr, BLOCK_HDR_SIZE);
          if mem == p.curBottom {
            if mem !in headers || headers[mem].magic != BLOCK_HDR_MAGIC {
              return FreePanic;
            }
            var bottom := Add32(p.curBottom, Add32(BLOCK_HDR_SIZE, headers[mem].size));
            pools[i] := p.(curBottom := bottom);
            return Returned;
          }
        }
        i := i + 1;
      }
      return Returned;
    }

    method MallocBlock(c: Console, size: u32) returns (r: AllocResult)
      requires Valid()
      modifies this, pools
      ensures Valid() && pools == old(pools)
      ensures (r, State()) == Malloc(c, old(State()), size)
    {
      var rounded := And32(Add32(size, 24 - 1), Not32(24 - 1));
      r := MPoolAllocate(c, POOL_ANY, rounded);
    }

    method MInit(c: Console, relocDest: u32)
      requires Valid()
      modifies pools
      ensures Valid()
      ensures State() == Init(c, old(State()), relocDest)
    {
      match c {
        case GameCube =>
          pools[0] := Pool(POOL_HDR_MAGIC, relocDest, MEM1_POOL_BOTTOM, relocDest);
        case Wii =>
          pools[0] := Pool(POOL_HDR_MAGIC, relocDest, MEM1_POOL_BOTTOM, relocDest);
          pools[1] := Pool(POOL_HDR_MAGIC, Utils.MEM2_CACHED_BASE + Utils.MEM2_SIZE_WII,
                           Utils.MEM2_CACHED_BASE, Utils.MEM2_CACHED_BASE + Utils.MEM2_SIZE_WII);
        case WiiU =>
      }
    }
  }
}
