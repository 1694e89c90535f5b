/**
 * Address translation between the physical, cached (0x8...) and uncached
 * (0xc...) views of RAM, and the per-console windows of valid memory.
 */
module Utils {
  import opened Types

  const CACHED_BASE: u32 := 0x8000_0000
  const UNCACHED_BASE: u32 := 0xc000_0000

  const MEM1_PHYS_BASE: u32 := 0x0000_0000
  const MEM2_PHYS_BASE: u32 := 0x1000_0000
  const MEM1_CACHED_BASE: u32 := 0x8000_0000
  const MEM2_CACHED_BASE: u32 := 0x9000_0000
  const MEM1_UNCACHED_BASE: u32 := 0xc000_0000
  const MEM2_UNCACHED_BASE: u32 := 0xd000_0000

  const MEM1_SIZE_GCN: u32 := 0x0180_0000
  const MEM1_SIZE_WII: u32 := MEM1_SIZE_GCN
  const MEM1_SIZE_NDEV: u32 := 0x0400_0000
  const MEM1_SIZE_WIIU: u32 := 0x0200_0000
  const MEM2_SIZE_WII: u32 := 0x0400_0000
  const MEM2_SIZE_NDEV: u32 := 0x0800_0000
  const MEM2_SIZE_WIIU: u32 := 0x1000_0000

  /** Addresses below 1 GiB: the ones the two top bits do not touch. */
  predicate IsPhysical(a: u32) { a < 0x4000_0000 }

  /** Both base addresses have only bits 30 and 31 in use, so OR-ing one onto a physical address adds it. */
  lemma OrBelowIsAdd(a: u32, base: u32)
    requires base == CACHED_BASE || base == UNCACHED_BASE
    ensures IsPhysical(a) ==> Or32(a, base) == a + base
  {
    Pow2Values();
    if IsPhysical(a) {
      if base == CACHED_BASE {
        OrDisjoint(a, 2, 30);
      } else {
        OrDisjoint(a, 3, 30);
      }
    }
  }

  function PhysToCached(a: u32): (r: u32)
    ensures r >= CACHED_BASE
    ensures IsPhysical(a) ==> r == a + CACHED_BASE
  {
    OrBelowIsAdd(a, CACHED_BASE);
    Or32(a, CACHED_BASE)
  }

  function PhysToUncached(a: u32): (r: u32)
    ensures r >= UNCACHED_BASE
    ensures IsPhysical(a) ==> r == a + UNCACHED_BASE
  {
    OrBelowIsAdd(a, UNCACHED_BASE);
    Or32(a, UNCACHED_BASE)
  }

  /** Clears the two top bits, so it serves both the cached and the uncached view. */
  function VirtToPhys(a: u32): u32
  {
    And32(a, Not32(UNCACHED_BASE))
  }

  /** `a & ~0xc0000000` keeps the 30 low bits. */
  lemma VirtToPhysKeepsLowBits(a: u32)
    ensures VirtToPhys(a) == a % 0x4000_0000
  {
    Pow2Values();
    AndLowMask(a, 30);
    assert Not32(UNCACHED_BASE) == Pow2(30) - 1;
  }

  /** The result is physical, the identity on physical addresses, and removes whichever base was added. */
  lemma VirtToPhysMeaning(a: u32)
    ensures IsPhysical(VirtToPhys(a))
    ensures IsPhysical(a) ==> VirtToPhys(a) == a
    ensures a >= UNCACHED_BASE ==> VirtToPhys(a) == a - UNCACHED_BASE
    ensures CACHED_BASE <= a < UNCACHED_BASE ==> VirtToPhys(a) == a - CACHED_BASE
  {
    VirtToPhysKeepsLowBits(a);
  }

  lemma VirtToPhysIdempotent(a: u32)
    ensures VirtToPhys(VirtToPhys(a)) == VirtToPhys(a)
  {
    VirtToPhysMeaning(a);
    VirtToPhysMeaning(VirtToPhys(a));
  }

  lemma TranslationRoundTrip(a: u32)
    requires IsPhysical(a)
    ensures VirtToPhys(PhysToCached(a)) == a
    ensures VirtToPhys(PhysToUncached(a)) == a
  {
    VirtToPhysMeaning(PhysToCached(a));
    VirtToPhysMeaning(PhysToUncached(a));
  }

  /** MEM1 size per console: the same on GameCube and Wii, larger on Wii U. */
  function Mem1Size(c: Console): u32
  {
    match c
    case GameCube => MEM1_SIZE_GCN
    case Wii => MEM1_SIZE_WII
    case WiiU => MEM1_SIZE_WIIU
  }

  /** MEM2 size per console; the GameCube has no MEM2. */
  function Mem2Size(c: Console): u32
  {
    match c
    case GameCube => 0
    case Wii => MEM2_SIZE_WII
    case WiiU => MEM2_SIZE_WIIU
  }

  /** `a` lies in the window of `size` bytes starting at `base`. */
  predicate InWindow(a: u32, base: u32, size: u32)
  {
    base <= a && a - base < size
  }

  function AddrIsValidCached(c: Console, addr: u32): (r: bool)
    ensures r <==> InWindow(addr, MEM1_CACHED_BASE, Mem1Size(c)) || InWindow(addr, MEM2_CACHED_BASE, Mem2Size(c))
  {
    match c
    case GameCube =>
      addr >= MEM1_CACHED_BASE && addr < MEM1_CACHED_BASE + MEM1_SIZE_GCN
    case Wii =>
      (addr >= MEM1_CACHED_BASE && addr < MEM1_CACHED_BASE + MEM1_SIZE_WII) ||
      (addr >= MEM2_CACHED_BASE && addr < MEM2_CACHED_BASE + MEM2_SIZE_WII)
    case WiiU =>
      (addr >= MEM1_CACHED_BASE && addr < MEM1_CACHED_BASE + MEM1_SIZE_WIIU) ||
      (addr >= MEM2_CACHED_BASE && addr < MEM2_CACHED_BASE + MEM2_SIZE_WIIU)
  }

  function AddrIsValidUncached(c: Console, addr: u32): (r: bool)
    ensures r <==> InWindow(addr, MEM1_UNCACHED_BASE, Mem1Size(c)) || InWindow(addr, MEM2_UNCACHED_BASE, Mem2Size(c))
  {
    match c
    case GameCube =>
      addr >= MEM1_UNCACHED_BASE && addr < MEM1_UNCACHED_BASE + MEM1_SIZE_GCN
    case Wii =>
      (addr >= MEM1_UNCACHED_BASE && addr < MEM1_UNCACHED_BASE + MEM1_SIZE_WII) ||
      (addr >= MEM2_UNCACHED_BASE && addr < MEM2_UNCACHED_BASE + MEM2_SIZE_WII)
    case WiiU =>
      (addr >= MEM1_UNCACHED_BASE && addr < MEM1_UNCACHED_BASE + MEM1_SIZE_WIIU) ||
      (addr >= MEM2_UNCACHED_BASE && addr < MEM2_UNCACHED_BASE + MEM2_SIZE_WIIU)
  }

  /** MEM1 starts at physical 0, so its lower bound is not compared. */
  function AddrIsValidPhys(c: Console, addr: u32): (r: bool)
    ensures r <==> InWindow(addr, MEM1_PHYS_BASE, Mem1Size(c)) || InWindow(addr, MEM2_PHYS_BASE, Mem2Size(c))
  {
    match c
    case GameCube =>
      addr < MEM1_PHYS_BASE + MEM1_SIZE_GCN
    case Wii =>
      (addr < MEM1_PHYS_BASE + MEM1_SIZE_WII) ||
      (addr >= MEM2_PHYS_BASE && addr < MEM2_PHYS_BASE + MEM2_SIZE_WII)
    case WiiU =>
      (addr < MEM1_PHYS_BASE + MEM1_SIZE_WIIU) ||
      (addr >= MEM2_PHYS_BASE && addr < MEM2_PHYS_BASE + MEM2_SIZE_WIIU)
  }

  /** The three validity checks agree on the three views of one physical address. */
  lemma ValidityAgreesAcrossViews(c: Console, a: u32)
    requires IsPhysical(a)
    ensures AddrIsValidCached(c, PhysToCached(a)) == AddrIsValidPhys(c, a)
    ensures AddrIsValidUncached(c, PhysToUncached(a)) == AddrIsValidPhys(c, a)
  {
  }

  /** Every valid address of any view is the image of a valid physical address. */
  lemma ValidCachedIsTranslatedPhys(c: Console, addr: u32)
    requires AddrIsValidCached(c, addr)
    ensures AddrIsValidPhys(c, VirtToPhys(addr)) && PhysToCached(VirtToPhys(addr)) == addr
  {
    VirtToPhysMeaning(addr);
  }
}
