/**
 * `dcache_flush`: writes back every 32-byte data-cache line that overlaps
 * [p, p+len). The `dcbst` instruction itself is a hardware primitive; the
 * model records the address of each line it is issued for.
 */
module Cache {
  import opened Types

  predicate Aligned32(a: int) { a % 32 == 0 }

  /** First line: `p & ~0x1f`. */
  function LineStart(p: u32): u32
  {
    And32(p, Not32(0x1f))
  }

  /** The sum p + len + 31 does not wrap around 2^32. */
  predicate NoWrap(p: u32, len: u32)
  {
    p + len + 0x1f < TWO_32
  }

  /** End of the range: `(p + len + 0x1f) & ~0x1f`, computed with u32 wrap. */
  function LineEnd(p: u32, len: u32): u32
  {
    And32(Add32(Add32(p, len), 0x1f), Not32(0x1f))
  }

  /** `x & ~0x1f` rounds down to a multiple of 32. */
  lemma RoundDown(x: u32)
    ensures And32(x, Not32(0x1f)) == x - x % 32
  {
    Pow2Values();
    AndHighMask(x, 32, 5);
    assert Not32(0x1f) == Pow2(32) - Pow2(5);
  }

  lemma RoundedIsAligned(x: int)
    ensures Aligned32(x - x % 32)
  {
    DivModUnique(x - x % 32, 32, x / 32, 0);
  }

  /** The first line is p rounded down: aligned, at most p, less than 32 below it. */
  lemma LineStartMeaning(p: u32)
    ensures Aligned32(LineStart(p)) && LineStart(p) <= p && p - LineStart(p) < 32
  {
    RoundDown(p);
    RoundedIsAligned(p);
  }

  /** The end is aligned and, without wrap, p + len rounded up. */
  lemma LineEndMeaning(p: u32, len: u32)
    ensures Aligned32(LineEnd(p, len))
    ensures NoWrap(p, len) ==> p + len <= LineEnd(p, len) < p + len + 32
  {
    var e := Add32(Add32(p, len), 0x1f);
    RoundDown(e);
    RoundedIsAligned(e);
    assert LineEnd(p, len) == e - e % 32;
    if NoWrap(p, len) {
      DivModUnique(p + len, TWO_32, 0, p + len);
      DivModUnique(p + len + 0x1f, TWO_32, 0, p + len + 0x1f);
      assert e == p + len + 0x1f;
    }
  }

  /** The line addresses a loop `for (; a < b; a += 32)` visits, for aligned a and b. */
  function Lines(a: int, b: int): seq<int>
    decreases b - a
  {
    if a < b then [a] + Lines(a + 32, b) else []
  }

  /** The visited lines are aligned, strictly ascending, within [a, b), (b-a)/32 of them. */
  lemma {:induction false} LinesShape(a: int, b: int)
    requires Aligned32(a) && Aligned32(b)
    ensures |Lines(a, b)| == if a < b then (b - a) / 32 else 0
    ensures forall i :: 0 <= i < |Lines(a, b)| ==> Lines(a, b)[i] == a + 32 * i
    ensures forall i :: 0 <= i < |Lines(a, b)| ==> Aligned32(Lines(a, b)[i]) && a <= Lines(a, b)[i] < b
    decreases b - a
  {
    if a < b {
      LinesShape(a + 32, b);
    }
  }

  /** Every address in [a, b) lies in one visited line. */
  lemma {:induction false} LinesCover(a: int, b: int, x: u32)
    requires Aligned32(a) && Aligned32(b)
    requires a <= x < b
    ensures LineStart(x) in Lines(a, b)
    decreases b - a
  {
    LineStartMeaning(x);
    assert Lines(a, b) == [a] + Lines(a + 32, b);
    if x < a + 32 {
      assert LineStart(x) == a;
    } else {
      LinesCover(a + 32, b, x);
    }
  }

  /** Every byte of [p, p+len) lies in a line the flush visits, when p + len + 31 does not wrap. */
  lemma FlushCoversRange(p: u32, len: u32, x: u32)
    requires NoWrap(p, len)
    requires p <= x < p + len
    ensures LineStart(x) in Lines(LineStart(p), LineEnd(p, len))
  {
    LineStartMeaning(p);
    LineEndMeaning(p, len);
    LinesCover(LineStart(p), LineEnd(p, len), x);
  }

  /** An aligned address with length 0 flushes nothing. */
  lemma EmptyAlignedFlush(p: u32)
    requires Aligned32(p) && NoWrap(p, 0)
    ensures Lines(LineStart(p), LineEnd(p, 0)) == []
  {
    LineStartMeaning(p);
    LineEndMeaning(p, 0);
    AlignedClose(LineStart(p), p);
    AlignedClose(p, LineEnd(p, 0));
    assert Lines(p, p) == [];
  }

  /** Two multiples of 32 less than 32 apart are equal. */
  lemma AlignedClose(x: int, y: int)
    requires Aligned32(x) && Aligned32(y) && x <= y < x + 32
    ensures x == y
  {
    var q, r := x / 32, y / 32;
    assert x == 32 * q && y == 32 * r;
    assert 32 * (r - q) < 32;
  }

  /** dcache_flush(p, len): issues `dcbst` once per line, in ascending order. */
  method DcacheFlush(p: u32, len: u32) returns (lines: seq<int>)
    ensures lines == Lines(LineStart(p), LineEnd(p, len))
  {
    var a: int := LineStart(p);
    var b: int := LineEnd(p, len);
    lines := [];
    while a < b
      invariant lines + Lines(a, b) == Lines(LineStart(p), b)
      decreases b - a
    {
      lines := lines + [a];
      a := a + 32;
    }
  }
}
