/**
 * PowerPC exception setup and the fatal-exception report.
 *
 * Low memory is a map from word address to word. `E_Init` writes a
 * four-instruction stub at every vector 0x100, 0x110, ..., 0x1ff0 (each
 * stub saves the registers at 0x2000, loads the vector number into r3 and
 * branches to 0x2200), copies the common handler body to 0x80002200 and
 * makes both ranges visible to instruction fetch. The handler body, an
 * assembly routine, is an input: the words between its linker symbols.
 * Memory that `E_Handler` and the stack walk read is an oracle.
 */
module Exception {
  import opened Types
  import Cache

  const CACHED_BASE: u32 := 0x8000_0000
  const VECTOR_FIRST: u32 := 0x100
  const VECTOR_END: u32 := 0x2000
  const VECTOR_STRIDE: u32 := 0x10
  /** (0x2000 - 0x100) / 0x10 vectors. */
  const NUM_VECTORS: nat := 496
  const HANDLER_BODY: u32 := 0x8000_2200
  /** Where the stubs store r0..r31, followed by the special registers at +0x80. */
  const SAVE_AREA: u32 := 0x8000_2000

  const STMW_0_2000: u32 := 0xbc00_2000
  const LI_R3: u32 := 0x3860_0000
  const BA_2200: u32 := 0x4800_2202

  /** The stub for vector v: `stmw 0,0x2000(0)`, `li 3,v`, `ba 0x2200`, 0. */
  function Stub(v: u32): seq<u32>
  {
    [STMW_0_2000, Or32(LI_R3, v), BA_2200, 0]
  }

  function VectorNumber(k: nat): u32
    requires k < NUM_VECTORS
  {
    VECTOR_FIRST + VECTOR_STRIDE * k
  }

  /** Word j of the stub for vector v lands at 0x80000000 + v + 4j. */
  function WriteStub(mem: map<u32, u32>, v: u32): map<u32, u32>
    requires v < VECTOR_END
  {
    var a := CACHED_BASE + v;
    var s := Stub(v);
    mem[a := s[0]][a + 4 := s[1]][a + 8 := s[2]][a + 12 := s[3]]
  }

  /** The stubs for the first n vectors. */
  function WriteStubs(mem: map<u32, u32>, n: nat): map<u32, u32>
    requires n <= NUM_VECTORS
  {
    if n == 0 then mem else WriteStub(WriteStubs(mem, n - 1), VectorNumber(n - 1))
  }

  /** memcpy of the handler body to dst, one instruction word at a time. */
  function CopyWords(mem: map<u32, u32>, dst: u32, body: seq<u32>): map<u32, u32>
    requires dst + 4 * |body| <= TWO_32
    decreases |body|
  {
    if body == [] then mem
    else CopyWords(mem, dst, body[..|body| - 1])[dst + 4 * (|body| - 1) := body[|body| - 1]]
  }

  /** The low-memory image `E_Init` leaves. */
  function InitImage(mem: map<u32, u32>, body: seq<u32>): map<u32, u32>
    requires HANDLER_BODY + 4 * |body| <= TWO_32
  {
    CopyWords(WriteStubs(mem, NUM_VECTORS), HANDLER_BODY, body)
  }

  /** The cache lines the two `sync_before_exec` calls of `E_Init` visit. */
  function InitSyncLines(body: seq<u32>): seq<int>
    requires HANDLER_BODY + 4 * |body| <= TWO_32
  {
    Cache.Lines(Cache.LineStart(0x8000_0100), Cache.LineEnd(0x8000_0100, 0x1f00))
      + Cache.Lines(Cache.LineStart(HANDLER_BODY), Cache.LineEnd(HANDLER_BODY, 4 * |body|))
  }

  // ----------------------------------------------------------------- lemmas

  /** Word 1's low half is the vector number and its high half `li 3,`; the other words do not depend on v. */
  lemma StubEncodesVector(v: u32)
    requires v < 0x1_0000
    ensures Stub(v)[1] == LI_R3 + v
    ensures BitAnd(Stub(v)[1], 0xffff) == v && Stub(v)[1] / 0x1_0000 == 0x3860
    ensures forall w: u32 :: w < 0x1_0000 ==> Stub(w)[0] == Stub(v)[0] && Stub(w)[2] == Stub(v)[2] && Stub(w)[3] == Stub(v)[3]
  {
    Pow2Values();
    OrDisjoint(v, 0x3860, 16);
    assert BitOr(LI_R3, v) == BitOr(v, LI_R3) by { OrCommutes(LI_R3, v); }
    AndLowMask(LI_R3 + v, 16);
    DivModUnique(LI_R3 + v, 0x1_0000, 0x3860, v);
  }

  /** Word j of the stub for vector k is at 0x80000000 + vector + 4j once k's stub is written. */
  lemma {:induction false} StubWord(mem: map<u32, u32>, n: nat, k: nat, j: nat)
    requires n <= NUM_VECTORS && k < n && j < 4
    ensures CACHED_BASE + VectorNumber(k) + 4 * j in WriteStubs(mem, n)
    ensures WriteStubs(mem, n)[CACHED_BASE + VectorNumber(k) + 4 * j] == Stub(VectorNumber(k))[j]
    decreases n
  {
    if k < n - 1 {
      StubWord(mem, n - 1, k, j);
      assert VectorNumber(n - 1) >= VectorNumber(k) + 16;
    }
  }

  /** Addresses outside [0x80000100, 0x80000100 + 16n) are not touched by the first n stubs. */
  lemma {:induction false} StubsOutside(mem: map<u32, u32>, n: nat, a: u32)
    requires n <= NUM_VECTORS
    requires a < CACHED_BASE + VECTOR_FIRST || a >= CACHED_BASE + VECTOR_FIRST + VECTOR_STRIDE * n
    ensures a in WriteStubs(mem, n) <==> a in mem
    ensures a in mem ==> WriteStubs(mem, n)[a] == mem[a]
    decreases n
  {
    if n > 0 {
      StubsOutside(mem, n - 1, a);
    }
  }

  /** All 496 stubs sit in [0x80000100, 0x80002000), one every 16 bytes. */
  lemma StubRegion()
    ensures CACHED_BASE + VECTOR_FIRST + VECTOR_STRIDE * NUM_VECTORS == CACHED_BASE + VECTOR_END
    ensures forall k :: 0 <= k < NUM_VECTORS ==> VECTOR_FIRST <= VectorNumber(k) < VECTOR_END && VectorNumber(k) % 16 == 0
  {
  }

  /** The copied body: word i of the body at dst + 4i, everything else as before. */
  lemma {:induction false} CopyWordsLayout(mem: map<u32, u32>, dst: u32, body: seq<u32>, a: u32)
    requires dst + 4 * |body| <= TWO_32
    ensures dst <= a < dst + 4 * |body| && (a - dst) % 4 == 0 ==>
      a in CopyWords(mem, dst, body) && CopyWords(mem, dst, body)[a] == body[(a - dst) / 4]
    ensures (a < dst || a >= dst + 4 * |body|) ==>
      (a in CopyWords(mem, dst, body) <==> a in mem) && (a in mem ==> CopyWords(mem, dst, body)[a] == mem[a])
    decreases |body|
  {
    if body != [] {
      CopyWordsLayout(mem, dst, body[..|body| - 1], a);
    }
  }

  /**
   * After `E_Init`: word j of the stub for every vector k, the handler body
   * from 0x80002200, and low memory below the first vector as it was.
   */
  lemma InitImageLayout(mem: map<u32, u32>, body: seq<u32>, k: nat, j: nat, i: nat, a: u32)
    requires HANDLER_BODY + 4 * |body| <= TWO_32
    requires k < NUM_VECTORS && j < 4
    ensures var img := InitImage(mem, body); var w := CACHED_BASE + VectorNumber(k) + 4 * j;
      w in img && img[w] == Stub(VectorNumber(k))[j]
    ensures i < |body| ==> var img := InitImage(mem, body);
      HANDLER_BODY + 4 * i in img && img[HANDLER_BODY + 4 * i] == body[i]
    ensures a < CACHED_BASE + VECTOR_FIRST ==> var img := InitImage(mem, body);
      (a in img <==> a in mem) && (a in mem ==> img[a] == mem[a])
  {
    var stubs := WriteStubs(mem, NUM_VECTORS);
    StubWord(mem, NUM_VECTORS, k, j);
    CopyWordsLayout(stubs, HANDLER_BODY, body, CACHED_BASE + VectorNumber(k) + 4 * j);
    if i < |body| {
      CopyWordsLayout(stubs, HANDLER_BODY, body, HANDLER_BODY + 4 * i);
      assert (HANDLER_BODY + 4 * i - HANDLER_BODY) / 4 == i;
    }
    if a < CACHED_BASE + VECTOR_FIRST {
      StubsOutside(mem, NUM_VECTORS, a);
      CopyWordsLayout(stubs, HANDLER_BODY, body, a);
    }
  }

  /** The first sync covers exactly the stub area [0x80000100, 0x80002000). */
  lemma StubSyncIsExact()
    ensures Cache.LineStart(0x8000_0100) == 0x8000_0100
    ensures Cache.LineEnd(0x8000_0100, 0x1f00) == 0x8000_2000
    ensures |Cache.Lines(0x8000_0100, 0x8000_2000)| == 0x1f00 / 32
  {
    Cache.LineStartMeaning(0x8000_0100);
    AlignedNeighbour(Cache.LineStart(0x8000_0100), 0x8000_0100);
    Cache.LineEndMeaning(0x8000_0100, 0x1f00);
    AlignedNeighbour(Cache.LineEnd(0x8000_0100, 0x1f00), 0x8000_2000);
    Cache.LinesShape(0x8000_0100, 0x8000_2000);
  }

  /** Two 32-aligned addresses less than 32 apart are equal. */
  lemma AlignedNeighbour(a: int, b: int)
    requires Cache.Aligned32(a) && Cache.Aligned32(b) && b - 32 < a < b + 32
    ensures a == b
  {
    DivModUnique(a, 32, a / 32, 0);
    DivModUnique(b, 32, b / 32, 0);
  }

  // ------------------------------------------------------------ stack walk

  datatype Frame = Frame(sp: u32, lr: u32)

  /**
   * `dump_stack_trace`: the frames printed, reading memory through `read`.
   * It stops at 32 frames, at a null SP, or after a frame whose back-chain
   * is not strictly above it or is 0 or 0xffffffff.
   */
  function Trace(read: u32 -> u32, sp: u32, depth: nat): seq<Frame>
    decreases 32 - depth
  {
    if sp == 0 || depth >= 32 then []
    else
      var prev := read(sp);
      var lr := read(Add32(sp, 4));
      [Frame(sp, lr)]
        + (if prev <= sp || prev == 0 || prev == 0xffff_ffff then [] else Trace(read, prev, depth + 1))
  }

  /** At most 32 frames, strictly increasing SPs, each the saved back-chain of the one before. */
  lemma {:induction false} TraceShape(read: u32 -> u32, sp: u32, depth: nat)
    ensures |Trace(read, sp, depth)| <= if depth >= 32 then 0 else 32 - depth
    ensures forall i :: 0 <= i < |Trace(read, sp, depth)| ==> Trace(read, sp, depth)[i].sp >= sp > 0
    ensures forall i :: 0 <= i < |Trace(read, sp, depth)| - 1 ==>
      Trace(read, sp, depth)[i].sp < Trace(read, sp, depth)[i + 1].sp
      && Trace(read, sp, depth)[i + 1].sp == read(Trace(read, sp, depth)[i].sp)
    ensures forall i :: 0 <= i < |Trace(read, sp, depth)| ==>
      Trace(read, sp, depth)[i].lr == read(Add32(Trace(read, sp, depth)[i].sp, 4))
    ensures sp != 0 && depth < 32 ==> Trace(read, sp, depth) != [] && Trace(read, sp, depth)[0].sp == sp
    decreases 32 - depth
  {
    if sp != 0 && depth < 32 {
      var prev := read(sp);
      if !(prev <= sp || prev == 0 || prev == 0xffff_ffff) {
        TraceShape(read, prev, depth + 1);
      }
    }
  }

  lemma TraceStep(read: u32 -> u32, sp: u32, depth: nat)
    requires sp != 0 && depth < 32
    ensures var prev := read(sp);
      Trace(read, sp, depth) == [Frame(sp, read(Add32(sp, 4)))]
        + (if prev <= sp || prev == 0 || prev == 0xffff_ffff then [] else Trace(read, prev, depth + 1))
  {
  }

  lemma SeqAssoc<T>(a: seq<T>, b: seq<T>, c: seq<T>)
    ensures (a + b) + c == a + (b + c)
  {
  }

  /** What `E_Handler` prints before it panics. */
  datatype FatalReport = FatalReport(exception: int, gprRows: seq<seq<u32>>, sprRows: seq<seq<u32>>,
                                     trace: seq<Frame>, message: string)

  const PANIC_MESSAGE: string := "Got fatal exception"

  // --------------------------------------------------------------- the code

  /** `sync_before_exec`: the lines flushed and invalidated, in order. */
  method SyncBeforeExec(p: u32, len: u32) returns (lines: seq<int>)
    ensures lines == Cache.Lines(Cache.LineStart(p), Cache.LineEnd(p, len))
  {
    var a: int := And32(p, Not32(0x1f));
    var b: int := And32(Add32(Add32(p, len), 0x1f), Not32(0x1f));
    lines := [];
    while a < b
      invariant lines + Cache.Lines(a, b) == Cache.Lines(Cache.LineStart(p), b)
      decreases b - a
    {
      lines := lines + [a];
      a := a + 32;
    }
  }

  /** `dump_stack_trace`. */
  method DumpStackTrace(sp0: u32, read: u32 -> u32) returns (frames: seq<Frame>)
    ensures frames == Trace(read, sp0, 0)
  {
    frames := [];
    var sp := sp0;
    var depth := 0;
    while sp != 0 && depth < 32
      invariant 0 <= depth <= 32
      invariant frames + Trace(read, sp, depth) == Trace(read, sp0, 0)
      decreases 32 - depth
    {
      var prevSp := read(sp);
      var lr := read(Add32(sp, 4));
      var stop := prevSp <= sp || prevSp == 0 || prevSp == 0xffff_ffff;
      ghost var rest := if stop then [] else Trace(read, prevSp, depth + 1);
      TraceStep(read, sp, depth);
      SeqAssoc(frames, [Frame(sp, lr)], rest);
      frames := frames + [Frame(sp, lr)];
      if stop {
        return;
      }
      sp := prevSp;
      depth := depth + 1;
    }
  }

  /**
   * `E_Handler`: prints r0..r31 four to a row (row i: ri, ri+8, ri+16,
   * ri+24), then CR/XER, LR/CTR, SRR0/SRR1, DAR/DSISR in two rows, then the
   * stack from the saved r1, and always ends in panic.
   */
  method Handler(exception: int, read: u32 -> u32) returns (report: FatalReport)
    ensures report.message == PANIC_MESSAGE && report.exception == exception
    ensures |report.gprRows| == 8 && forall i :: 0 <= i < 8 ==> |report.gprRows[i]| == 4
    ensures forall i, c :: 0 <= i < 8 && 0 <= c < 4 ==> report.gprRows[i][c] == read(SAVE_AREA + 4 * (i + 8 * c))
    ensures |report.sprRows| == 2 && forall i :: 0 <= i < 2 ==> |report.sprRows[i]| == 4
    ensures forall i, c :: 0 <= i < 2 && 0 <= c < 4 ==> report.sprRows[i][c] == read(SAVE_AREA + 0x80 + 4 * (i + 2 * c))
    ensures report.trace == Trace(read, read(SAVE_AREA + 4), 0)
  {
    var x := SAVE_AREA;
    var sp := read(x + 4);
    var gprs: seq<seq<u32>> := [];
    var i := 0;
    while i < 8
      invariant 0 <= i <= 8 && x == SAVE_AREA + 4 * i && |gprs| == i
      invariant forall r :: 0 <= r < i ==> |gprs[r]| == 4
      invariant forall r, c :: 0 <= r < i && 0 <= c < 4 ==> gprs[r][c] == read(SAVE_AREA + 4 * (r + 8 * c))
    {
      gprs := gprs + [[read(x), read(x + 32), read(x + 64), read(x + 96)]];
      x := x + 4;
      i := i + 1;
    }
    x := SAVE_AREA + 0x80;
    var sprs: seq<seq<u32>> := [];
    i := 0;
    while i < 2
      invariant 0 <= i <= 2 && x == SAVE_AREA + 0x80 + 4 * i && |sprs| == i
      invariant forall r :: 0 <= r < i ==> |sprs[r]| == 4
      invariant forall r, c :: 0 <= r < i && 0 <= c < 4 ==> sprs[r][c] == read(SAVE_AREA + 0x80 + 4 * (r + 2 * c))
    {
      sprs := sprs + [[read(x), read(x + 8), read(x + 16), read(x + 24)]];
      x := x + 4;
      i := i + 1;
    }
    var frames := DumpStackTrace(sp, read);
    report := FatalReport(exception, gprs, sprs, frames, PANIC_MESSAGE);
  }

  class LowMemory {
    var words: map<u32, u32>

    constructor (initial: map<u32, u32>)
      ensures words == initial
    {
      words := initial;
    }

    /** The vector loop of `E_Init`. */
    method WriteVectorStubs()
      modifies this
      ensures words == WriteStubs(old(words), NUM_VECTORS)
    {
      var vector: u32 := VECTOR_FIRST;
      ghost var k: nat := 0;
      while vector < VECTOR_END
        invariant k <= NUM_VECTORS && vector == VECTOR_FIRST + VECTOR_STRIDE * k
        invariant words == WriteStubs(old(words), k)
        decreases VECTOR_END - vector
      {
        var insn := CACHED_BASE + vector;
        words := words[insn := STMW_0_2000];
        words := words[insn + 4 := Or32(LI_R3, vector)];
        words := words[insn + 8 := BA_2200];
        words := words[insn + 12 := 0];
        vector := vector + VECTOR_STRIDE;
        k := k + 1;
      }
    }

    /** The memcpy of the handler body to 0x80002200. */
    method CopyHandlerBody(body: seq<u32>)
      requires HANDLER_BODY + 4 * |body| <= TWO_32
      modifies this
      ensures words == CopyWords(old(words), HANDLER_BODY, body)
    {
      var i := 0;
      while i < |body|
        invariant 0 <= i <= |body|
        invariant words == CopyWords(old(words), HANDLER_BODY, body[..i])
      {
        assert body[..i + 1][..i] == body[..i];
        words := words[HANDLER_BODY + 4 * i := body[i]];
        i := i + 1;
      }
      assert body[..|body|] == body;
    }

    /** `E_Init`; returns the cache lines synchronised, in order. */
    method Init(body: seq<u32>) returns (synced: seq<int>)
      requires HANDLER_BODY + 4 * |body| <= TWO_32
      modifies this
      ensures words == InitImage(old(words), body)
      ensures synced == InitSyncLines(body)
    {
      WriteVectorStubs();
      var first := SyncBeforeExec(0x8000_0100, 0x1f00);
      var len2200 := 4 * |body|;
      CopyHandlerBody(body);
      var second := SyncBeforeExec(HANDLER_BODY, len2200);
      synced := first + second;
    }
  }
}
