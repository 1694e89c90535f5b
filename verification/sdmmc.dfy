/**
 * The SD/MMC card layer over the Hollywood/Latte SD host controller: the
 * `card` record with its inserted / selected / new-card flags, block read
 * and write commands, the decisions the discovery sequence takes from the
 * card's responses (SDHC capability, block addressing, relative address,
 * CSD geometry and timeout), and the driver's init.
 *
 * Command opcodes and response classes follow the SD Physical Layer
 * specification (the SD/MMC headers are not part of this model); a response
 * class is the host's `Flags` value. Whatever the bus does with a command is
 * an input: a `Bus` value per command.
 */
module Sdmmc {
  import opened Types
  import Sdhc
  import Drivers

  const DEFAULT_BLOCKLEN: nat := 512

  /** The identity of `sdmmcDrvCallback` in the driver callback table. */
  const SDMMC_CALLBACK: nat := 4

  const MMC_SELECT_CARD: u16 := 7
  const MMC_READ_BLOCK_MULTIPLE: u16 := 18
  const MMC_WRITE_BLOCK_MULTIPLE: u16 := 25

  /** `SD_OCR_SDHC_CAP` (bit 30) and `MMC_OCR_MEM_READY` (bit 31). */
  const OCR_SDHC_CAP: u32 := 0x4000_0000
  const OCR_MEM_READY: u32 := 0x8000_0000

  /** Response class R1: a 48-bit response with CRC and index check. */
  const RSP_R1: Sdhc.Flags := Sdhc.Flags(false, true, false, false, true, true)
  /** Response class R1b: R1 with the busy signal. */
  const RSP_R1B: Sdhc.Flags := Sdhc.Flags(false, true, false, true, true, true)

  /**
   * What the bus does with one command: the present-state readings while it
   * waits to start, whether the command-complete interrupt comes, and
   * whether a DMA transfer times out.
   */
  datatype Bus = Bus(present: nat -> u32, completed: bool, dmaTimedOut: bool)

  /** `SDMMC_NO_CARD`, `SDMMC_NEW_CARD`, `SDMMC_INSERTED`. */
  datatype CardState = NoCard | NewCard | Inserted

  // ------------------------------------------------------- bus outcomes

  /** The controller becomes free for a command within its polls. */
  predicate Free(present: nat -> u32)
  {
    exists i :: 0 <= i < Sdhc.WAIT_STATE_POLLS && Sdhc.Settled(present(i), Sdhc.CMD_INHIBIT_MASK, 0)
  }

  /** A command without data succeeds on bus `b`. */
  predicate Answered(b: Bus)
  {
    Free(b.present) && b.completed
  }

  // ------------------------------------------------------ block commands

  /** The opcode of a multi-block read or write. */
  function TransferOpcode(read: bool): u16
  {
    if read then MMC_READ_BLOCK_MULTIPLE else MMC_WRITE_BLOCK_MULTIPLE
  }

  /** R1, with `SCF_CMD_READ` for reads only. */
  function TransferFlags(read: bool): Sdhc.Flags
  {
    RSP_R1.(read := read)
  }

  /**
   * The command argument: the block number for block-addressed (SDHC)
   * cards, else the byte address `blk_start * 512` in 32 bits.
   */
  function BlockArgument(blockmode: bool, blkStart: u32): (r: u32)
    ensures blockmode ==> r == blkStart
    ensures !blockmode ==> r % DEFAULT_BLOCKLEN == 0 && r == (blkStart * DEFAULT_BLOCKLEN) % TWO_32
    ensures !blockmode && blkStart < 0x80_0000 ==> r == blkStart * DEFAULT_BLOCKLEN
  {
    if blockmode then blkStart
    else
      var x := blkStart * DEFAULT_BLOCKLEN;
      DivModUnique(x, TWO_32, x / TWO_32, x % TWO_32);
      assert x % TWO_32 == 512 * (blkStart - 0x80_0000 * (x / TWO_32));
      Mul32(blkStart, DEFAULT_BLOCKLEN)
  }

  /** `c_datalen = blk_count * 512`: a 32-bit product stored in an `int`. */
  function DataLength(blkCount: u32): int
  {
    Signed32(Mul32(blkCount, DEFAULT_BLOCKLEN))
  }

  /** What the host controller makes of a block command before touching the bus. */
  function TransferPlan(read: bool, blkCount: u32, data: u32, useDma: bool): Sdhc.Outcome<Sdhc.Plan>
  {
    Sdhc.Prepare(TransferOpcode(read), TransferFlags(read), data != 0, DataLength(blkCount), DEFAULT_BLOCKLEN, useDma)
  }

  /** The block command is accepted by the host, runs on the bus and its DMA does not time out. */
  predicate Transferred(read: bool, blkCount: u32, data: u32, useDma: bool, b: Bus)
  {
    TransferPlan(read, blkCount, data, useDma).Ok? && Free(b.present) && b.completed &&
    !(DataLength(blkCount) > 0 && useDma && b.dmaTimedOut)
  }

  /**
   * Up to 512 blocks go out as one transfer of 512-byte blocks with the
   * data-present, read (for reads only), block-count, multi-block and
   * auto-CMD12 bits; zero blocks is a command without blocks.
   */
  lemma TransferPlanSmall(read: bool, blkCount: u32, data: u32, useDma: bool)
    requires blkCount <= Sdhc.BLOCK_COUNT_MAX
    ensures DataLength(blkCount) == blkCount * DEFAULT_BLOCKLEN
    ensures TransferPlan(read, blkCount, data, useDma).Ok?
    ensures blkCount > 0 ==> TransferPlan(read, blkCount, data, useDma).value.geometry == Sdhc.Geometry(512, blkCount)
    ensures blkCount == 0 ==> TransferPlan(read, blkCount, data, useDma).value.geometry == Sdhc.Geometry(0, 0)
    ensures TransferPlan(read, blkCount, data, useDma).value.mode == Sdhc.ModeWord(read, blkCount, useDma)
  {
    var n := blkCount * DEFAULT_BLOCKLEN;
    assert Mul32(blkCount, DEFAULT_BLOCKLEN) == n;
    if blkCount > 0 {
      WholeBlocks(blkCount);
    }
  }

  /** `k` whole sectors, for k up to 512, fragment into k blocks of 512 bytes. */
  lemma WholeBlocks(k: nat)
    requires 0 < k <= Sdhc.BLOCK_COUNT_MAX
    ensures Sdhc.Fragmentable(512 * k, 512)
    ensures Sdhc.Fragment(512 * k, 512) == Sdhc.Ok(Sdhc.Geometry(512, k))
  {
    assert Sdhc.BlockSize(512 * k, 512) == 512;
    DivModUnique(512 * k, 512, k, 0);
  }

  /** From 513 to 65535 blocks the host refuses the command with EINVAL. */
  lemma TransferPlanTooLarge(read: bool, blkCount: u32, data: u32, useDma: bool)
    requires Sdhc.BLOCK_COUNT_MAX < blkCount < 0x1_0000
    ensures DataLength(blkCount) == blkCount * DEFAULT_BLOCKLEN
    ensures TransferPlan(read, blkCount, data, useDma) == Sdhc.Fail(Sdhc.Einval)
  {
    var n := blkCount * DEFAULT_BLOCKLEN;
    assert Mul32(blkCount, DEFAULT_BLOCKLEN) == n;
    assert Sdhc.BlockSize(n, 512) == 512;
    assert n % 512 == 0 && n / 512 == blkCount;
  }

  // ------------------------------------------------- discovery decisions

  /** `a | b` for two values whose sum stays within 32 bits equals `a + b - (a & b)`. */
  lemma {:induction false} OrPlusAnd(a: nat, b: nat)
    ensures BitOr(a, b) + BitAnd(a, b) == a + b
    decreases a + b
  {
    if a != 0 && b != 0 {
      OrPlusAnd(a / 2, b / 2);
      AndUnfold(a, b);
    }
  }

  /** Bit 30 of a 32-bit word is the parity of its quotient by 2^30. */
  lemma Bit30(w: u32)
    ensures Pow2(30) == OCR_SDHC_CAP
    ensures BitAnd(w, OCR_SDHC_CAP) == if (w / OCR_SDHC_CAP) % 2 == 1 then OCR_SDHC_CAP else 0
  {
    Pow2Values();
    AndSingleBit(w, 30);
  }

  /**
   * The OCR argument after `SEND_IF_COND`: `SD_OCR_SDHC_CAP` is set when
   * the command succeeded and the low byte of its R1 response is 0xaa,
   * cleared otherwise; every other bit of the host's OCR is kept.
   */
  function IfCondOcr(ocr: u32, error: Sdhc.Error, r1: u32): (r: u32)
    ensures r == ocr - (if (ocr / OCR_SDHC_CAP) % 2 == 1 then OCR_SDHC_CAP else 0) +
      (if error == Sdhc.NoError && r1 % 0x100 == 0xaa then OCR_SDHC_CAP else 0)
  {
    Bit30(ocr);
    assert Pow2(32) == TWO_32 by { Pow2Values(); }
    AndComplement(ocr, OCR_SDHC_CAP, 32);
    OrPlusAnd(ocr, OCR_SDHC_CAP);
    AndLowMask(r1, 8);
    assert Pow2(8) == 0x100 by { Pow2Values(); }
    if error != Sdhc.NoError || And32(r1, 0xff) != 0xaa then And32(ocr, Not32(OCR_SDHC_CAP))
    else Or32(ocr, OCR_SDHC_CAP)
  }

  /** The capability bit of the OCR `IfCondOcr` computes says exactly whether the card answered 0xaa. */
  lemma IfCondOcrCapability(ocr: u32, error: Sdhc.Error, r1: u32)
    ensures (IfCondOcr(ocr, error, r1) / OCR_SDHC_CAP) % 2 == 1 <==> error == Sdhc.NoError && r1 % 0x100 == 0xaa
    ensures IfCondOcr(ocr, error, r1) % OCR_SDHC_CAP == ocr % OCR_SDHC_CAP
    ensures IfCondOcr(ocr, error, r1) / OCR_MEM_READY == ocr / OCR_MEM_READY
  {
    var x := if error == Sdhc.NoError && r1 % 0x100 == 0xaa then 1 else 0;
    ReplaceBit30(ocr, IfCondOcr(ocr, error, r1), x);
  }

  /** Clearing bit 30 of `o` and adding `x` there leaves every other bit alone. */
  lemma ReplaceBit30(o: nat, r: nat, x: nat)
    requires x <= 1
    requires r == o - (if (o / OCR_SDHC_CAP) % 2 == 1 then OCR_SDHC_CAP else 0) + x * OCR_SDHC_CAP
    ensures (r / OCR_SDHC_CAP) % 2 == x && r % OCR_SDHC_CAP == o % OCR_SDHC_CAP && r / OCR_MEM_READY == o / OCR_MEM_READY
  {
    var t := o / OCR_SDHC_CAP;
    var b := t % 2;
    var low := o % OCR_SDHC_CAP;
    assert o == OCR_SDHC_CAP * t + low;
    assert r == OCR_SDHC_CAP * (t - b + x) + low;
    DivModUnique(r, OCR_SDHC_CAP, t - b + x, low);
    assert t - b == 2 * (t / 2);
    DivModUnique(r, OCR_MEM_READY, t / 2, OCR_SDHC_CAP * x + low);
    DivModUnique(o, OCR_MEM_READY, t / 2, OCR_SDHC_CAP * b + low);
  }

  /** `ISSET(MMC_R1(resp), SD_OCR_SDHC_CAP)`: the card is block addressed. */
  function BlockAddressed(r1: u32): (b: bool)
    ensures b <==> BitSet(r1, 30)
  {
    Bit30(r1);
    And32(r1, OCR_SDHC_CAP) != 0
  }

  /** `ISSET(resp, MMC_OCR_MEM_READY)`: the card finished powering up. */
  function PoweredUp(r1: u32): (b: bool)
    ensures b <==> BitSet(r1, 31)
  {
    Pow2Values();
    AndSingleBit(r1, 31);
    And32(r1, OCR_MEM_READY) != 0
  }

  /** `MMC_R1(resp) >> 16`: the relative card address of an R6 response. */
  function Rca(r1: u32): (rca: u16)
    ensures rca == r1 / 0x1_0000
  {
    assert Pow2(16) == 0x1_0000 by { Pow2Values(); }
    Shr(r1, 16)
  }

  /** `(u32)rca << 16`: the argument of commands addressed to the card. */
  function RcaArgument(rca: u16): (r: u32)
    ensures r / 0x1_0000 == rca && r % 0x1_0000 == 0
  {
    assert Pow2(16) == 0x1_0000 by { Pow2Values(); }
    DivModUnique(rca * 0x1_0000, TWO_32, 0, rca * 0x1_0000);
    DivModUnique(rca * 0x1_0000, 0x1_0000, rca, 0);
    Shl32(rca, 16)
  }

  /** An R6 response gives back the address a select command then carries. */
  lemma RcaRoundTrip(r1: u32)
    ensures RcaArgument(Rca(r1)) == r1 - r1 % 0x1_0000
  {
    var rca := Rca(r1);
    var a := RcaArgument(rca);
    assert a == 0x1_0000 * (a / 0x1_0000) + a % 0x1_0000;
  }

  // ---------------------------------------------------------------- CSD

  /** What the CSD register gives: the data timeout and the number of 512-byte sectors. */
  datatype CsdInfo = CsdInfo(timeout: u32, numSectors: u32)

  /** The CSD structure version 2 (SDHC) marker: byte 13 of the response image is 0x0e. */
  predicate CsdV2(resp: seq<u8>)
    requires |resp| == 16
  {
    resp[13] == 0x0e
  }

  /** `resp[7] << 16 | resp[6] << 8 | resp[5]`: the 24 bits holding C_SIZE in a version 2 CSD. */
  function CsdV2Size(resp: seq<u8>): (c: nat)
    requires |resp| == 16
    ensures c < 0x100_0000 && c / 0x1_0000 == resp[7] && (c / 0x100) % 0x100 == resp[6] && c % 0x100 == resp[5]
  {
    var c := resp[7] as nat * 0x1_0000 + resp[6] as nat * 0x100 + resp[5] as nat;
    DivModUnique(c, 0x1_0000, resp[7] as nat, resp[6] as nat * 0x100 + resp[5] as nat);
    DivModUnique(c, 0x100, resp[7] as nat * 0x100 + resp[6] as nat, resp[5] as nat);
    DivModUnique(resp[7] as nat * 0x100 + resp[6] as nat, 0x100, resp[7] as nat, resp[6] as nat);
    c
  }

  /** The three bytes occupy disjoint bit ranges, so the OR that assembles them is their sum. */
  lemma CsdV2SizeOr(resp: seq<u8>)
    requires |resp| == 16
    ensures Or32(Or32(Shl32(resp[7], 16), Shl32(resp[6], 8)), resp[5]) == CsdV2Size(resp)
  {
    Pow2Values();
    var hi := resp[6] as nat * 0x100;
    ShlOr(hi, resp[7], 16);
    ShlOr(resp[6], 0, 8);
    assert Shl32(resp[6], 8) == hi by {
      DivModUnique(hi, TWO_32, 0, hi);
    }
    var upper := hi + resp[7] as nat * 0x1_0000;
    assert upper == (resp[7] as nat * 0x100 + resp[6] as nat) * 0x100;
    OrDisjoint(resp[5], resp[7] as nat * 0x100 + resp[6] as nat, 8);
    OrCommutes(upper, resp[5]);
  }

  /** `read_bl_len = resp[9] & 0xf`. */
  function CsdV1BlockLenExp(resp: seq<u8>): (e: nat)
    requires |resp| == 16
    ensures e == resp[9] % 16
  {
    AndLowMask(resp[9], 4);
    assert Pow2(4) == 16 by { Pow2Values(); }
    And32(resp[9], 0xf)
  }

  /** The 12-bit C_SIZE of a version 1 CSD: two bits of byte 8, byte 7, two bits of byte 6. */
  function CsdV1Size(resp: seq<u8>): (c: nat)
    requires |resp| == 16
    ensures c < 0x1000
  {
    (resp[8] % 4) * 0x400 + resp[7] as nat * 4 + resp[6] / 0x40
  }

  /** The 3-bit C_SIZE_MULT of a version 1 CSD: two bits of byte 5 and the top bit of byte 4. */
  function CsdV1SizeMult(resp: seq<u8>): (m: nat)
    requires |resp| == 16
    ensures m < 8
  {
    (resp[5] % 4) * 2 + resp[4] / 0x80
  }

  /** `time_unit[]`, in nanoseconds. */
  const TIME_UNIT: seq<nat> := [1, 10, 100, 1000, 10000, 100000, 1000000, 10000000]
  /** `time_value[]`, in tenths. */
  const TIME_VALUE: seq<nat> := [1, 10, 12, 13, 15, 20, 25, 30, 35, 40, 45, 50, 55, 60, 70, 80]

  /** `taac & 7` and `(taac >> 3) & 0xf`: both table indices are in bounds for any TAAC byte. */
  function TaacIndices(taac: u8): (ix: (nat, nat))
    ensures ix.0 < |TIME_UNIT| && ix.1 < |TIME_VALUE|
    ensures ix.0 == taac % 8 && ix.1 == (taac / 8) % 16
  {
    Pow2Values();
    AndLowMask(taac, 3);
    AndLowMask(taac / 8, 4);
    (And32(taac, 7), And32(Shr(taac, 3), 0xf))
  }

  /** The data access time of a version 1 CSD, in the 32-bit arithmetic of the driver. */
  function CsdV1Timeout(taac: u8): (t: u32)
    ensures t <= 800_000_000
  {
    var ix := TaacIndices(taac);
    var u, v := TIME_UNIT[ix.0], TIME_VALUE[ix.1];
    TableBounds(ix.0, ix.1);
    MulMono(u, v, 10000000, 80);
    u * v / 10
  }

  lemma TableBounds(i: nat, j: nat)
    requires i < |TIME_UNIT| && j < |TIME_VALUE|
    ensures TIME_UNIT[i] <= 10000000 && TIME_VALUE[j] <= 80
  {
  }

  /** The capacity in bytes a version 1 CSD describes: (C_SIZE + 1) · 2^(C_SIZE_MULT + 2) · 2^READ_BL_LEN. */
  function CsdV1Capacity(resp: seq<u8>): nat
    requires |resp| == 16
  {
    MulNat(MulNat(CsdV1Size(resp) + 1, Pow2(CsdV1SizeMult(resp) + 2)), Pow2(CsdV1BlockLenExp(resp)))
  }

  function MulNat(a: nat, b: nat): nat
  {
    a * b
  }

  /** The version 1 sector count as written: the capacity product is formed in 32-bit unsigned arithmetic. */
  function CsdV1SectorsAsWritten(resp: seq<u8>): u32
    requires |resp| == 16
  {
    var c, m, e := CsdV1Size(resp), CsdV1SizeMult(resp), CsdV1BlockLenExp(resp);
    Mul32(Mul32(c + 1, Pow2(m + 2) % TWO_32), Pow2(e) % TWO_32) / 512
  }

  /** The version 1 sector count as intended: the capacity divided into 512-byte sectors, without wrap. */
  function CsdV1Sectors(resp: seq<u8>): (n: u32)
    requires |resp| == 16
    ensures n * 512 <= CsdV1Capacity(resp) < (n + 1) * 512
  {
    CapacityBound(CsdV1Size(resp), CsdV1SizeMult(resp), CsdV1BlockLenExp(resp));
    CsdV1Capacity(resp) / 512
  }

  lemma CapacityBound(c: nat, m: nat, e: nat)
    requires c < 0x1000 && m < 8 && e < 16
    ensures (c + 1) * Pow2(m + 2) * Pow2(e) < 512 * TWO_32
  {
    Pow2Monotone(m + 2, 9);
    Pow2Monotone(e, 15);
    assert Pow2(9) == 512 && Pow2(15) == 0x8000 by {
      Pow2Values();
      assert Pow2(9) == 2 * Pow2(8);
      assert Pow2(15) == 2 * Pow2(14) == 4 * Pow2(13) == 8 * Pow2(12) == 16 * Pow2(11) == 32 * Pow2(10) == 64 * Pow2(9);
    }
    MulMono(c + 1, Pow2(m + 2), 0x1000, 512);
    MulMono((c + 1) * Pow2(m + 2), Pow2(e), 0x1000 * 512, 0x8000);
  }

  /** What `sdmmc_needs_discover` takes from a CSD response image (version 1 sector count as intended). */
  function ParseCsd(resp: seq<u8>): CsdInfo
    requires |resp| == 16
  {
    if CsdV2(resp) then CsdInfo(250 * 1_000_000, Mul32(CsdV2Size(resp) + 1, 1024))
    else CsdInfo(CsdV1Timeout(resp[13]), CsdV1Sectors(resp))
  }

  /**
   * A version 2 CSD: the card holds (C_SIZE + 1) 512 KiB units, counted in
   * 512-byte sectors; the count is exact while it fits 32 bits and wraps
   * to 0 at the 22-bit maximum of C_SIZE (a 2 TiB card).
   */
  lemma CsdV2Sectors(resp: seq<u8>)
    requires |resp| == 16 && CsdV2(resp)
    ensures ParseCsd(resp).timeout == 250_000_000
    ensures CsdV2Size(resp) < 0x3F_FFFF ==> ParseCsd(resp).numSectors == (CsdV2Size(resp) + 1) * 1024
    ensures CsdV2Size(resp) == 0x3F_FFFF ==> ParseCsd(resp).numSectors == 0
    ensures ParseCsd(resp).numSectors == (CsdV2Size(resp) + 1) * 1024 % TWO_32
  {
  }

  /**
   * A version 1 CSD with a block length of 512 to 2048 bytes (the values
   * the SD standard allows): the sector count times 512 is the capacity;
   * the timeout is the product of the TAAC unit and value, in tenths.
   */
  lemma CsdV1SectorsExact(resp: seq<u8>)
    requires |resp| == 16 && !CsdV2(resp)
    requires 9 <= CsdV1BlockLenExp(resp) <= 11
    ensures ParseCsd(resp).numSectors * 512 == CsdV1Capacity(resp)
    ensures ParseCsd(resp).timeout == TIME_UNIT[resp[13] % 8] * TIME_VALUE[(resp[13] / 8) % 16] / 10
  {
    var c, m, e := CsdV1Size(resp), CsdV1SizeMult(resp), CsdV1BlockLenExp(resp);
    Pow2Add(9, e - 9);
    assert Pow2(9) == 512 by { Pow2Values(); assert Pow2(9) == 2 * Pow2(8); }
    var a := (c + 1) * Pow2(m + 2);
    assert CsdV1Capacity(resp) == a * Pow2(e);
    assert a * Pow2(e) == 512 * (a * Pow2(e - 9)) by { MulAssoc3(a, 512, Pow2(e - 9)); }
    DivModUnique(CsdV1Capacity(resp), 512, a * Pow2(e - 9), 0);
  }

  lemma MulAssoc3(a: int, b: int, c: int)
    ensures a * (b * c) == b * (a * c)
  {
  }

  /** While the capacity stays below 4 GiB the 32-bit product of the driver gives the intended count. */
  lemma CsdV1AsWrittenAgrees(resp: seq<u8>)
    requires |resp| == 16 && CsdV1Capacity(resp) < TWO_32
    ensures CsdV1SectorsAsWritten(resp) == CsdV1Sectors(resp)
  {
    var c, m, e := CsdV1Size(resp), CsdV1SizeMult(resp), CsdV1BlockLenExp(resp);
    Pow2Positive(m + 2);
    Pow2Positive(e);
    NoWrap(c + 1, Pow2(m + 2), Pow2(e));
  }

  lemma Pow2Positive(k: nat)
    ensures Pow2(k) >= 1
  {
    Pow2Monotone(0, k);
    assert Pow2(0) == 1 by { Pow2Values(); }
  }

  /** A 32-bit product of three positive factors whose true product fits 32 bits does not wrap. */
  lemma NoWrap(a: nat, b: nat, c: nat)
    requires 1 <= a < TWO_32 && b >= 1 && c >= 1 && MulNat(MulNat(a, b), c) < TWO_32
    ensures Mul32(Mul32(a, b % TWO_32), c % TWO_32) == MulNat(MulNat(a, b), c)
  {
    var ab := a * b;
    MulMono(ab, 1, ab, c);
    MulMono(1, b, a, b);
    MulMono(1, c, ab, c);
    assert b % TWO_32 == b && c % TWO_32 == c;
    assert Mul32(a, b) == ab;
  }

  /** A version 1 CSD of a 4 GiB card: C_SIZE 4095, C_SIZE_MULT 7, READ_BL_LEN 11. */
  const FOUR_GIB_CSD: seq<u8> := [0, 0, 0, 0, 0x80, 0x03, 0xc0, 0xff, 0x03, 0x0b, 0, 0, 0, 0, 0, 0]

  /** For a 4 GiB version 1 card the 32-bit product wraps to 0 sectors; the intended count is 2^23. */
  lemma CsdV1FourGiBWraps()
    ensures |FOUR_GIB_CSD| == 16 && !CsdV2(FOUR_GIB_CSD)
    ensures CsdV1Capacity(FOUR_GIB_CSD) == TWO_32
    ensures CsdV1SectorsAsWritten(FOUR_GIB_CSD) == 0
    ensures CsdV1Sectors(FOUR_GIB_CSD) == 0x80_0000
  {
    var r := FOUR_GIB_CSD;
    assert CsdV1Size(r) == 0xfff && CsdV1SizeMult(r) == 7 && CsdV1BlockLenExp(r) == 11;
    assert Pow2(9) == 512 && Pow2(11) == 2048 by { Pow2Values(); assert Pow2(9) == 2 * Pow2(8); }
    assert CsdV1Capacity(r) == 0x1000 * 512 * 2048;
    assert Mul32(0x1000, 512) == 0x20_0000;
    assert Mul32(0x20_0000, 2048) == 0;
  }

  lemma MulMono(a: nat, b: nat, x: nat, y: nat)
    requires a <= x && b <= y
    ensures a * b <= x * y
  {
  }

  // --------------------------------------------------------------- card

  /** The `card` record and the host it talks to. */
  class Card {
    const host: Sdhc.Host
    var inserted: bool
    var sdhcBlockmode: bool
    var selected: bool
    /** Set each time a new card is inserted, until the block layer acknowledges it. */
    var newCard: bool
    var timeout: u32
    var numSectors: u32
    var cid: u32
    var rca: u16

    ghost predicate Valid()
    {
      host.Valid()
    }

    /** `sdmmc_attach` up to the card-detect check: the record is cleared and bound to `host`. */
    constructor (host: Sdhc.Host)
      requires host.Valid()
      ensures Valid() && this.host == host
      ensures !inserted && !sdhcBlockmode && !selected && !newCard
      ensures timeout == 0 && numSectors == 0 && cid == 0 && rca == 0
    {
      this.host := host;
      inserted, sdhcBlockmode, selected, newCard := false, false, false, false;
      timeout, numSectors, cid, rca := 0, 0, 0, 0;
    }

    /** `sdmmc_check_card`. */
    function CheckCard(): CardState
      reads this`inserted, this`newCard
    {
      if !inserted then NoCard else if newCard then NewCard else Inserted
    }

    /**
     * `sdmmc_ack_card`: a pending new card is acknowledged (0); otherwise
     * nothing changes (-1). A new card then reads as inserted.
     */
    method AckCard() returns (r: int)
      modifies this`newCard
      ensures r == 0 <==> old(newCard)
      ensures r == 0 || r == -1
      ensures !newCard
      ensures CheckCard() == if old(CheckCard()) == NewCard then Inserted else old(CheckCard())
    {
      if newCard {
        newCard := false;
        return 0;
      }
      return -1;
    }

    /**
     * `sdmmc_get_sectors`: -1 without a card or with an unacknowledged one,
     * else the sector count as an `int` (a count of 2^31 or more reads
     * as negative).
     */
    function GetSectors(): (r: int)
      reads this`inserted, this`newCard, this`numSectors
      ensures CheckCard() == Inserted ==> r % TWO_32 == numSectors % TWO_32
      ensures CheckCard() == Inserted && numSectors < 0x8000_0000 ==> r == numSectors
      ensures CheckCard() != Inserted ==> r == -1
    {
      if !inserted then -1
      else if newCard then -1
      else Signed32(numSectors)
    }

    /**
     * `sdmmc_select`: SELECT_CARD with the card's address; the card counts
     * as selected once the command succeeds.
     */
    method Select(b: Bus) returns (r: int)
      requires Valid()
      modifies this`selected, host`dataCommand, host.regs
      ensures Valid()
      ensures r == 0 <==> Answered(b)
      ensures r == 0 || r == -1
      ensures selected == (old(selected) || Answered(b))
      ensures Free(b.present) ==> Sdhc.WordAt(host.regs[..], Sdhc.ARGUMENT) == RcaArgument(rca)
      ensures !Free(b.present) ==> host.regs[..] == old(host.regs[..])
    {
      var cmd := new Sdhc.Command(MMC_SELECT_CARD, RcaArgument(rca), RSP_R1B);
      assert Sdhc.Fragment(0, 0) == Sdhc.Ok(Sdhc.Geometry(0, 0));
      host.ExecCommand(cmd, b.present, b.completed, b.dmaTimedOut);
      assert host.PlanOf(cmd).Ok?;
      assert host.StartError(cmd, b.present) == Sdhc.NoError <==> Free(b.present);
      if cmd.error != Sdhc.NoError {
        return -1;
      }
      selected := true;
      return 0;
    }

    /**
     * `sdmmc_read` (`read`) and `sdmmc_write` (`!read`): -1 without a card,
     * when the card cannot be selected, or while a new card is not yet
     * acknowledged, checked in that order; else the multi-block command
     * runs and its error decides. `sel` is the bus for the select command
     * (used only when the card is not selected yet), `xfer` the bus for the
     * block command.
     */
    method Transfer(read: bool, blkStart: u32, blkCount: u32, data: u32, sel: Bus, xfer: Bus) returns (r: int)
      requires Valid()
      modifies this`selected, host`dataCommand, host.regs
      ensures Valid()
      ensures r == 0 || r == -1
      ensures r == 0 <==>
        old(inserted) && (old(selected) || Answered(sel)) && !old(newCard) &&
        Transferred(read, blkCount, data, host.useDma, xfer)
      ensures selected == (old(selected) || (old(inserted) && Answered(sel)))
      ensures !old(inserted) ==> host.regs[..] == old(host.regs[..])
      // The block command reached the controller: its argument and opcode are in the registers.
      ensures (old(inserted) && (old(selected) || Answered(sel)) && !old(newCard) &&
                TransferPlan(read, blkCount, data, host.useDma).Ok? && Free(xfer.present)) ==>
        Sdhc.WordAt(host.regs[..], Sdhc.ARGUMENT) == BlockArgument(sdhcBlockmode, blkStart) &&
        Sdhc.HalfAt(host.regs[..], Sdhc.COMMAND) / 0x100 == TransferOpcode(read) &&
        (Sdhc.HalfAt(host.regs[..], Sdhc.TRANSFER_MODE) / 0x10) % 2 == (if read then 1 else 0)
    {
      if !inserted {
        return -1;
      }
      if !selected {
        var s := Select(sel);
        if s < 0 {
          return -1;
        }
      }
      if newCard {
        return -1;
      }
      var ok := RunBlockCommand(read, BlockArgument(sdhcBlockmode, blkStart), blkCount, data, xfer);
      r := if ok then 0 else -1;
    }

    /** The block command of `sdmmc_transfer` built and run on the host, once the card is selected. */
    method RunBlockCommand(read: bool, arg: u32, blkCount: u32, data: u32, xfer: Bus) returns (ok: bool)
      requires Valid()
      modifies host`dataCommand, host.regs
      ensures Valid() && host.useDma == old(host.useDma)
      ensures ok <==> Transferred(read, blkCount, data, host.useDma, xfer)
      ensures TransferPlan(read, blkCount, data, host.useDma).Ok? && Free(xfer.present) ==>
        Sdhc.WordAt(host.regs[..], Sdhc.ARGUMENT) == arg &&
        Sdhc.HalfAt(host.regs[..], Sdhc.COMMAND) / 0x100 == TransferOpcode(read) &&
        (Sdhc.HalfAt(host.regs[..], Sdhc.TRANSFER_MODE) / 0x10) % 2 == (if read then 1 else 0)
    {
      var cmd := new Sdhc.Command(TransferOpcode(read), arg, TransferFlags(read));
      cmd.data := data;
      cmd.datalen := DataLength(blkCount);
      cmd.blklen := DEFAULT_BLOCKLEN;
      host.ExecCommand(cmd, xfer.present, xfer.completed, xfer.dmaTimedOut);
      assert host.PlanOf(cmd) == TransferPlan(read, blkCount, data, host.useDma);
      TransferIssued(read, blkCount, data, host.useDma);
      ok := cmd.error == Sdhc.NoError;
    }

    /**
     * `sdmmcDrvInit` after `sdhc_init`: no card means no hardware; else the
     * card is acknowledged, block 0 is read into `buffer` (its outcome is
     * not looked at) and the driver is ready.
     */
    method DrvInit(buffer: u32, sel: Bus, xfer: Bus) returns (state: Drivers.DriverState)
      requires Valid()
      modifies this`selected, this`newCard, host`dataCommand, host.regs
      ensures Valid()
      ensures state == Drivers.NoHardware <==> !old(inserted)
      ensures state == Drivers.NoHardware || state == Drivers.Ready
      ensures state == Drivers.Ready ==> CheckCard() == Inserted
      ensures state == Drivers.NoHardware ==> newCard == old(newCard) && selected == old(selected)
    {
      var c := CheckCard();
      if c == NoCard {
        return Drivers.NoHardware;
      }
      var _ := AckCard();
      var _ := Transfer(true, 0, 1, buffer, sel, xfer);
      return Drivers.Ready;
    }

    /**
     * `sdmmcDrvCleanup`: the callback is removed and the driver is not
     * ready; the card record is left as it was (`sdhc_shutdown` is not part
     * of this model).
     */
    method DrvCleanup(reg: Drivers.Registry) returns (state: Drivers.DriverState)
      requires reg.Valid()
      modifies reg.callbacks
      ensures reg.callbacks[..] == Drivers.RemoveCallback(old(reg.callbacks[..]), SDMMC_CALLBACK)
      ensures state == Drivers.NotReady
    {
      reg.RemoveCb(SDMMC_CALLBACK);
      state := Drivers.NotReady;
    }
  }

  /** The mode word of a block command has the read bit exactly for reads. */
  lemma TransferIssued(read: bool, blkCount: u32, data: u32, useDma: bool)
    ensures TransferPlan(read, blkCount, data, useDma).Ok? ==>
      TransferPlan(read, blkCount, data, useDma).value.command / 0x100 == TransferOpcode(read) &&
      (TransferPlan(read, blkCount, data, useDma).value.mode / 0x10) % 2 == (if read then 1 else 0)
  {
    var p := TransferPlan(read, blkCount, data, useDma);
    if p.Ok? {
      Sdhc.CommandWordFields(TransferOpcode(read), TransferFlags(read), data != 0);
      Sdhc.ModeWordFields(read, p.value.geometry.blkcount, useDma);
      assert Pow2(4) == 16 by { Pow2Values(); }
    }
  }
}
