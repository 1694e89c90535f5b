/**
 * The Hollywood/Latte SD host controller driver (`hollywood_sdhc.c`):
 * access to the controller's 8-, 16- and 32-bit registers through aligned
 * 32-bit words, the clock divisor search, the capability check made when the
 * host is found, and preparing, issuing and completing one SD command.
 *
 * The register file is modelled as the 256 bytes it occupies, least
 * significant byte first within each 32-bit word. Offsets, bit positions and
 * field layouts are those of the SD Host Controller Simplified Specification
 * v1.00 (register map of section 2.1, transfer mode of section 2.2.5, command
 * of section 2.2.6, capabilities of section 2.2.24), which the driver's
 * register header follows; that header is not part of this model. Error
 * codes are symbolic because `errno.h` is not part of this model either.
 */
module Sdhc {
  import opened Types
  import Utils

  // Register offsets (section 2.1).
  const DMA_ADDR: nat := 0x00
  const BLOCK_SIZE: nat := 0x04
  const BLOCK_COUNT: nat := 0x06
  const ARGUMENT: nat := 0x08
  const TRANSFER_MODE: nat := 0x0c
  const COMMAND: nat := 0x0e
  const RESPONSE: nat := 0x10
  const REG_SPACE: nat := 0x100

  // Transfer mode bits (section 2.2.5).
  const DMA_ENABLE: nat := 0x01
  const BLOCK_COUNT_ENABLE: nat := 0x02
  const AUTO_CMD12_ENABLE: nat := 0x04
  const READ_MODE: nat := 0x10
  const MULTI_BLOCK_MODE: nat := 0x20

  // Command register fields (section 2.2.6).
  const NO_RESPONSE: nat := 0
  const RESP_LEN_136: nat := 1
  const RESP_LEN_48: nat := 2
  const RESP_LEN_48_CHK_BUSY: nat := 3
  const CRC_CHECK_ENABLE: nat := 0x08
  const INDEX_CHECK_ENABLE: nat := 0x10
  const DATA_PRESENT_SELECT: nat := 0x20
  const COMMAND_INDEX_MASK: u32 := 0x3f

  /** The base clock frequency field of the capabilities register: 6 bits from bit 8, in MHz. */
  const BASE_FREQ_SHIFT: nat := 8
  const BASE_FREQ_MASK: u32 := 0x3f

  /** Command and data inhibit bits of the present state register. */
  const CMD_INHIBIT_MASK: u32 := 0x3
  /** The block count register holds 9 bits' worth of blocks. */
  const BLOCK_COUNT_MAX: nat := 512
  /** Bit of the capabilities register that announces DMA support. */
  const DMA_SUPPORT_BIT: nat := 22
  /** The 3.2-3.3 V and 3.3-3.4 V windows of the operating conditions register. */
  const OCR_3_2V_3_4V: u32 := 0x30_0000

  const COMMAND_TIMEOUT: nat := 500
  const TRANSFER_TIMEOUT: nat := 5000
  /** Polls of the present state register before `sdhc_wait_state` gives up. */
  const WAIT_STATE_POLLS: nat := 500

  datatype Error = NoError | Einval | Etimedout

  datatype Outcome<T> = Ok(value: T) | Fail(err: Error)

  // ------------------------------------------------------------ byte lanes

  /** The 32-bit value of four register bytes, least significant first. */
  function Le32(b0: u8, b1: u8, b2: u8, b3: u8): u32
  {
    b0 + 0x100 * b1 + 0x1_0000 * b2 + 0x100_0000 * b3
  }

  /** Byte lane `l` of `w`; lane 0 is the least significant byte. */
  function LaneByte(w: u32, l: nat): u8
    requires l < 4
  {
    if l == 0 then w % 0x100
    else if l == 1 then (w / 0x100) % 0x100
    else if l == 2 then (w / 0x1_0000) % 0x100
    else w / 0x100_0000
  }

  /** The lanes of a word built from four bytes are those bytes, and a word is rebuilt from its lanes. */
  lemma Le32Lanes(b0: u8, b1: u8, b2: u8, b3: u8)
    ensures LaneByte(Le32(b0, b1, b2, b3), 0) == b0 && LaneByte(Le32(b0, b1, b2, b3), 1) == b1
    ensures LaneByte(Le32(b0, b1, b2, b3), 2) == b2 && LaneByte(Le32(b0, b1, b2, b3), 3) == b3
  {
    var w := Le32(b0, b1, b2, b3);
    DivModUnique(w, 0x100, b1 + 0x100 * b2 + 0x1_0000 * b3, b0);
    DivModUnique(w, 0x1_0000, b2 + 0x100 * b3, b0 + 0x100 * b1);
    DivModUnique(w, 0x100_0000, b3, b0 + 0x100 * b1 + 0x1_0000 * b2);
    DivModUnique(b1 + 0x100 * b2 + 0x1_0000 * b3, 0x100, b2 + 0x100 * b3, b1);
    DivModUnique(b2 + 0x100 * b3, 0x100, b3, b2);
  }

  lemma WordOfLanes(w: u32)
    ensures Le32(LaneByte(w, 0), LaneByte(w, 1), LaneByte(w, 2), LaneByte(w, 3)) == w
    ensures LaneByte(w, 0) + 0x100 * LaneByte(w, 1) == w % 0x1_0000
    ensures LaneByte(w, 2) + 0x100 * LaneByte(w, 3) == w / 0x1_0000
  {
    var h := w / 0x1_0000;
    var l := w % 0x1_0000;
    assert w == 0x1_0000 * h + l;
    DivModUnique(w, 0x100, 0x100 * h + l / 0x100, l % 0x100);
    DivModUnique(w / 0x100, 0x100, h, l / 0x100);
    DivModUnique(h, 0x100, h / 0x100, h % 0x100);
    DivModUnique(w, 0x100_0000, h / 0x100, l + 0x1_0000 * (h % 0x100));
  }

  /** `(w & (0xff << 8l)) >> 8l` is byte lane l. */
  lemma ByteLaneMask(w: u32, l: nat)
    requires l < 4
    ensures Shr(And32(w, Shl32(0xff, 8 * l)), 8 * l) == LaneByte(w, l)
  {
    Pow2Values();
    if l == 0 {
      ByteLaneAt(w, 0, 1);
    } else if l == 1 {
      ByteLaneAt(w, 8, 0x100);
    } else if l == 2 {
      ByteLaneAt(w, 16, 0x1_0000);
    } else {
      ByteLaneAt(w, 24, 0x100_0000);
    }
  }

  lemma ByteLaneAt(w: u32, k: nat, q: nat)
    requires q == Pow2(k) && q <= 0x100_0000
    ensures Shr(And32(w, Shl32(0xff, k)), k) == DivBy(w, q) % 0x100
  {
    DivModUnique(0xff * q, TWO_32, 0, 0xff * q);
    AndShifted(w, 0xff, k, q);
    var x := DivBy(w, q);
    AndLowMask(x, 8);
    assert Pow2(8) == 0x100 by { Pow2Values(); }
    DivModUnique(x % 0x100 * q, q, x % 0x100, 0);
  }

  /** `(w & 0xffff0000) >> 16` is the upper half and `w & 0xffff` the lower half. */
  lemma HalfLaneMask(w: u32)
    ensures Shr(And32(w, 0xffff_0000), 16) == w / 0x1_0000
    ensures And32(w, 0xffff) == w % 0x1_0000
  {
    assert Pow2(16) == 0x1_0000 by { Pow2Values(); }
    HighHalf(w);
    AndLowMask(w, 16);
  }

  lemma HighHalf(w: u32)
    requires Pow2(16) == 0x1_0000
    ensures And32(w, 0xffff_0000) == w / 0x1_0000 * 0x1_0000
  {
    var x := w / 0x1_0000;
    AndShifted(w, 0xffff, 16, 0x1_0000);
    AndLowMask(x, 16);
  }

  /** `bus_space_read_1` on the aligned word `w`: byte lane `reg & 3`. */
  function ReadByteLane(w: u32, reg: nat): (r: u8)
    ensures r == LaneByte(w, reg % 4)
  {
    ByteLaneMask(w, reg % 4);
    Shr(And32(w, Shl32(0xff, 8 * (reg % 4))), 8 * (reg % 4))
  }

  /** `bus_space_read_2` on the aligned word `w`: the upper half unless `reg & 3` is 0. */
  function ReadHalfLane(w: u32, reg: nat): (r: u16)
    ensures r == if reg % 4 != 0 then w / 0x1_0000 else w % 0x1_0000
  {
    HalfLaneMask(w);
    if reg % 4 != 0 then Shr(And32(w, 0xffff_0000), 16) else And32(w, 0xffff)
  }

  // ----------------------------------------------------------------- mask32

  /** The read-modify-write `mask32` is meant to do: clear `clear`, then set `bits`. */
  function Mask32(data: u32, clear: u32, bits: u32): u32
  {
    Or32(And32(data, Not32(clear)), bits)
  }

  /** `mask32` as written: `bits` are ORed in first and `clear` removed afterwards. */
  function Mask32AsWritten(data: u32, clear: u32, bits: u32): u32
  {
    And32(Or32(data, bits), Not32(clear))
  }

  /**
   * Writing 1 into the upper half of a zero word: the intended merge gives
   * 0x10000, the merge as written gives 0 because it clears what it has just
   * set.
   */
  lemma Mask32AsWrittenDropsValue()
    ensures Mask32(0, 0xffff_0000, Shl32(1, 16)) == 0x1_0000
    ensures Mask32AsWritten(0, 0xffff_0000, Shl32(1, 16)) == 0
  {
    Pow2Values();
    assert Shl32(1, 16) == 0x1_0000;
    assert Or32(0, 0x1_0000) == 0x1_0000;
    AndLowMask(0x1_0000, 16);
    assert And32(0, 0xffff) == 0;
    OrDisjoint(0, 1, 16);
  }

  /** Merging a new upper half keeps the lower half, and conversely. */
  lemma MergeHalves(w: u32, v: u16)
    ensures Mask32(w, 0xffff_0000, Shl32(v, 16)) == w % 0x1_0000 + v * 0x1_0000
    ensures Mask32(w, 0xffff, v) == (w / 0x1_0000) * 0x1_0000 + v
  {
    assert Pow2(16) == 0x1_0000 by { Pow2Values(); }
    MergeUpperHalf(w, v);
    MergeLowerHalf(w, v);
  }

  lemma MergeUpperHalf(w: u32, v: u16)
    requires Pow2(16) == 0x1_0000
    ensures Mask32(w, 0xffff_0000, Shl32(v, 16)) == w % 0x1_0000 + v * 0x1_0000
  {
    var low := w % 0x1_0000;
    AndLowMask(w, 16);
    assert And32(w, Not32(0xffff_0000)) == low;
    ShlOr(low, v, 16);
    OrCommutes(low, v * 0x1_0000);
  }

  lemma MergeLowerHalf(w: u32, v: u16)
    requires Pow2(16) == 0x1_0000
    ensures Mask32(w, 0xffff, v) == (w / 0x1_0000) * 0x1_0000 + v
  {
    var x := w / 0x1_0000;
    HighHalf(w);
    assert And32(w, Not32(0xffff)) == x * 0x1_0000;
    OrDisjoint(v, x, 16);
    OrCommutes(v, x * 0x1_0000);
  }

  /** 2^(8l), the weight of byte lane l. */
  function LaneWeight(l: nat): nat
  {
    if l == 0 then 1 else if l == 1 then 0x100 else if l == 2 then 0x1_0000 else 0x100_0000
  }

  /** Lane l of a little-endian word is its l-th byte. */
  lemma LaneOfBytes(b0: u8, b1: u8, b2: u8, b3: u8, l: nat)
    requires l < 4
    ensures LaneByte(Le32(b0, b1, b2, b3), l) == [b0, b1, b2, b3][l]
  {
    Le32Lanes(b0, b1, b2, b3);
  }

  /** Replacing byte l of a little-endian word changes the word by that lane's weight. */
  lemma ReplaceLane(b0: u8, b1: u8, b2: u8, b3: u8, l: nat, v: u8)
    requires l < 4
    ensures Le32(if l == 0 then v else b0, if l == 1 then v else b1, if l == 2 then v else b2, if l == 3 then v else b3) ==
      Le32(b0, b1, b2, b3) - LaneByte(Le32(b0, b1, b2, b3), l) * LaneWeight(l) + v * LaneWeight(l)
  {
    Le32Lanes(b0, b1, b2, b3);
  }

  /** Merging a new byte into lane l replaces that lane and keeps the others. */
  lemma MergeByte(w: u32, v: u8, l: nat)
    requires l < 4
    ensures Mask32(w, Shl32(0xff, 8 * l), Shl32(v, 8 * l)) == w - LaneByte(w, l) * LaneWeight(l) + v * LaneWeight(l)
  {
    var k, q := 8 * l, LaneWeight(l);
    assert Pow2(k) == q by { Pow2Values(); }
    assert DivBy(w, q) % 0x100 == LaneByte(w, l) by {
      if l == 3 {
        assert w / 0x100_0000 < 0x100;
      }
    }
    MergeByteAt(w, v, k, q, LaneByte(w, l));
  }

  lemma MergeByteAt(w: u32, v: u8, k: nat, q: nat, lane: nat)
    requires q == Pow2(k) && q <= 0x100_0000 && lane == DivBy(w, q) % 0x100
    ensures Mask32(w, Shl32(0xff, k), Shl32(v, k)) == w - lane * q + v * q
  {
    ShlExact(0xff, k, q);
    ShlExact(v, k, q);
    MaskedLane(w, k, q);
    var y := w - DivBy(w, q) % 0x100 * q;
    ClearedQuotient(w, q);
    NoCommonBits(y, v, k, q, DivBy(w, q) / 0x100);
    OrOfDisjoint(y, v * q);
  }

  /** `c << k` loses nothing when c·2^k fits 32 bits. */
  lemma ShlExact(c: u32, k: nat, q: nat)
    requires q == Pow2(k) && c * q < TWO_32
    ensures Shl32(c, k) == c * q
  {
    DivModUnique(c * q, TWO_32, 0, c * q);
  }

  /** With lane k cleared, the bits above k are a multiple of 256. */
  lemma ClearedQuotient(w: u32, q: nat)
    requires q >= 1
    ensures w - DivBy(w, q) % 0x100 * q >= 0
    ensures (w - DivBy(w, q) % 0x100 * q) / q == 0x100 * (DivBy(w, q) / 0x100)
  {
    var x := DivBy(w, q);
    var lane := x % 0x100;
    var t := x / 0x100;
    assert x == 0x100 * t + lane;
    DivModSplit(w, q);
    LaneRemoved(w % q, x, lane, t, q);
    DivModUnique(w - lane * q, q, 0x100 * t, w % q);
  }

  lemma DivModSplit(a: nat, q: nat)
    requires q >= 1
    ensures a == DivBy(a, q) * q + a % q
  {
  }

  lemma LaneRemoved(r: int, x: int, lane: int, t: int, q: int)
    requires x == 0x100 * t + lane
    ensures x * q + r - lane * q == 0x100 * t * q + r
  {
  }

  /** Clearing the lane under `0xff << k` subtracts it. */
  lemma MaskedLane(w: u32, k: nat, q: nat)
    requires q == Pow2(k) && q <= 0x100_0000
    ensures 0xff * q < TWO_32
    ensures And32(w, Not32(0xff * q)) == w - DivBy(w, q) % 0x100 * q
  {
    var m := 0xff * q;
    assert m < TWO_32;
    LaneBits(w, k, q);
    assert Pow2(32) == TWO_32 by { Pow2Values(); }
    AndComplement(w, m, 32);
  }

  /** The bits of `w` under the mask 0xff·2^k are its byte at bit k, in place. */
  lemma LaneBits(w: u32, k: nat, q: nat)
    requires q == Pow2(k)
    ensures q >= 1 && BitAnd(w, 0xff * q) == DivBy(w, q) % 0x100 * q
  {
    AndShifted(w, 0xff, k, q);
    assert Pow2(8) == 0x100 by { Pow2Values(); }
    AndLowMask(DivBy(w, q), 8);
  }

  /** The word with lane k cleared shares no bit with a byte shifted into that lane. */
  lemma NoCommonBits(y: nat, v: u8, k: nat, q: nat, t: nat)
    requires q == Pow2(k)
    requires y / q == 0x100 * t
    ensures BitAnd(y, v * q) == 0
  {
    AndShifted(y, v, k, q);
    assert DivBy(y, q) == 0x100 * t;
    AndCommutes(0x100 * t, v);
    assert Pow2(8) == 0x100 by { Pow2Values(); }
    AndShifted(v, t, 8, 0x100);
    assert DivBy(v, 0x100) == 0;
    assert BitAnd(0, t) == 0;
  }

  // ------------------------------------------------------------ clock divisor

  /** Dividing the base clock by 2^k brings it to at most `freq`. */
  predicate Fits(clkbase: nat, freq: nat, k: nat)
  {
    DivBy(clkbase, Pow2(k)) <= freq
  }

  /** The smallest k from `k` to 8 for which 2^k fits. */
  function FirstFit(clkbase: nat, freq: nat, k: nat): Option<nat>
    decreases 9 - k
  {
    if k > 8 then None
    else if Fits(clkbase, freq, k) then Some(k)
    else FirstFit(clkbase, freq, k + 1)
  }

  /** The divisor `sdhc_clock_divisor` stands for: half the smallest fitting power of two, or -1. */
  function Divisor(clkbase: nat, freq: nat): int
  {
    match FirstFit(clkbase, freq, 0)
    case None => -1
    case Some(k) => Pow2(k) / 2
  }

  /** The SD clock a divisor field value selects: the base clock itself for 0, else base / (2·div). */
  function SdClock(clkbase: nat, div: nat): nat
  {
    if div == 0 then clkbase else DivBy(clkbase, 2 * div)
  }

  lemma {:induction false} FirstFitIsSmallest(clkbase: nat, freq: nat, k: nat)
    requires k <= 9
    ensures FirstFit(clkbase, freq, k).Some? ==>
      k <= FirstFit(clkbase, freq, k).value <= 8 && Fits(clkbase, freq, FirstFit(clkbase, freq, k).value) &&
      forall j :: k <= j < FirstFit(clkbase, freq, k).value ==> !Fits(clkbase, freq, j)
    ensures FirstFit(clkbase, freq, k).None? ==> forall j :: k <= j <= 8 ==> !Fits(clkbase, freq, j)
    decreases 9 - k
  {
    if k > 8 {
      assert FirstFit(clkbase, freq, k) == None;
    } else if Fits(clkbase, freq, k) {
      assert FirstFit(clkbase, freq, k) == Some(k);
    } else {
      var r := FirstFit(clkbase, freq, k + 1);
      assert FirstFit(clkbase, freq, k) == r;
      FirstFitIsSmallest(clkbase, freq, k + 1);
      var top := if r.Some? then r.value else 9;
      forall j | k <= j < top
        ensures !Fits(clkbase, freq, j)
      {
        if j > k {
          assert k + 1 <= j < top;
        }
      }
    }
  }

  /**
   * The divisor is -1 exactly when no power of two up to 256 brings the base
   * clock to `freq`; otherwise it is 0 or a power of two up to 128, its SD
   * clock is at most `freq`, and the next smaller divisor's is above it.
   */
  lemma DivisorMeaning(clkbase: nat, freq: nat)
    ensures Divisor(clkbase, freq) == -1 <==> forall j :: 0 <= j <= 8 ==> !Fits(clkbase, freq, j)
    ensures Divisor(clkbase, freq) >= 0 ==>
      Divisor(clkbase, freq) <= 128 && SdClock(clkbase, Divisor(clkbase, freq)) <= freq &&
      (Divisor(clkbase, freq) > 0 ==> SdClock(clkbase, Divisor(clkbase, freq) / 2) > freq)
  {
    FirstFitIsSmallest(clkbase, freq, 0);
    var f := FirstFit(clkbase, freq, 0);
    if f.Some? {
      var k := f.value;
      Pow2Monotone(k, 8);
      Pow2Values();
      if k > 0 {
        var p := Pow2(k - 1);
        assert Pow2(k) == 2 * p;
        assert Divisor(clkbase, freq) == p;
        assert !Fits(clkbase, freq, k - 1);
        if k > 1 {
          assert p == 2 * Pow2(k - 2);
          assert p / 2 == Pow2(k - 2);
        } else {
          assert p / 2 == 0 && Pow2(0) == 1;
          assert DivBy(clkbase, 1) == clkbase;
        }
      } else {
        assert DivBy(clkbase, 1) == clkbase;
      }
    }
  }

  /** `sdhc_clock_divisor`: tries 1, 2, 4, ..., 256 in turn. */
  method ClockDivisor(clkbase: nat, freq: nat) returns (r: int)
    ensures r == Divisor(clkbase, freq)
  {
    Pow2Values();
    var div := 1;
    ghost var k := 0;
    while div <= 256
      invariant 0 <= k <= 9 && div == Pow2(k) && (k == 9 ==> div == 512)
      invariant FirstFit(clkbase, freq, k) == FirstFit(clkbase, freq, 0)
      decreases 9 - k
    {
      if clkbase / div <= freq {
        return div / 2;
      }
      div := div * 2;
      k := k + 1;
    }
    if k <= 8 {
      Pow2Monotone(k, 8);
    }
    return -1;
  }

  // ----------------------------------------------------- capabilities check

  /** The base clock in kHz: bits 8 to 13 of the capabilities register, in MHz. */
  function BaseClockKHz(caps: u32): (r: nat)
    ensures r == (caps / 0x100) % 64 * 1000
  {
    Pow2Values();
    AndLowMask(caps / 0x100, 6);
    assert Pow2(6) == 64;
    And32(Shr(caps, BASE_FREQ_SHIFT), BASE_FREQ_MASK) * 1000
  }

  /** `ISSET(caps, SDHC_DMA_SUPPORT)`. */
  function DmaSupported(caps: u32): (r: bool)
    ensures r <==> BitSet(caps, DMA_SUPPORT_BIT)
  {
    Pow2Values();
    assert Pow2(22) == 0x40_0000;
    AndSingleBit(caps, DMA_SUPPORT_BIT);
    And32(caps, 0x40_0000) != 0
  }

  /** The base clock is accepted exactly when its MHz field is at least 10 (it is at most 63 anyway). */
  lemma BaseClockAccepted(caps: u32)
    ensures 10000 <= BaseClockKHz(caps) <= 63000 <==> (caps / 0x100) % 64 >= 10
  {
  }

  // ---------------------------------------------------- command preparation

  /** The `SCF_*` bits the controller driver looks at. */
  datatype Flags = Flags(read: bool, rspPresent: bool, rsp136: bool, rspBusy: bool, rspCrc: bool, rspIdx: bool)

  /** The block size `sdhc_start_command` keeps: `MIN(datalen, blklen)` in a 16-bit variable. */
  function BlockSize(datalen: int, blklen: int): u16
  {
    (if datalen > blklen then blklen else datalen) % 0x1_0000
  }

  /** The division by the block size is defined. */
  predicate Fragmentable(datalen: int, blklen: int)
  {
    datalen > 0 ==> BlockSize(datalen, blklen) != 0
  }

  datatype Geometry = Geometry(blksize: u16, blkcount: u16)

  /** How `sdhc_start_command` fragments the data, or `EINVAL`. */
  function Fragment(datalen: int, blklen: int): Outcome<Geometry>
    requires Fragmentable(datalen, blklen)
  {
    if datalen > 0 then
      var size := BlockSize(datalen, blklen);
      if datalen % size > 0 then Fail(Einval)
      else if (datalen / size) % 0x1_0000 > BLOCK_COUNT_MAX then Fail(Einval)
      else Ok(Geometry(size, (datalen / size) % 0x1_0000))
    else Ok(Geometry(0, 0))
  }

  /**
   * When the block length fits 16 bits and the block count does not wrap,
   * the data is accepted exactly when it is a whole number of at most 512
   * blocks, and the blocks then cover it exactly.
   */
  lemma FragmentCoversData(datalen: int, blklen: int)
    requires 0 < blklen < 0x1_0000 && datalen > 0
    requires datalen / (if datalen > blklen then blklen else datalen) < 0x1_0000
    ensures Fragmentable(datalen, blklen)
    ensures Fragment(datalen, blklen).Ok? <==>
      datalen % (if datalen > blklen then blklen else datalen) == 0 &&
      datalen / (if datalen > blklen then blklen else datalen) <= BLOCK_COUNT_MAX
    ensures Fragment(datalen, blklen).Ok? ==>
      Fragment(datalen, blklen).value.blksize <= blklen &&
      Fragment(datalen, blklen).value.blksize * Fragment(datalen, blklen).value.blkcount == datalen
  {
    var size := if datalen > blklen then blklen else datalen;
    assert 0 < size < 0x1_0000;
    assert BlockSize(datalen, blklen) == size;
    var n := datalen / size;
    assert n % 0x1_0000 == n;
    assert Fragment(datalen, blklen) == if datalen % size > 0 then Fail(Einval)
      else if n > BLOCK_COUNT_MAX then Fail(Einval) else Ok(Geometry(size, n));
    if datalen % size == 0 {
      assert size * n == datalen;
    }
  }

  /** No data: no blocks. */
  lemma FragmentWithoutData(datalen: int, blklen: int)
    requires datalen <= 0
    ensures Fragmentable(datalen, blklen) && Fragment(datalen, blklen) == Ok(Geometry(0, 0))
  {
  }

  /** 65536 blocks of 512 bytes wrap the 16-bit block count to 0 and pass the 512-block limit. */
  lemma FragmentCountWraps()
    ensures Fragmentable(0x200_0000, 512) && Fragment(0x200_0000, 512) == Ok(Geometry(512, 0))
  {
    assert BlockSize(0x200_0000, 512) == 512;
    assert 0x200_0000 / 512 == 0x1_0000;
  }

  /** The transfer mode word of section 2.2.5, as the sum of its disjoint bits. */
  function ModeWord(read: bool, blkcount: nat, useDma: bool): (m: u16)
  {
    (if read then READ_MODE else 0) +
    (if blkcount > 0 then BLOCK_COUNT_ENABLE + MULTI_BLOCK_MODE + AUTO_CMD12_ENABLE else 0) +
    (if useDma then DMA_ENABLE else 0)
  }

  /**
   * READ is set exactly for reads; BLOCK_COUNT, MULTI_BLOCK and AUTO_CMD12
   * exactly when there are blocks; DMA exactly when the host uses DMA; no
   * other bit.
   */
  lemma ModeWordFields(read: bool, blkcount: nat, useDma: bool)
    ensures BitSet(ModeWord(read, blkcount, useDma), 4) <==> read
    ensures BitSet(ModeWord(read, blkcount, useDma), 1) <==> blkcount > 0
    ensures BitSet(ModeWord(read, blkcount, useDma), 2) <==> blkcount > 0
    ensures BitSet(ModeWord(read, blkcount, useDma), 5) <==> blkcount > 0
    ensures BitSet(ModeWord(read, blkcount, useDma), 0) <==> useDma
    ensures !BitSet(ModeWord(read, blkcount, useDma), 3) && ModeWord(read, blkcount, useDma) < 64
  {
    var m := ModeWord(read, blkcount, useDma);
    var c, r, d := if blkcount > 0 then 1 else 0, if read then 1 else 0, if useDma then 1 else 0;
    assert m == 32 * c + 16 * r + 4 * c + 2 * c + d;
    DivModUnique(m, 2, 16 * c + 8 * r + 2 * c + c, d);
    DivModUnique(m, 4, 8 * c + 4 * r + c, 2 * c + d);
    DivModUnique(m, 8, 4 * c + 2 * r, 4 * c + 2 * c + d);
    DivModUnique(m, 16, 2 * c + r, 4 * c + 2 * c + d);
    DivModUnique(m, 32, c, 16 * r + 4 * c + 2 * c + d);
    assert Pow2(0) == 1;
    assert Pow2(1) == 2 && Pow2(2) == 4 && Pow2(3) == 8 && Pow2(4) == 16 && Pow2(5) == 32 by { Pow2Values(); }
  }

  /** `(opcode & SDHC_COMMAND_INDEX_MASK)`: the 6-bit command index. */
  function CommandIndex(opcode: u16): (r: nat)
    ensures r == opcode % 64
  {
    AndLowMask(opcode, 6);
    assert Pow2(6) == 64;
    And32(opcode, COMMAND_INDEX_MASK)
  }

  /** The response type field, decided in the order none, 136 bits, 48 bits with busy, 48 bits. */
  function ResponseType(f: Flags): nat
  {
    if !f.rspPresent then NO_RESPONSE
    else if f.rsp136 then RESP_LEN_136
    else if f.rspBusy then RESP_LEN_48_CHK_BUSY
    else RESP_LEN_48
  }

  /** The low byte of the command word: check flags, data present and response type. */
  function CommandLow(f: Flags, hasData: bool): nat
  {
    (if f.rspCrc then CRC_CHECK_ENABLE else 0) +
    (if f.rspIdx then INDEX_CHECK_ENABLE else 0) +
    (if hasData then DATA_PRESENT_SELECT else 0) +
    ResponseType(f)
  }

  /** The command word of section 2.2.6, as the sum of its disjoint fields. */
  function CommandWord(opcode: u16, f: Flags, hasData: bool): u16
  {
    CommandIndex(opcode) * 0x100 + CommandLow(f, hasData)
  }

  /** The fields of the low byte, bit by bit. */
  lemma CommandLowFields(f: Flags, hasData: bool)
    ensures CommandLow(f, hasData) < 0x40
    ensures (CommandLow(f, hasData) / 8) % 2 == 1 <==> f.rspCrc
    ensures (CommandLow(f, hasData) / 16) % 2 == 1 <==> f.rspIdx
    ensures (CommandLow(f, hasData) / 32) % 2 == 1 <==> hasData
    ensures (CommandLow(f, hasData) / 4) % 2 == 0
    ensures CommandLow(f, hasData) % 4 == ResponseType(f)
  {
    var t := ResponseType(f);
    var c, x, d := if f.rspCrc then 1 else 0, if f.rspIdx then 1 else 0, if hasData then 1 else 0;
    var low := CommandLow(f, hasData);
    assert low == 32 * d + 16 * x + 8 * c + t;
    DivModUnique(low, 4, 8 * d + 4 * x + 2 * c, t);
    DivModUnique(low, 8, 4 * d + 2 * x + c, t);
    DivModUnique(low, 16, 2 * d + x, 8 * c + t);
    DivModUnique(low, 32, d, 16 * x + 8 * c + t);
  }

  /** Below bit 8 the bits of `hi·256 + low` are those of `low`. */
  lemma UpperByteInvisible(hi: nat, low: nat, k: nat, q: nat, m: nat)
    requires low < 0x100 && q == Pow2(k) && q * m == 0x100 && m % 2 == 0
    ensures BitSet(hi * 0x100 + low, k) <==> (low / q) % 2 == 1
  {
    var e := hi * m;
    assert hi * 0x100 == q * e by { MulAssoc(hi, m, q); }
    assert 0 <= low % q < q && low == q * (low / q) + low % q;
    DivModUnique(hi * 0x100 + low, q, e + low / q, low % q);
    assert e % 2 == 0 by { MulEven(hi, m); }
    ParityShift(e, low / q);
  }

  lemma MulAssoc(a: int, b: int, c: int)
    ensures a * (b * c) == c * (a * b) && (a * b) * c == a * (b * c)
  {
  }

  lemma MulEven(a: nat, m: nat)
    requires m % 2 == 0
    ensures (a * m) % 2 == 0
  {
    assert a * m == 2 * (a * (m / 2));
  }

  /** The command word split into its upper byte and its low six bits. */
  lemma WordOfIndexAndLow(w: nat, hi: nat, low: nat)
    requires w == hi * 0x100 + low && low < 0x40
    ensures w / 0x100 == hi && w % 0x100 == low && w % 4 == low % 4
    ensures BitSet(w, 2) <==> (low / 4) % 2 == 1
    ensures BitSet(w, 3) <==> (low / 8) % 2 == 1
    ensures BitSet(w, 4) <==> (low / 16) % 2 == 1
    ensures BitSet(w, 5) <==> (low / 32) % 2 == 1
  {
    DivModUnique(w, 0x100, hi, low);
    DivModUnique(w, 4, hi * 0x40 + low / 4, low % 4);
    assert Pow2(2) == 4 && Pow2(3) == 8 && Pow2(4) == 16 && Pow2(5) == 32 by { Pow2Values(); }
    UpperByteInvisible(hi, low, 2, 4, 0x40);
    UpperByteInvisible(hi, low, 3, 8, 0x20);
    UpperByteInvisible(hi, low, 4, 16, 0x10);
    UpperByteInvisible(hi, low, 5, 32, 8);
  }

  /**
   * The command index sits in the upper byte; CRC check, index check and data
   * present are set exactly as asked; the response type takes the first of
   * none, 136, 48 with busy, 48 that applies; the command type is normal.
   */
  lemma CommandWordFields(opcode: u16, f: Flags, hasData: bool)
    ensures CommandWord(opcode, f, hasData) / 0x100 == opcode % 64
    ensures BitSet(CommandWord(opcode, f, hasData), 3) <==> f.rspCrc
    ensures BitSet(CommandWord(opcode, f, hasData), 4) <==> f.rspIdx
    ensures BitSet(CommandWord(opcode, f, hasData), 5) <==> hasData
    ensures !BitSet(CommandWord(opcode, f, hasData), 2)
    ensures CommandWord(opcode, f, hasData) % 0x100 < 0x40
    ensures CommandWord(opcode, f, hasData) % 4 == 0 <==> !f.rspPresent
    ensures CommandWord(opcode, f, hasData) % 4 == 1 <==> f.rspPresent && f.rsp136
    ensures CommandWord(opcode, f, hasData) % 4 == 3 <==> f.rspPresent && !f.rsp136 && f.rspBusy
    ensures CommandWord(opcode, f, hasData) % 4 == 2 <==> f.rspPresent && !f.rsp136 && !f.rspBusy
  {
    CommandLowFields(f, hasData);
    WordOfIndexAndLow(CommandWord(opcode, f, hasData), CommandIndex(opcode), CommandLow(f, hasData));
  }

  /** Adding an even number keeps the parity. */
  lemma ParityShift(e: nat, x: nat)
    requires e % 2 == 0
    ensures (e + x) % 2 == x % 2
  {
  }

  /** `((u32)command << 16) | mode`, written as a sum. */
  function TransferWord(command: u16, mode: u16): u32
  {
    command * 0x1_0000 + mode
  }

  /** The OR of the shifted command with the mode is the sum, and the halves give both back. */
  lemma TransferWordPacked(command: u16, mode: u16)
    ensures Or32(Shl32(command, 16), mode) == TransferWord(command, mode)
    ensures TransferWord(command, mode) / 0x1_0000 == command && TransferWord(command, mode) % 0x1_0000 == mode
  {
    Pow2Values();
    ShlOr(mode, command, 16);
    DivModUnique(TransferWord(command, mode), 0x1_0000, command, mode);
  }

  /** `blksize | 7 << 12`: the block size with the 512 KiB DMA buffer boundary. */
  function BlockSizeField(blksize: u16): (r: u16)
    ensures blksize < 0x1000 ==> r == blksize + 0x7000
  {
    Pow2Values();
    assert Pow2(12) == 0x1000 && Pow2(16) == 0x1_0000;
    OrBound(blksize, 0x7000, 16);
    BoundaryOr(blksize);
    Or32(blksize, 0x7000)
  }

  lemma BoundaryOr(blksize: u16)
    ensures blksize < 0x1000 ==> BitOr(blksize, 0x7000) == blksize + 0x7000
  {
    if blksize < 0x1000 {
      Pow2Values();
      assert Pow2(12) == 0x1000;
      OrDisjoint(blksize, 7, 12);
    }
  }

  datatype Plan = Plan(geometry: Geometry, mode: u16, command: u16)

  /** Everything `sdhc_start_command` decides before it touches the controller. */
  function Prepare(opcode: u16, f: Flags, hasData: bool, datalen: int, blklen: int, useDma: bool): Outcome<Plan>
    requires Fragmentable(datalen, blklen)
  {
    match Fragment(datalen, blklen)
    case Fail(e) => Fail(e)
    case Ok(g) => Ok(Plan(g, ModeWord(f.read, g.blkcount, useDma), CommandWord(opcode, f, hasData)))
  }

  // ------------------------------------------------------------ waiting

  /** The present state `state` shows `value` under `mask`. */
  predicate Settled(state: u32, mask: u32, value: u32)
  {
    And32(state, mask) == value
  }

  /**
   * `sdhc_wait_state`. `present(i)` is the i-th reading of the present state
   * register; each unsuccessful poll is followed by a 10 ms delay.
   */
  method WaitState(present: nat -> u32, mask: u32, value: u32) returns (err: Error)
    ensures err == NoError <==> exists i :: 0 <= i < WAIT_STATE_POLLS && Settled(present(i), mask, value)
    ensures err == NoError || err == Etimedout
  {
    var timeout := WAIT_STATE_POLLS;
    while timeout > 0
      invariant 0 <= timeout <= WAIT_STATE_POLLS
      invariant forall i :: 0 <= i < WAIT_STATE_POLLS - timeout ==> !Settled(present(i), mask, value)
    {
      if And32(present(WAIT_STATE_POLLS - timeout), mask) == value {
        return NoError;
      }
      timeout := timeout - 1;
    }
    return Etimedout;
  }

  // ------------------------------------------------------------ commands

  /** `struct sdmmc_command`, as far as the controller driver uses it. */
  class Command {
    var opcode: u16
    var arg: u32
    /** `c_data` as an address; 0 is NULL. */
    var data: u32
    var datalen: int
    var blklen: int
    var timeout: nat
    var flags: Flags
    /** `SCF_ITSDONE`. */
    var done: bool
    var error: Error
    /** `c_resp` as the 16 bytes it occupies in memory. */
    var resp: seq<u8>

    ghost predicate Valid()
      reads this`resp
    {
      |resp| == 16
    }

    /** A command cleared with `memset` and given its opcode, argument and flags. */
    constructor (opcode: u16, arg: u32, flags: Flags)
      ensures Valid() && resp == seq(16, _ => 0)
      ensures this.opcode == opcode && this.arg == arg && this.flags == flags
      ensures data == 0 && datalen == 0 && blklen == 0 && timeout == 0 && !done && error == NoError
    {
      this.opcode, this.arg, this.flags := opcode, arg, flags;
      data, datalen, blklen, timeout := 0, 0, 0, 0;
      done, error := false, NoError;
      resp := seq(16, _ => 0);
    }

    /** `MMC_R1(c_resp)`: the first response word as the big-endian CPU reads it. */
    function R1(): u32
      reads this`resp
      requires Valid()
    {
      Le32(resp[3], resp[2], resp[1], resp[0])
    }
  }

  /** The four bytes a big-endian store of `w` leaves in memory. */
  function BigEndianBytes(w: u32): seq<u8>
  {
    [LaneByte(w, 3), LaneByte(w, 2), LaneByte(w, 1), LaneByte(w, 0)]
  }

  /** `sc_host` and the controller registers behind it. */
  class Host {
    /** `SHF_USE_DMA`. */
    var useDma: bool
    /** The base clock in kHz. */
    var clkbase: nat
    var ocr: u32
    var dataCommand: bool
    const regs: array<u8>

    ghost predicate Valid()
    {
      regs.Length == REG_SPACE
    }

    constructor ()
      ensures Valid() && fresh(regs) && forall i :: 0 <= i < REG_SPACE ==> regs[i] == 0
      ensures !useDma && clkbase == 0 && ocr == 0 && !dataCommand
    {
      regs := new u8[REG_SPACE](_ => 0);
      useDma, clkbase, ocr, dataCommand := false, 0, 0, false;
    }

    /** `bus_space_read_4` of an aligned register. */
    function Read4(reg: nat): u32
      reads regs
      requires Valid() && reg % 4 == 0 && reg < REG_SPACE
    {
      Le32(regs[reg], regs[reg + 1], regs[reg + 2], regs[reg + 3])
    }

    /** `bus_space_read_2`: a 16-bit register, taken from its aligned word. */
    function Read2(reg: nat): (r: u16)
      reads regs
      requires Valid() && reg < REG_SPACE
      ensures reg % 4 != 0 ==> r as int == regs[WordBase(reg) + 2] as int + 0x100 * regs[WordBase(reg) + 3] as int
      ensures reg % 4 == 0 ==> r as int == regs[reg] as int + 0x100 * regs[reg + 1] as int
    {
      var a := WordBase(reg);
      var w := Read4(a);
      Le32Lanes(regs[a], regs[a + 1], regs[a + 2], regs[a + 3]);
      WordOfLanes(w);
      ReadHalfLane(w, reg)
    }

    /** `bus_space_read_1`: an 8-bit register, taken from its aligned word. */
    function Read1(reg: nat): (r: u8)
      reads regs
      requires Valid() && reg < REG_SPACE
      ensures r == regs[reg]
    {
      var a := WordBase(reg);
      LaneOfBytes(regs[a], regs[a + 1], regs[a + 2], regs[a + 3], reg % 4);
      ReadByteLane(Read4(a), reg)
    }

    /** `bus_space_write_4` of an aligned register. */
    method Write4(reg: nat, v: u32)
      requires Valid() && reg % 4 == 0 && reg < REG_SPACE
      modifies regs
      ensures Read4(reg) == v && regs[..] == Put4(old(regs[..]), reg, v)
      ensures forall j :: 0 <= j < 4 ==> regs[reg + j] == LaneByte(v, j)
      ensures forall i :: 0 <= i < REG_SPACE && !(reg <= i < reg + 4) ==> regs[i] == old(regs[i])
    {
      regs[reg] := LaneByte(v, 0);
      regs[reg + 1] := LaneByte(v, 1);
      regs[reg + 2] := LaneByte(v, 2);
      regs[reg + 3] := LaneByte(v, 3);
      WordOfLanes(v);
    }

    /**
     * `bus_space_write_2` as written: `mask32` reads the word and computes a
     * merged value, which is never stored.
     */
    method Write2AsWritten(reg: nat, v: u16)
      requires Valid() && reg < REG_SPACE
      ensures Read2(reg) == old(Read2(reg))
    {
      var a := WordBase(reg);
      var _ := if reg % 4 != 0 then Mask32AsWritten(Read4(a), 0xffff_0000, Shl32(v, 16))
               else Mask32AsWritten(Read4(a), 0xffff, v);
    }

    /**
     * `bus_space_write_2` as intended: the 16-bit register is replaced through
     * a read-modify-write of its aligned word, and nothing else changes.
     */
    method Write2(reg: nat, v: u16)
      requires Valid() && reg < REG_SPACE
      modifies regs
      ensures Read2(reg) == v && regs[..] == Put2(old(regs[..]), reg, v)
      ensures reg % 4 != 0 ==> Read4(WordBase(reg)) == Mask32(old(Read4(WordBase(reg))), 0xffff_0000, Shl32(v, 16))
      ensures reg % 4 == 0 ==> Read4(reg) == Mask32(old(Read4(reg)), 0xffff, v)
      ensures forall i :: 0 <= i < REG_SPACE && !(HalfBase(reg) <= i < HalfBase(reg) + 2) ==> regs[i] == old(regs[i])
    {
      var a := WordBase(reg);
      ghost var w := Read4(a);
      Le32Lanes(regs[a], regs[a + 1], regs[a + 2], regs[a + 3]);
      WordOfLanes(w);
      MergeHalves(w, v);
      var b := HalfBase(reg);
      regs[b] := v % 0x100;
      regs[b + 1] := v / 0x100;
    }

    /**
     * `bus_space_write_1` as intended: the 8-bit register is replaced through
     * a read-modify-write of its aligned word, and nothing else changes.
     */
    method Write1(reg: nat, v: u8)
      requires Valid() && reg < REG_SPACE
      modifies regs
      ensures Read1(reg) == v
      ensures Read4(WordBase(reg)) ==
        Mask32(old(Read4(WordBase(reg))), Shl32(0xff, 8 * (reg % 4)), Shl32(v, 8 * (reg % 4)))
      ensures forall i :: 0 <= i < REG_SPACE && i != reg ==> regs[i] == old(regs[i])
    {
      var a, l := WordBase(reg), reg % 4;
      ghost var w := Read4(a);
      ghost var b0, b1, b2, b3 := regs[a], regs[a + 1], regs[a + 2], regs[a + 3];
      MergeByte(w, v, l);
      ReplaceLane(b0, b1, b2, b3, l, v);
      regs[reg] := v;
      assert regs[a] == (if l == 0 then v else b0) && regs[a + 1] == (if l == 1 then v else b1);
      assert regs[a + 2] == (if l == 2 then v else b2) && regs[a + 3] == (if l == 3 then v else b3);
    }

    /**
     * The host part of `sdhc_host_found`: DMA when asked for and supported,
     * the base clock from the capabilities, and failure (1) when that clock
     * is unknown or outside 10-63 MHz. On success the 3.2-3.4 V windows are
     * added to the OCR.
     */
    method Found(caps: u32, wantDma: bool) returns (error: int)
      requires Valid()
      modifies this
      ensures useDma == (wantDma && DmaSupported(caps))
      ensures clkbase == BaseClockKHz(caps) && !dataCommand
      ensures error == 0 <==> 10000 <= clkbase <= 63000
      ensures error != 0 ==> error == 1 && ocr == 0
      ensures error == 0 ==> ocr == OCR_3_2V_3_4V
    {
      useDma, clkbase, ocr, dataCommand := false, 0, 0, false;
      if wantDma && DmaSupported(caps) {
        useDma := true;
      }
      if BaseClockKHz(caps) != 0 {
        clkbase := BaseClockKHz(caps);
      }
      if clkbase == 0 {
        return 1;
      } else if clkbase < 10000 || clkbase > 63000 {
        return 1;
      }
      ocr := OCR_3_2V_3_4V;
      return 0;
    }

    /** The plan `sdhc_start_command` makes for `cmd`. */
    ghost function PlanOf(cmd: Command): Outcome<Plan>
      reads this`useDma, cmd`opcode, cmd`flags, cmd`data, cmd`datalen, cmd`blklen
      requires Fragmentable(cmd.datalen, cmd.blklen)
    {
      Prepare(cmd.opcode, cmd.flags, cmd.data != 0, cmd.datalen, cmd.blklen, useDma)
    }

    /** The physical address written to the DMA register, when DMA is used for this command. */
    function DmaTarget(cmd: Command): Option<u32>
      reads this`useDma, cmd`data, cmd`datalen
    {
      if useDma && cmd.datalen > 0 then Some(Utils.VirtToPhys(cmd.data)) else None
    }

    /** How `sdhc_start_command` ends: its plan's error, a busy controller, or success. */
    ghost function StartError(cmd: Command, present: nat -> u32): Error
      reads this`useDma, cmd`opcode, cmd`flags, cmd`data, cmd`datalen, cmd`blklen
      requires Fragmentable(cmd.datalen, cmd.blklen)
    {
      if PlanOf(cmd).Fail? then PlanOf(cmd).err
      else if exists i :: 0 <= i < WAIT_STATE_POLLS && Settled(present(i), CMD_INHIBIT_MASK, 0) then NoError
      else Etimedout
    }

    /**
     * `sdhc_start_command`. `present(i)` is the i-th reading of the present
     * state register while waiting for the inhibit bits to clear.
     */
    method StartCommand(cmd: Command, present: nat -> u32) returns (err: Error)
      requires Valid() && Fragmentable(cmd.datalen, cmd.blklen)
      modifies regs
      ensures err == StartError(cmd, present)
      ensures err != NoError ==> regs[..] == old(regs[..])
      ensures err == NoError ==> PlanOf(cmd).Ok? && Issued(PlanOf(cmd).value, cmd.arg, DmaTarget(cmd), old(regs[..]), regs[..])
    {
      var plan := Prepare(cmd.opcode, cmd.flags, cmd.data != 0, cmd.datalen, cmd.blklen, useDma);
      if plan.Fail? {
        return plan.err;
      }
      err := WaitState(present, CMD_INHIBIT_MASK, 0);
      if err != NoError {
        return;
      }
      Issue(plan.value, cmd.arg, DmaTarget(cmd));
      IssuedImageMeaning(plan.value, cmd.arg, DmaTarget(cmd), old(regs[..]));
    }

    /** The register writes of `sdhc_start_command` once the controller is free. */
    method Issue(p: Plan, arg: u32, dma: Option<u32>)
      requires Valid()
      modifies regs
      ensures regs[..] == IssuedImage(p, arg, dma, old(regs[..]))
    {
      if dma.Some? {
        Write4(DMA_ADDR, dma.value);
      }
      Write2(BLOCK_SIZE, BlockSizeField(p.geometry.blksize));
      if p.geometry.blkcount > 0 {
        Write2(BLOCK_COUNT, p.geometry.blkcount);
      }
      Write4(ARGUMENT, arg);
      Write4(TRANSFER_MODE, Or32(Shl32(p.command, 16), p.mode));
    }

    /**
     * `sdhc_exec_command`. `present` are the present state readings while the
     * command waits to start; `completed` says whether the wait for the
     * command-complete interrupt saw it; `dmaTimedOut` says whether a DMA
     * transfer timed out.
     */
    method ExecCommand(cmd: Command, present: nat -> u32, completed: bool, dmaTimedOut: bool)
      requires Valid() && cmd.Valid() && Fragmentable(cmd.datalen, cmd.blklen)
      modifies this`dataCommand, regs, cmd
      ensures Valid() && cmd.Valid() && Fragmentable(cmd.datalen, cmd.blklen)
      ensures cmd.opcode == old(cmd.opcode) && cmd.arg == old(cmd.arg) && cmd.data == old(cmd.data)
      ensures cmd.datalen == old(cmd.datalen) && cmd.blklen == old(cmd.blklen) && cmd.flags == old(cmd.flags)
      ensures useDma == old(useDma) && clkbase == old(clkbase) && ocr == old(ocr)
      ensures cmd.timeout ==
        if old(cmd.timeout) != 0 then old(cmd.timeout)
        else if cmd.datalen > 0 then TRANSFER_TIMEOUT else COMMAND_TIMEOUT
      ensures cmd.done && !dataCommand
      // The command could not be started.
      ensures StartError(cmd, present) != NoError ==>
        cmd.error == StartError(cmd, present) && cmd.resp == old(cmd.resp) && regs[..] == old(regs[..])
      ensures StartError(cmd, present) == NoError ==>
        PlanOf(cmd).Ok? && Issued(PlanOf(cmd).value, cmd.arg, DmaTarget(cmd), old(regs[..]), regs[..])
      // It was started but never completed.
      ensures StartError(cmd, present) == NoError && !completed ==>
        cmd.error == Etimedout && cmd.resp == old(cmd.resp)
      // It completed: the response is copied and a DMA transfer may time out.
      ensures StartError(cmd, present) == NoError && completed ==>
        cmd.error == (if old(cmd.error) != NoError then old(cmd.error)
                      else if cmd.datalen > 0 && useDma && dmaTimedOut then Etimedout
                      else NoError)
      ensures StartError(cmd, present) == NoError && completed && old(cmd.error) == NoError && cmd.flags.rspPresent ==>
        if cmd.flags.rsp136 then cmd.resp == regs[RESPONSE..RESPONSE + 15] + [old(cmd.resp[15])]
        else cmd.R1() == Read4(RESPONSE) && cmd.resp[4..] == old(cmd.resp[4..])
      ensures StartError(cmd, present) == NoError && completed && !(old(cmd.error) == NoError && cmd.flags.rspPresent) ==>
        cmd.resp == old(cmd.resp)
    {
      if cmd.datalen > 0 {
        dataCommand := true;
      }
      if cmd.timeout == 0 {
        cmd.timeout := if cmd.datalen > 0 then TRANSFER_TIMEOUT else COMMAND_TIMEOUT;
      }
      var err := StartCommand(cmd, present);
      ghost var started := regs[..];
      ghost var plan, dma := PlanOf(cmd), DmaTarget(cmd);
      assert cmd.resp == old(cmd.resp) && cmd.error == old(cmd.error);
      Finish(cmd, err, completed, dmaTimedOut);
      dataCommand := false;
      assert regs[..] == started;
      assert StartError(cmd, present) == err && PlanOf(cmd) == plan && DmaTarget(cmd) == dma;
    }

    /**
     * The end of `sdhc_exec_command` once `sdhc_start_command` returned `err`:
     * the error is recorded, the response copied when the command completed
     * without error and has one, and the command marked done.
     */
    method Finish(cmd: Command, err: Error, completed: bool, dmaTimedOut: bool)
      requires Valid() && cmd.Valid()
      modifies cmd`error, cmd`done, cmd`resp
      ensures cmd.Valid() && cmd.done
      ensures err != NoError ==> cmd.error == err && cmd.resp == old(cmd.resp)
      ensures err == NoError && !completed ==> cmd.error == Etimedout && cmd.resp == old(cmd.resp)
      ensures err == NoError && completed ==>
        cmd.error == (if old(cmd.error) != NoError then old(cmd.error)
                      else if cmd.datalen > 0 && useDma && dmaTimedOut then Etimedout
                      else NoError)
      ensures err == NoError && completed && old(cmd.error) == NoError && cmd.flags.rspPresent ==>
        if cmd.flags.rsp136 then cmd.resp == regs[RESPONSE..RESPONSE + 15] + [old(cmd.resp[15])]
        else cmd.R1() == Read4(RESPONSE) && cmd.resp[4..] == old(cmd.resp[4..])
      ensures err == NoError && completed && !(old(cmd.error) == NoError && cmd.flags.rspPresent) ==>
        cmd.resp == old(cmd.resp)
    {
      if err != NoError {
        cmd.error := err;
      } else if !completed {
        cmd.error := Etimedout;
      } else {
        if cmd.error == NoError && cmd.flags.rspPresent {
          if cmd.flags.rsp136 {
            ReadLongResponse(cmd);
          } else {
            var w := Read4(RESPONSE);
            cmd.resp := BigEndianBytes(w) + cmd.resp[4..];
            WordOfLanes(w);
          }
        }
        if cmd.error == NoError && cmd.datalen > 0 && useDma && dmaTimedOut {
          cmd.error := Etimedout;
        }
      }
      cmd.done := true;
    }

    /** The loop of `sdhc_exec_command` that copies a 136-bit response byte by byte. */
    method ReadLongResponse(cmd: Command)
      requires Valid() && cmd.Valid()
      modifies cmd`resp
      ensures cmd.resp == regs[RESPONSE..RESPONSE + 15] + [old(cmd.resp[15])]
    {
      var r := cmd.resp;
      var i := 0;
      while i < 15
        invariant 0 <= i <= 15 && |r| == 16
        invariant forall j :: 0 <= j < i ==> r[j] == regs[RESPONSE + j]
        invariant forall j :: i <= j < 16 ==> r[j] == old(cmd.resp[j])
      {
        r := r[i := Read1(RESPONSE + i)];
        i := i + 1;
      }
      cmd.resp := r;
    }
  }

  /** The 32-bit register at the aligned offset `reg` of a register file image. */
  function WordAt(s: seq<u8>, reg: nat): u32
    requires |s| == REG_SPACE && reg % 4 == 0 && reg < REG_SPACE
  {
    Le32(s[reg], s[reg + 1], s[reg + 2], s[reg + 3])
  }

  /** The 16-bit register at the even offset `reg` of a register file image. */
  function HalfAt(s: seq<u8>, reg: nat): nat
    requires |s| == REG_SPACE && reg % 2 == 0 && reg < REG_SPACE
  {
    s[reg] as int + 0x100 * s[reg + 1] as int
  }

  /** A register file image with the 32-bit register at `reg` replaced by `v`, little-endian. */
  function Put4(s: seq<u8>, reg: nat, v: u32): (r: seq<u8>)
    requires |s| == REG_SPACE && reg % 4 == 0 && reg < REG_SPACE
    ensures |r| == REG_SPACE && WordAt(r, reg) == v
    ensures forall i :: 0 <= i < REG_SPACE && !(reg <= i < reg + 4) ==> r[i] == s[i]
  {
    WordOfLanes(v);
    s[reg := LaneByte(v, 0)][reg + 1 := LaneByte(v, 1)][reg + 2 := LaneByte(v, 2)][reg + 3 := LaneByte(v, 3)]
  }

  /** A register file image with the 16-bit register at `reg` replaced by `v`. */
  function Put2(s: seq<u8>, reg: nat, v: u16): (r: seq<u8>)
    requires |s| == REG_SPACE && reg < REG_SPACE
    ensures |r| == REG_SPACE && HalfAt(r, HalfBase(reg)) == v
    ensures forall i :: 0 <= i < REG_SPACE && !(HalfBase(reg) <= i < HalfBase(reg) + 2) ==> r[i] == s[i]
  {
    s[HalfBase(reg) := v % 0x100][HalfBase(reg) + 1 := v / 0x100]
  }

  /** The register file after the writes of `sdhc_start_command`, in their order. */
  function IssuedImage(p: Plan, arg: u32, dma: Option<u32>, before: seq<u8>): (r: seq<u8>)
    requires |before| == REG_SPACE
    ensures |r| == REG_SPACE
  {
    var s1 := if dma.Some? then Put4(before, DMA_ADDR, dma.value) else before;
    var s2 := Put2(s1, BLOCK_SIZE, BlockSizeField(p.geometry.blksize));
    var s3 := if p.geometry.blkcount > 0 then Put2(s2, BLOCK_COUNT, p.geometry.blkcount) else s2;
    var s4 := Put4(s3, ARGUMENT, arg);
    Put4(s4, TRANSFER_MODE, Or32(Shl32(p.command, 16), p.mode))
  }

  /** Every register `sdhc_start_command` writes ends up holding its field, and nothing else is touched. */
  lemma IssuedImageMeaning(p: Plan, arg: u32, dma: Option<u32>, before: seq<u8>)
    requires |before| == REG_SPACE
    ensures Issued(p, arg, dma, before, IssuedImage(p, arg, dma, before))
  {
    var s1 := if dma.Some? then Put4(before, DMA_ADDR, dma.value) else before;
    var s2 := Put2(s1, BLOCK_SIZE, BlockSizeField(p.geometry.blksize));
    var s3 := if p.geometry.blkcount > 0 then Put2(s2, BLOCK_COUNT, p.geometry.blkcount) else s2;
    var t := Or32(Shl32(p.command, 16), p.mode);
    var r := Put4(Put4(s3, ARGUMENT, arg), TRANSFER_MODE, t);
    assert r == IssuedImage(p, arg, dma, before);
    TransferWordPacked(p.command, p.mode);
    WordOfLanes(TransferWord(p.command, p.mode));
    assert HalfAt(r, TRANSFER_MODE) == p.mode && HalfAt(r, COMMAND) == p.command;
    IssuedBack(s3, arg, t);
    IssuedFront(p, dma, before, s1, s2, s3);
    IssuedFromParts(p, arg, dma, before, s3, r);
  }

  /** The facts of `IssuedFront` and `IssuedBack` together make up `Issued`. */
  lemma IssuedFromParts(p: Plan, arg: u32, dma: Option<u32>, before: seq<u8>, s3: seq<u8>, r: seq<u8>)
    requires |before| == REG_SPACE && |s3| == REG_SPACE && |r| == REG_SPACE
    requires forall i :: 0 <= i < ARGUMENT ==> r[i] == s3[i]
    requires forall i :: RESPONSE <= i < REG_SPACE ==> r[i] == s3[i]
    requires WordAt(r, ARGUMENT) == arg
    requires HalfAt(r, TRANSFER_MODE) == p.mode && HalfAt(r, COMMAND) == p.command
    requires dma.Some? ==> WordAt(s3, DMA_ADDR) == dma.value
    requires dma.None? ==> s3[DMA_ADDR..DMA_ADDR + 4] == before[DMA_ADDR..DMA_ADDR + 4]
    requires HalfAt(s3, BLOCK_SIZE) == BlockSizeField(p.geometry.blksize)
    requires p.geometry.blkcount > 0 ==> HalfAt(s3, BLOCK_COUNT) == p.geometry.blkcount
    requires p.geometry.blkcount == 0 ==> s3[BLOCK_COUNT..BLOCK_COUNT + 2] == before[BLOCK_COUNT..BLOCK_COUNT + 2]
    requires forall i :: ARGUMENT <= i < REG_SPACE ==> s3[i] == before[i]
    ensures Issued(p, arg, dma, before, r)
  {
    assert r[..ARGUMENT] == s3[..ARGUMENT];
    assert r[RESPONSE..] == s3[RESPONSE..] == before[RESPONSE..];
  }

  /** The last two writes set the argument and the transfer mode and command words and keep the rest. */
  lemma IssuedBack(s3: seq<u8>, arg: u32, t: u32)
    requires |s3| == REG_SPACE
    ensures forall i :: 0 <= i < ARGUMENT ==> Put4(Put4(s3, ARGUMENT, arg), TRANSFER_MODE, t)[i] == s3[i]
    ensures forall i :: RESPONSE <= i < REG_SPACE ==> Put4(Put4(s3, ARGUMENT, arg), TRANSFER_MODE, t)[i] == s3[i]
    ensures WordAt(Put4(Put4(s3, ARGUMENT, arg), TRANSFER_MODE, t), ARGUMENT) == arg
    ensures WordAt(Put4(Put4(s3, ARGUMENT, arg), TRANSFER_MODE, t), TRANSFER_MODE) == t
  {
  }

  /** The first writes set the DMA address, block size and block count and keep the rest. */
  lemma IssuedFront(p: Plan, dma: Option<u32>, before: seq<u8>, s1: seq<u8>, s2: seq<u8>, s3: seq<u8>)
    requires |before| == REG_SPACE
    requires s1 == if dma.Some? then Put4(before, DMA_ADDR, dma.value) else before
    requires s2 == Put2(s1, BLOCK_SIZE, BlockSizeField(p.geometry.blksize))
    requires s3 == if p.geometry.blkcount > 0 then Put2(s2, BLOCK_COUNT, p.geometry.blkcount) else s2
    ensures dma.Some? ==> WordAt(s3, DMA_ADDR) == dma.value
    ensures dma.None? ==> s3[DMA_ADDR..DMA_ADDR + 4] == before[DMA_ADDR..DMA_ADDR + 4]
    ensures HalfAt(s3, BLOCK_SIZE) == BlockSizeField(p.geometry.blksize)
    ensures p.geometry.blkcount > 0 ==> HalfAt(s3, BLOCK_COUNT) == p.geometry.blkcount
    ensures p.geometry.blkcount == 0 ==> s3[BLOCK_COUNT..BLOCK_COUNT + 2] == before[BLOCK_COUNT..BLOCK_COUNT + 2]
    ensures forall i :: ARGUMENT <= i < REG_SPACE ==> s3[i] == before[i]
  {
    assert HalfBase(BLOCK_SIZE) == BLOCK_SIZE && HalfBase(BLOCK_COUNT) == BLOCK_COUNT;
  }

  /**
   * The register file `after` a command was issued with plan `p` from
   * `before`: the DMA address (when DMA is used), block size, block count
   * (when there are blocks), argument, transfer mode and command are set;
   * the bytes of a register not written and everything from the response
   * registers on are as `before`.
   */
  ghost predicate Issued(p: Plan, arg: u32, dma: Option<u32>, before: seq<u8>, after: seq<u8>)
    requires |before| == REG_SPACE && |after| == REG_SPACE
  {
    (dma.Some? ==> WordAt(after, DMA_ADDR) == dma.value) &&
    (dma.None? ==> after[DMA_ADDR..DMA_ADDR + 4] == before[DMA_ADDR..DMA_ADDR + 4]) &&
    HalfAt(after, BLOCK_SIZE) == BlockSizeField(p.geometry.blksize) &&
    (p.geometry.blkcount > 0 ==> HalfAt(after, BLOCK_COUNT) == p.geometry.blkcount) &&
    (p.geometry.blkcount == 0 ==> after[BLOCK_COUNT..BLOCK_COUNT + 2] == before[BLOCK_COUNT..BLOCK_COUNT + 2]) &&
    WordAt(after, ARGUMENT) == arg &&
    HalfAt(after, TRANSFER_MODE) == p.mode && HalfAt(after, COMMAND) == p.command &&
    after[RESPONSE..] == before[RESPONSE..]
  }

  /** The aligned word that holds register `reg`. */
  function WordBase(reg: nat): (a: nat)
    ensures a % 4 == 0 && a <= reg < a + 4 && reg - a == reg % 4
  {
    4 * (reg / 4)
  }

  /** The halfword register at `reg` occupies these two bytes. */
  function HalfBase(reg: nat): nat
  {
    WordBase(reg) + (if reg % 4 != 0 then 2 else 0)
  }
}
