/**
 * The EXI bus driver (src/drivers/exi.c): clock-speed selection, chip-select
 * words, and the packing of immediate transfers into the DATA and CR
 * registers of a channel.
 */
module Exi {
  import opened Types
  import Drivers

  const EXI_CHANNELS: nat := 3

  const EXI_CSR_CLK_64MHZ: u32 := 0x60
  const EXI_CSR_CLK_32MHZ: u32 := 0x50
  const EXI_CSR_CLK_16MHZ: u32 := 0x40
  const EXI_CSR_CLK_8MHZ: u32 := 0x30
  const EXI_CSR_CLK_4MHZ: u32 := 0x20
  const EXI_CSR_CLK_2MHZ: u32 := 0x10
  const EXI_CSR_CLK_1MHZ: u32 := 0x00
  const EXI_CSR_CS_SHIFT: nat := 7

  const EXI_CR_TSTART: u32 := 1
  const EXI_CR_RW_RD: u32 := 0
  const EXI_CR_RW_WR: u32 := 4
  const EXI_CR_RW_RDWR: u32 := 8
  const EXI_CR_TLEN_SHIFT: nat := 4

  /** The transfer-direction bits callers pass as `mode`. */
  const EXI_MODE_READ: u32 := 1
  const EXI_MODE_WRITE: u32 := 2

  const EXI_REGS_GAMECUBE: u32 := 0xcc00_6800
  const EXI_REGS_HOLLYWOOD: u32 := 0xcd80_6800

  /** `exiCallback`, as a non-NULL entry of the callback table. */
  const EXI_CALLBACK: nat := 1

  // ------------------------------------------------------------- clock speed

  /** `exiSpeedFromMhz`: the CSR clock field for the fastest rate not above the request. */
  function SpeedFromMhz(mhz: u32): u32
  {
    if mhz > 32 then EXI_CSR_CLK_64MHZ
    else if mhz > 16 then EXI_CSR_CLK_32MHZ
    else if mhz > 8 then EXI_CSR_CLK_16MHZ
    else if mhz > 4 then EXI_CSR_CLK_8MHZ
    else if mhz > 2 then EXI_CSR_CLK_4MHZ
    else if mhz > 1 then EXI_CSR_CLK_2MHZ
    else EXI_CSR_CLK_1MHZ
  }

  /**
   * The speed is k<<4 with k in 0..6, and it reaches index k+1 exactly when
   * the request is above 2^k MHz.
   */
  lemma SpeedFromMhzMeaning(mhz: u32)
    ensures SpeedFromMhz(mhz) % 16 == 0 && SpeedFromMhz(mhz) / 16 <= 6
    ensures forall k :: 0 <= k < 6 ==> (SpeedFromMhz(mhz) > 16 * k <==> mhz > Pow2(k))
  {
    Pow2Values();
    forall k | 0 <= k < 6
      ensures SpeedFromMhz(mhz) > 16 * k <==> mhz > Pow2(k)
    {
      assert Pow2(0) == 1;
    }
  }

  lemma SpeedFromMhzMonotone(a: u32, b: u32)
    requires a <= b
    ensures SpeedFromMhz(a) <= SpeedFromMhz(b)
  {
  }

  /** `H_EXISelect`'s CSR word: the chip-select bit 7+cs and the clock field. */
  function SelectCsr(cs: nat, clkMhz: u32): u32
  {
    Or32(Shl32(1, EXI_CSR_CS_SHIFT + cs), SpeedFromMhz(clkMhz))
  }

  /** For a chip select that fits the word, the two fields do not overlap. */
  lemma SelectCsrFields(cs: nat, clkMhz: u32)
    requires EXI_CSR_CS_SHIFT + cs < 32
    ensures SelectCsr(cs, clkMhz) == Pow2(EXI_CSR_CS_SHIFT + cs) + SpeedFromMhz(clkMhz)
    ensures SelectCsr(cs, clkMhz) / 128 == Pow2(cs) && SelectCsr(cs, clkMhz) % 128 == SpeedFromMhz(clkMhz)
  {
    Pow2Values();
    var shift := EXI_CSR_CS_SHIFT + cs;
    Pow2Monotone(shift, 31);
    Pow2Split(7, cs);
    DivModUnique(Pow2(shift), TWO_32, 0, Pow2(shift));
    assert Shl32(1, shift) == Pow2(cs) * 128;
    var speed := SpeedFromMhz(clkMhz);
    assert speed < Pow2(7);
    OrDisjoint(speed, Pow2(cs), 7);
    OrCommutes(Pow2(cs) * 128, speed);
    DivModUnique(Pow2(cs) * 128 + speed, 128, Pow2(cs), speed);
  }

  lemma {:induction false} Pow2Split(a: nat, b: nat)
    ensures Pow2(a + b) == Pow2(b) * Pow2(a)
    decreases a
  {
    if a > 0 {
      Pow2Split(a - 1, b);
    }
  }

  // --------------------------------------------------------- data and control

  /** A transfer length `H_EXIXferImm` accepts. */
  predicate ValidLen(len: u32) { 1 <= len <= 4 }

  /** How many low bits of the caller's value a transfer of len bytes carries. */
  function LenBits(len: u32): nat
    requires ValidLen(len)
  {
    if len == 3 then 24 else 8 * len
  }

  /**
   * The outgoing DATA word: the value loaded from the caller's buffer at the
   * width of the transfer (`u8`, `u16`, or `u32` for 3 and 4), left-aligned.
   */
  function Pack(len: u32, x: u32): u32
    requires ValidLen(len)
  {
    if len == 1 then Shl32(x, 24)
    else if len == 2 then Shl32(x, 16)
    else if len == 3 then Shl32(And32(x, 0x00ff_ffff), 8)
    else x
  }

  /** The value a read stores back from the DATA word. */
  function Unpack(len: u32, data: u32): u32
    requires ValidLen(len)
  {
    if len == 1 then Shr(And32(data, 0xff00_0000), 24)
    else if len == 2 then Shr(And32(data, 0xffff_0000), 16)
    else if len == 3 then Shr(And32(data, 0xffff_ff00), 8)
    else data
  }

  /** Reading takes the top len bytes of the DATA word. */
  lemma UnpackMeaning(len: u32, data: u32)
    requires ValidLen(len)
    ensures Unpack(len, data) == data / Pow2(32 - 8 * len)
  {
    Pow2Values();
    if len < 4 {
      var k := 32 - 8 * len;
      AndHighMask(data, 32, k);
      assert Pow2(32) - Pow2(k) == (if len == 1 then 0xff00_0000 else if len == 2 then 0xffff_0000 else 0xffff_ff00);
      var lo := data % Pow2(k);
      DivModUnique(data - lo, Pow2(k), data / Pow2(k), 0);
    } else {
      assert Pow2(0) == 1;
    }
  }

  /**
   * The read side inverts the write side: a value of the transfer's width
   * comes back unchanged, and a 3-byte transfer returns the low 24 bits.
   */
  lemma UnpackPack(len: u32, x: u32)
    requires ValidLen(len) && (len <= 2 ==> x < Pow2(8 * len))
    ensures Unpack(len, Pack(len, x)) == x % Pow2(LenBits(len))
    ensures len != 3 ==> Unpack(len, Pack(len, x)) == x
  {
    Pow2Values();
    UnpackMeaning(len, Pack(len, x));
    var k := 32 - 8 * len;
    if len == 1 || len == 2 {
      DivModUnique(x * Pow2(k), TWO_32, 0, x * Pow2(k));
      DivModUnique(x * Pow2(k), Pow2(k), x, 0);
      DivModUnique(x, Pow2(LenBits(len)), 0, x);
    } else if len == 3 {
      AndLowMask(x, 24);
      var lo := x % Pow2(24);
      DivModUnique(lo * 256, TWO_32, 0, lo * 256);
      DivModUnique(lo * 256, 256, lo, 0);
    } else {
      DivModUnique(x, TWO_32, 0, x);
      assert Pow2(0) == 1;
    }
  }

  /** A transfer whose mode lacks the write bit sends zero. */
  function Outgoing(len: u32, mode: u32, x: u32): u32
    requires ValidLen(len)
  {
    if And32(mode, EXI_MODE_WRITE) != 0 then Pack(len, x) else 0
  }

  /** The read/write field for the three modes `H_EXIXferImm` accepts. */
  function RwField(mode: u32): Option<u32>
  {
    if mode == Or32(EXI_MODE_READ, EXI_MODE_WRITE) then Some(EXI_CR_RW_RDWR)
    else if mode == EXI_MODE_READ then Some(EXI_CR_RW_RD)
    else if mode == EXI_MODE_WRITE then Some(EXI_CR_RW_WR)
    else None
  }

  /** The CR word that starts a transfer: RW field, length-1 at bit 4, TSTART. */
  function ControlWord(len: u32, rw: u32): u32
    requires ValidLen(len)
  {
    Or32(Or32(rw, Shl32(len - 1, EXI_CR_TLEN_SHIFT)), EXI_CR_TSTART)
  }

  /**
   * The fields of the CR word sit side by side: TSTART in bit 0, the RW
   * code in bits 2-3 and len-1 in bits 4-5.
   */
  lemma ControlWordFields(len: u32, mode: u32)
    requires ValidLen(len) && RwField(mode).Some?
    ensures ControlWord(len, RwField(mode).value) == 16 * (len - 1) + RwField(mode).value + 1
    ensures mode == 3 ==> RwField(mode).value == EXI_CR_RW_RDWR
    ensures mode == EXI_MODE_READ ==> RwField(mode).value == EXI_CR_RW_RD
    ensures mode == EXI_MODE_WRITE ==> RwField(mode).value == EXI_CR_RW_WR
  {
    RwFieldModes(mode);
    var rw := RwField(mode).value;
    LengthBesideRw(rw, len - 1);
    StartBitBeside(rw / 4 + 4 * (len - 1));
  }

  /** The combined mode is 3, so the three accepted modes give 8, 0 and 4. */
  lemma RwFieldModes(mode: u32)
    requires RwField(mode).Some?
    ensures Or32(EXI_MODE_READ, EXI_MODE_WRITE) == 3
    ensures RwField(mode).value in {EXI_CR_RW_RD, EXI_CR_RW_WR, EXI_CR_RW_RDWR}
  {
    Pow2Values();
    OrDisjoint(1, 1, 1);
  }

  /** The length field at bit 4 does not overlap an RW code below 16. */
  lemma LengthBesideRw(rw: u32, t: nat)
    requires rw < 16 && t < 4
    ensures Or32(rw, Shl32(t, EXI_CR_TLEN_SHIFT)) == rw + 16 * t
  {
    Pow2Values();
    DivModUnique(t * 16, TWO_32, 0, t * 16);
    OrDisjoint(rw, t, 4);
  }

  /** TSTART lands in bit 0, which a multiple of four leaves clear. */
  lemma StartBitBeside(c: nat)
    requires 4 * c < TWO_32
    ensures Or32(4 * c, EXI_CR_TSTART) == 4 * c + 1
  {
    Pow2Values();
    OrDisjoint(1, 2 * c, 1);
    OrCommutes(4 * c, 1);
  }

  /** The outcome of `H_EXIXferImm`: the error code and, for a read, the value stored. */
  datatype Xfer = Xfer(err: int, out: Option<u32>)

  /** The checks before any register is touched. */
  predicate XferParamsOk(channel: u32, len: u32)
  {
    ValidLen(len) && channel <= 2
  }

  // ---------------------------------------------------------------- the driver

  /**
   * The three EXI channels' CSR, CR and DATA registers as the CPU last wrote
   * them, and the descriptor state of `exiDrv`.
   */
  class ExiBus {
    var regs: u32
    var aiprot: u32
    var state: Drivers.DriverState
    var csr: array<u32>
    var cr: array<u32>
    var data: array<u32>

    ghost predicate Valid()
      reads this
    {
      csr.Length == EXI_CHANNELS && cr.Length == EXI_CHANNELS && data.Length == EXI_CHANNELS &&
      csr != cr && cr != data && csr != data
    }

    constructor ()
      ensures Valid() && fresh(csr) && fresh(cr) && fresh(data)
      ensures state == Drivers.NotReady
    {
      regs, aiprot := 0, 0;
      state := Drivers.NotReady;
      csr := new u32[EXI_CHANNELS](_ => 0);
      cr := new u32[EXI_CHANNELS](_ => 0);
      data := new u32[EXI_CHANNELS](_ => 0);
    }

    /** `H_EXISelect`. */
    method Select(channel: u32, cs: nat, clkMhz: u32)
      requires Valid() && channel < EXI_CHANNELS
      modifies csr
      ensures csr[..] == old(csr[..])[channel := SelectCsr(cs, clkMhz)]
    {
      csr[channel] := SelectCsr(cs, clkMhz);
    }

    /** `H_EXIDeselect`. */
    method Deselect(channel: u32)
      requires Valid() && channel < EXI_CHANNELS
      modifies csr
      ensures csr[..] == old(csr[..])[channel := 0]
    {
      csr[channel] := 0;
    }

    /**
     * `H_EXIXferImm`. `x` is the value at `in` loaded at the transfer's
     * width and `reply` the DATA register once the transfer is done; the
     * spins on TSTART are not modelled.
     */
    method XferImm(channel: u32, len: u32, mode: u32, x: u32, reply: u32) returns (r: Xfer)
      requires Valid()
      modifies data, cr
      ensures !XferParamsOk(channel, len) ==>
        r == Xfer(-1, None) && data[..] == old(data[..]) && cr[..] == old(cr[..])
      ensures XferParamsOk(channel, len) ==>
        data[..] == old(data[..])[channel := Outgoing(len, mode, x)]
      ensures XferParamsOk(channel, len) && RwField(mode).None? ==>
        r == Xfer(-1, None) && cr[..] == old(cr[..])
      ensures XferParamsOk(channel, len) && RwField(mode).Some? ==>
        cr[..] == old(cr[..])[channel := ControlWord(len, RwField(mode).value)] &&
        r.err == 0 &&
        r.out == (if And32(mode, EXI_MODE_READ) != 0 then Some(Unpack(len, reply)) else None)
    {
      if len > 4 || len == 0 || channel > 2 {
        return Xfer(-1, None);
      }
      var d: u32;
      if And32(mode, EXI_MODE_WRITE) != 0 {
        d := Pack(len, x);
      } else {
        d := 0;
      }
      data[channel] := d;
      var rw := RwField(mode);
      if rw.None? {
        return Xfer(-1, None);
      }
      cr[channel] := ControlWord(len, rw.value);
      if And32(mode, EXI_MODE_READ) != 0 {
        return Xfer(0, Some(Unpack(len, reply)));
      }
      return Xfer(0, None);
    }

    /** `exiInit`: map the registers, open AIPROT on Hollywood, add the callback, READY. */
    method Init(console: Console, reg: Drivers.Registry) returns (panicked: bool)
      requires Valid() && reg.Valid()
      modifies this, reg.callbacks
      ensures Valid() && csr == old(csr) && cr == old(cr) && data == old(data)
      ensures regs == (if console == GameCube then EXI_REGS_GAMECUBE else EXI_REGS_HOLLYWOOD)
      ensures aiprot == (if console == GameCube then old(aiprot) else Or32(old(aiprot), 1))
      ensures panicked <==> Drivers.AddCallback(old(reg.callbacks[..]), EXI_CALLBACK).None?
      ensures !panicked ==> reg.callbacks[..] == Drivers.AddCallback(old(reg.callbacks[..]), EXI_CALLBACK).value
      ensures !panicked ==> state == Drivers.Ready
    {
      match console {
        case GameCube =>
          regs := EXI_REGS_GAMECUBE;
        case Wii =>
          regs := EXI_REGS_HOLLYWOOD;
          aiprot := Or32(aiprot, 1);
        case WiiU =>
          regs := EXI_REGS_HOLLYWOOD;
          aiprot := Or32(aiprot, 1);
      }
      panicked := reg.AddCb(EXI_CALLBACK);
      if panicked {
        return;
      }
      state := Drivers.Ready;
    }

    /** `exiCleanup`. */
    method Cleanup(reg: Drivers.Registry)
      requires Valid() && reg.Valid()
      modifies this, reg.callbacks
      ensures Valid() && csr == old(csr) && cr == old(cr) && data == old(data)
      ensures regs == old(regs) && aiprot == old(aiprot)
      ensures reg.callbacks[..] == Drivers.RemoveCallback(old(reg.callbacks[..]), EXI_CALLBACK)
      ensures state == Drivers.NotReady
    {
      reg.RemoveCb(EXI_CALLBACK);
      state := Drivers.NotReady;
    }
  }
}
