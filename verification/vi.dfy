/**
 * The Flipper/Hollywood Video Interface driver (src/drivers/vi.c): mode
 * tables, frame-buffer registers, the bit-banged I2C link to the A/V
 * encoder, and the RGB-to-YUV conversion that fills the external frame
 * buffer from the console's RGB buffer.
 */
module Vi {
  import opened Types
  import Drivers
  import Output
  import Video

  const XFB_WIDTH: nat := 640
  const XFB_HEIGHT: nat := 480
  /** 32-bit words of the RGB buffer: one per pixel. */
  const RGB_WORDS: nat := XFB_WIDTH * XFB_HEIGHT
  /** 32-bit words of the YUV buffer: one per pair of pixels. */
  const XFB_WORDS: nat := XFB_WIDTH * XFB_HEIGHT / 2

  const SLAVE_AVE: u8 := 0xe0
  /** Opaque black as an xRGB word. */
  const BLACK: u32 := 0xff00_0000

  // -------------------------------------------------------------- modes

  datatype VideoMode = NTSCi | PAL50 | PAL60 | NTSCp

  /**
   * The `VIDEO_640X480_*_YUV16` numbers. Their header is not part of this
   * model; the values are an assumption (the driver itself passes 0 and
   * means NTSC interlaced).
   */
  function ModeNumber(m: VideoMode): nat
  {
    match m
    case NTSCi => 0
    case PAL50 => 1
    case PAL60 => 2
    case NTSCp => 3
  }

  /** The `switch` of `VIDEO_Init`: an unknown number falls back to NTSC interlaced. */
  function ModeOf(n: int): (m: VideoMode)
    ensures ModeNumber(m) == n || (m == NTSCi && !(0 <= n <= 3))
  {
    if n == 1 then PAL50 else if n == 2 then PAL60 else if n == 3 then NTSCp else NTSCi
  }

  /** The 64 halfwords `VIDEO_Init` programs for a mode. */
  function InitState(m: VideoMode): (t: seq<u16>)
    ensures |t| == 64
  {
    match m
    case NTSCi => NTSCI_STATE
    case PAL50 => PAL50_STATE
    case PAL60 => PAL60_STATE
    case NTSCp => NTSCP_STATE
  }

  const NTSCI_STATE: seq<u16> :=
    [0x0F06, 0x0001, 0x4769, 0x01AD, 0x02EA, 0x5140, 0x0003, 0x0018] +
    [0x0002, 0x0019, 0x410C, 0x410C, 0x40ED, 0x40ED, 0x0043, 0x5A4E] +
    [0x0000, 0x0000, 0x0043, 0x5A4E, 0x0000, 0x0000, 0x0000, 0x0000] +
    [0x1107, 0x01AE, 0x1001, 0x0001, 0x0001, 0x0001, 0x0001, 0x0001] +
    [0x0000, 0x0000, 0x0000, 0x0000, 0x2850, 0x0100, 0x1AE7, 0x71F0] +
    [0x0DB4, 0xA574, 0x00C1, 0x188E, 0xC4C0, 0xCBE2, 0xFCEC, 0xDECF] +
    [0x1313, 0x0F08, 0x0008, 0x0C0F, 0x00FF, 0x0000, 0x0000, 0x0000] +
    [0x0280, 0x0000, 0x0000, 0x00FF, 0x00FF, 0x00FF, 0x00FF, 0x00FF]

  const PAL50_STATE: seq<u16> :=
    [0x11F5, 0x0101, 0x4B6A, 0x01B0, 0x02F8, 0x5640, 0x0001, 0x0023] +
    [0x0000, 0x0024, 0x4D2B, 0x4D6D, 0x4D8A, 0x4D4C, 0x0043, 0x5A4E] +
    [0x0000, 0x0000, 0x0043, 0x5A4E, 0x0000, 0x0000, 0x013C, 0x0144] +
    [0x1139, 0x01B1, 0x1001, 0x0001, 0x0001, 0x0001, 0x0001, 0x0001] +
    [0x0000, 0x0000, 0x0000, 0x0000, 0x2850, 0x0100, 0x1AE7, 0x71F0] +
    [0x0DB4, 0xA574, 0x00C1, 0x188E, 0xC4C0, 0xCBE2, 0xFCEC, 0xDECF] +
    [0x1313, 0x0F08, 0x0008, 0x0C0F, 0x00FF, 0x0000, 0x0000, 0x0000] +
    [0x0280, 0x0000, 0x0000, 0x00FF, 0x00FF, 0x00FF, 0x00FF, 0x00FF]

  const PAL60_STATE: seq<u16> :=
    [0x0F06, 0x0001, 0x4769, 0x01AD, 0x02EA, 0x5140, 0x0003, 0x0018] +
    [0x0002, 0x0019, 0x410C, 0x410C, 0x40ED, 0x40ED, 0x0043, 0x5A4E] +
    [0x0000, 0x0000, 0x0043, 0x5A4E, 0x0000, 0x0000, 0x0005, 0x0176] +
    [0x1107, 0x01AE, 0x1001, 0x0001, 0x0001, 0x0001, 0x0001, 0x0001] +
    [0x0000, 0x0000, 0x0000, 0x0000, 0x2850, 0x0100, 0x1AE7, 0x71F0] +
    [0x0DB4, 0xA574, 0x00C1, 0x188E, 0xC4C0, 0xCBE2, 0xFCEC, 0xDECF] +
    [0x1313, 0x0F08, 0x0008, 0x0C0F, 0x00FF, 0x0000, 0x0000, 0x0000] +
    [0x0280, 0x0000, 0x0000, 0x00FF, 0x00FF, 0x00FF, 0x00FF, 0x00FF]

  const NTSCP_STATE: seq<u16> :=
    [0x1E0C, 0x0005, 0x4769, 0x01AD, 0x02EA, 0x5140, 0x0006, 0x0030] +
    [0x0006, 0x0030, 0x81D8, 0x81D8, 0x81D8, 0x81D8, 0x0015, 0x77A0] +
    [0x0000, 0x0000, 0x0015, 0x77A0, 0x0000, 0x0000, 0x022A, 0x01D6] +
    [0x120E, 0x0001, 0x1001, 0x0001, 0x0001, 0x0001, 0x0001, 0x0001] +
    [0x0000, 0x0000, 0x0000, 0x0000, 0x2828, 0x0100, 0x1AE7, 0x71F0] +
    [0x0DB4, 0xA574, 0x00C1, 0x188E, 0xC4C0, 0xCBE2, 0xFCEC, 0xDECF] +
    [0x1313, 0x0F08, 0x0008, 0x0C0F, 0x00FF, 0x0000, 0x0001, 0x0001] +
    [0x0280, 0x807A, 0x019C, 0x00FF, 0x00FF, 0x00FF, 0x00FF, 0x00FF]

  /** What the copy loop leaves in the registers: entry 1 masked with 0xFFFE. */
  function Programmed(t: seq<u16>): (r: seq<u16>)
    requires |t| == 64
    ensures |r| == 64 && r[1] == t[1] - t[1] % 2 && r[1] % 2 == 0
    ensures forall i :: 0 <= i < 64 && i != 1 ==> r[i] == t[i]
  {
    Pow2Values();
    AndHighMask(t[1], 16, 1);
    t[1 := And32(t[1], 0xFFFE)]
  }

  /**
   * Every mode's entry 1 has bit 0 set: the copy leaves it clear, and only
   * the final STATUS1 write, with the unmasked entry, sets it.
   */
  lemma EnableBitLast(m: VideoMode)
    ensures InitState(m)[1] % 2 == 1
    ensures Programmed(InitState(m))[1] == InitState(m)[1] - 1
  {
    match m
    case NTSCi => assert InitState(m)[1] == 0x0001;
    case PAL50 => assert InitState(m)[1] == 0x0101;
    case PAL60 => assert InitState(m)[1] == 0x0001;
    case NTSCp => assert InitState(m)[1] == 0x0005;
  }

  // ------------------------------------------------------ frame buffer registers

  /**
   * The values `VIDEO_SetFrameBuffer` writes to FB1 and FB2 for the frame
   * buffer at `addr`, computed with the source's masks, shifts and ORs.
   */
  function FrameBufferRegs(m: VideoMode, addr: u32): (r: (u32, u32))
    ensures r.0 == (addr % 0x4000_0000) / 32 + 0x1000_0000
    ensures r.1 == if m == NTSCp then r.0 else (addr % 0x4000_0000 + 2 * XFB_WIDTH) / 32 + 0x1000_0000
  {
    var fb: u32 := And32(addr, Not32(0xc000_0000));
    var fb2: u32 := if m != NTSCp then fb + 2 * XFB_WIDTH else fb;
    FrameBufferFields(addr, fb, fb2);
    (Or32(Shr(fb, 5), 0x1000_0000), Or32(Shr(fb2, 5), 0x1000_0000))
  }

  lemma FrameBufferFields(addr: u32, fb: u32, fb2: u32)
    requires fb == And32(addr, Not32(0xc000_0000)) && (fb2 == fb || fb2 == fb + 2 * XFB_WIDTH)
    ensures fb == addr % 0x4000_0000
    ensures Or32(Shr(fb, 5), 0x1000_0000) == fb / 32 + 0x1000_0000
    ensures Or32(Shr(fb2, 5), 0x1000_0000) == fb2 / 32 + 0x1000_0000
  {
    LowThirtyBits(addr);
    FrameBufferField(fb);
    FrameBufferField(fb2);
  }

  /** Clearing the two top bits keeps the address modulo 2^30. */
  lemma LowThirtyBits(addr: u32)
    ensures And32(addr, Not32(0xc000_0000)) == addr % 0x4000_0000
  {
    assert Pow2(30) == 0x4000_0000 by { Pow2Values(); }
    assert Not32(0xc000_0000) == Pow2(30) - 1;
    AndLowMask(addr, 30);
  }

  /** `(x >> 5) | 0x10000000` is x/32 plus 2^28: x/32 has no bit at 28 or above. */
  lemma FrameBufferField(x: u32)
    ensures Or32(Shr(x, 5), 0x1000_0000) == x / 32 + 0x1000_0000
  {
    var p := Pow2(28);
    assert p == 0x1000_0000 && Pow2(5) == 32 by { Pow2Values(); }
    assert Shr(x, 5) == x / 32;
    assert x / 32 < p;
    OrDisjoint(x / 32, 1, 28);
    assert BitOr(x / 32, 1 * p) == x / 32 + 1 * p;
  }

  // ------------------------------------------------------------------ I2C

  /** The bits of a byte on the wire, most significant first. */
  function MsbFirst(c: u8): (r: seq<bool>)
    ensures |r| == 8
  {
    seq(8, j requires 0 <= j < 8 => BitSet(c, 7 - j))
  }

  /** The bytes a sequence of frames puts on the wire, bit by bit. */
  function Frames(bs: seq<u8>): seq<bool>
  {
    if bs == [] then [] else Frames(bs[..|bs| - 1]) + MsbFirst(bs[|bs| - 1])
  }

  /** A receiver shifting bits in, most significant first. */
  function FromBits(bs: seq<bool>): nat
  {
    if bs == [] then 0 else 2 * FromBits(bs[..|bs| - 1]) + (if bs[|bs| - 1] then 1 else 0)
  }

  lemma DivDiv(a: nat, m: nat, n: nat)
    requires m >= 1 && n >= 1
    ensures (a / m) / n == a / (m * n)
  {
    var q, r1, r0 := (a / m) / n, (a / m) % n, a % m;
    assert a / m == n * q + r1;
    assert a == m * (n * q + r1) + r0;
    assert m * r1 <= m * (n - 1) by {
      MulMono(m, r1, n - 1);
    }
    assert a == (m * n) * q + (m * r1 + r0);
    DivModUnique(a, m * n, q, m * r1 + r0);
  }

  lemma MulMono(m: nat, a: nat, b: nat)
    requires a <= b
    ensures m * a <= m * b
  {
  }

  /** Reading the first n bits back gives the byte's top n bits. */
  lemma {:induction false} FromMsbPrefix(c: u8, n: nat)
    requires n <= 8
    ensures FromBits(MsbFirst(c)[..n]) == c / Pow2(8 - n)
  {
    Pow2Values();
    if n == 0 {
      assert Pow2(8) == 256;
    } else {
      var bits := MsbFirst(c)[..n];
      assert bits[..n - 1] == MsbFirst(c)[..n - 1];
      FromMsbPrefix(c, n - 1);
      var p := Pow2(8 - n);
      assert Pow2(8 - (n - 1)) == p * 2;
      DivDiv(c, p, 2);
      assert c / p == 2 * (c / (p * 2)) + (c / p) % 2;
    }
  }

  /** The round trip: the wire bits of a byte, shifted back in, are the byte. */
  lemma MsbFirstRoundTrip(c: u8)
    ensures FromBits(MsbFirst(c)) == c
  {
    FromMsbPrefix(c, 8);
    assert MsbFirst(c)[..8] == MsbFirst(c);
  }

  /** After j shifts of a u8, its top bit is bit 7 - j of the original. */
  lemma ShiftedTop(b: u8, j: nat)
    requires j < 8
    ensures BitAnd((b * Pow2(j)) % 256, 0x80) != 0 <==> BitSet(b, 7 - j)
  {
    assert Pow2(7) == 0x80;
    AndSingleBit((b * Pow2(j)) % 256, 7);
    TopBitOfByte(b * Pow2(j));
    ShiftBit(b, j);
  }

  /** Bit 7 survives truncation to a byte. */
  lemma TopBitOfByte(x: nat)
    ensures BitSet(x % 256, 7) <==> BitSet(x, 7)
  {
    assert Pow2(7) == 128;
    var q, r := x / 256, x % 256;
    DivModUnique(r, 128, r / 128, r % 128);
    DivModUnique(x, 128, 2 * q + r / 128, r % 128);
    DivModUnique(x / 128, 2, q, r / 128);
    DivModUnique(r / 128, 2, 0, r / 128);
  }

  /** Bit 7 of b shifted left by j is bit 7 - j of b. */
  lemma ShiftBit(b: nat, j: nat)
    requires j < 8
    ensures BitSet(b * Pow2(j), 7) <==> BitSet(b, 7 - j)
  {
    var p, q := Pow2(j), Pow2(7 - j);
    Pow2Split(j, 7 - j);
    assert j + (7 - j) == 7;
    DivCancel(b, p, q);
  }

  /** A common factor cancels: (p*b) / (p*q) == b / q. */
  lemma DivCancel(b: nat, p: nat, q: nat)
    requires p >= 1 && q >= 1
    ensures (b * p) / (p * q) == b / q
  {
    var t, r := b / q, b % q;
    assert b == q * t + r;
    MulMono(p, r, q - 1);
    assert b * p == (p * q) * t + p * r;
    DivModUnique(b * p, p * q, t, p * r);
  }

  lemma {:induction false} Pow2Split(j: nat, k: nat)
    ensures Pow2(j) * Pow2(k) == Pow2(j + k)
    decreases j
  {
    if j > 0 {
      Pow2Split(j - 1, k);
    }
  }

  /** `c <<= 1` on a u8 keeps the running shift of the original byte. */
  lemma ShiftStep(b: u8, j: nat)
    ensures ((b * Pow2(j)) % 256 * 2) % 256 == (b * Pow2(j + 1)) % 256
  {
    var x := b * Pow2(j);
    assert b * Pow2(j + 1) == 2 * x;
    DivModUnique(2 * x, 256, 2 * (x / 256) + (x % 256 * 2) / 256, (x % 256 * 2) % 256);
  }

  /** The position of the first missing ACK among the first n, or n when all n came. */
  function FirstNack(nack: nat -> bool, n: nat): (r: nat)
    ensures r <= n && (r < n ==> nack(r))
    ensures forall j :: 0 <= j < r ==> !nack(j)
  {
    FirstNackFrom(nack, 0, n)
  }

  function FirstNackFrom(nack: nat -> bool, k: nat, n: nat): (r: nat)
    requires k <= n
    ensures k <= r <= n && (r < n ==> nack(r))
    ensures forall j :: k <= j < r ==> !nack(j)
    decreases n - k
  {
    if k == n then n else if nack(k) then k else FirstNackFrom(nack, k + 1, n)
  }

  /** Clock one byte out on SDA, a bit per SCL pulse: the inner loop of both senders. */
  method ClockOut(b: u8) returns (bits: seq<bool>)
    ensures bits == MsbFirst(b)
  {
    var c: u8 := b;
    bits := [];
    var j := 0;
    while j < 8
      invariant 0 <= j <= 8 && c == (b * Pow2(j)) % 256
      invariant bits == MsbFirst(b)[..j]
    {
      ShiftedTop(b, j);
      var sda := And32(c, 0x80) != 0;
      bits := bits + [sda];
      ShiftStep(b, j);
      c := (c * 2) % 256;
      j := j + 1;
    }
  }

  /**
   * `__VISendI2CData(addr, val, len)` with `__sendSlaveAddress`: the address
   * byte, then each data byte, each followed by an ACK read; `nack(k)` says
   * the k-th ACK read found SDA high. Stops with 0 at the first missing ACK
   * and returns 1 after the last byte. `wire` is what was clocked out.
   */
  method SendI2C(addr: u8, data: seq<u8>, nack: nat -> bool) returns (ok: bool, wire: seq<bool>)
    ensures var f := FirstNack(nack, |data| + 1);
      (ok <==> f == |data| + 1) &&
      wire == Frames(([addr] + data)[..if ok then |data| + 1 else f + 1])
  {
    var all := [addr] + data;
    wire := ClockOut(addr);
    assert all[..1] == [addr];
    assert Frames([addr]) == Frames([]) + MsbFirst(addr);
    if nack(0) {
      return false, wire;
    }
    var i := 0;
    while i < |data|
      invariant 0 <= i <= |data|
      invariant wire == Frames(all[..i + 1])
      invariant forall j :: 0 <= j <= i ==> !nack(j)
    {
      var bits := ClockOut(data[i]);
      wire := wire + bits;
      assert all[..i + 2][..i + 1] == all[..i + 1];
      if nack(i + 1) {
        return false, wire;
      }
      i := i + 1;
    }
    assert all[..|data| + 1] == all;
    return true, wire;
  }

  /** The frame `__VIWriteI2CRegister8` sends. */
  function Reg8Frame(reg: u8, data: u8): (r: seq<u8>)
    ensures |r| == 2 && r[0] == reg && r[1] == data
  {
    [reg, data]
  }

  /** The frame `__VIWriteI2CRegister16` sends: the register, then the value high byte first. */
  function Reg16Frame(reg: u8, data: u16): (r: seq<u8>)
    ensures |r| == 3 && r[0] == reg
    ensures (r[1] as int) * 0x100 + r[2] == data
  {
    assert Pow2(8) == 0x100;
    AndLowMask(data, 8);
    var hi: u8, lo: u8 := Shr(data, 8), And32(data, 0xFF);
    [reg, hi, lo]
  }

  /** The frame `__VIWriteI2CRegister32` sends: the register, then the value's four bytes high first. */
  function Reg32Frame(reg: u8, data: u32): (r: seq<u8>)
    ensures |r| == 5 && r[0] == reg
    ensures (r[1] as int) * 0x100_0000 + (r[2] as int) * 0x1_0000 + (r[3] as int) * 0x100 + r[4] == data
  {
    Reg32Shifts(data);
    var b3: u8, b2: u8, b1: u8, b0: u8 :=
      Shr(data, 24), And32(Shr(data, 16), 0xFF), And32(Shr(data, 8), 0xFF), And32(data, 0xFF);
    [reg, b3, b2, b1, b0]
  }

  /** The shifts and masks of `__VIWriteI2CRegister32` pick out the four bytes of the value. */
  lemma Reg32Shifts(data: u32)
    ensures Shr(data, 24) == data / 0x100_0000 < 0x100
    ensures Shr(data, 16) == data / 0x1_0000 && Shr(data, 8) == data / 0x100
    ensures And32(Shr(data, 16), 0xFF) == (data / 0x1_0000) % 0x100
    ensures And32(Shr(data, 8), 0xFF) == (data / 0x100) % 0x100
    ensures And32(data, 0xFF) == data % 0x100
    ensures data == (data / 0x100_0000) * 0x100_0000 + ((data / 0x1_0000) % 0x100) * 0x1_0000 +
      ((data / 0x100) % 0x100) * 0x100 + data % 0x100
  {
    assert Pow2(8) == 0x100;
    assert Pow2(16) == 0x1_0000;
    assert Pow2(24) == 0x100_0000;
    AndLowMask(data / 0x1_0000, 8);
    AndLowMask(data / 0x100, 8);
    AndLowMask(data, 8);
    Reg32Bytes(data);
  }

  lemma Reg32Bytes(data: u32)
    ensures data / 0x100_0000 < 0x100
    ensures data == (data / 0x100_0000) * 0x100_0000 + ((data / 0x1_0000) % 0x100) * 0x1_0000 +
      ((data / 0x100) % 0x100) * 0x100 + data % 0x100
  {
    DivDiv(data, 0x100, 0x100);
    DivDiv(data, 0x1_0000, 0x100);
  }

  /** The frame `__VIWriteI2CRegisterBuf` sends. */
  function RegBufFrame(reg: u8, data: seq<u8>): (r: seq<u8>)
    ensures |r| == |data| + 1 && r[0] == reg && r[1..] == data
  {
    [reg] + data
  }

  /** `vdacFlagRegion`: 2 for the PAL modes, 0 otherwise. */
  function Region(m: VideoMode): (r: u8)
    ensures r == 2 <==> m == PAL50 || m == PAL60
    ensures r == 0 || r == 2
  {
    match m
    case PAL50 => 2
    case PAL60 => 2
    case _ => 0
  }

  /** `__VISetYUVSEL(dtv)`: register 1 gets `(dtv << 5) | region`, truncated to a byte. */
  function YuvSel(m: VideoMode, dtv: u8): (r: seq<u8>)
    ensures |r| == 2 && r[0] == 0x01
    ensures dtv <= 1 ==> r[1] == 32 * dtv + Region(m)
  {
    YuvSelByte(Region(m), dtv);
    Reg8Frame(0x01, Or32(Shl32(dtv, 5), And32(Region(m), 0x1f)) % TWO_8)
  }

  /** For a region flag below 32 and dtv of 0 or 1, the register byte is 32 * dtv + region. */
  lemma YuvSelByte(region: u8, dtv: u8)
    ensures region < 32 && dtv <= 1 ==>
      Or32(Shl32(dtv, 5), And32(region, 0x1f)) % TWO_8 == 32 * dtv + region
  {
    if region < 32 && dtv <= 1 {
      var p := Pow2(5);
      assert p == 32;
      AndLowMask(region, 5);
      DivModUnique(region, p, 0, region);
      var low := And32(region, 0x1f);
      assert low == BitAnd(region, p - 1) == region;
      ShlOr(region, dtv, 5);
      var w := Or32(Shl32(dtv, 5), low);
      assert w == region + dtv * p;
      DivModUnique(w, TWO_8, 0, w);
    }
  }

  /** `macrobuf`: 0x1a zero bytes. */
  const MACROBUF: seq<u8> :=
    [0, 0, 0, 0, 0, 0, 0, 0, 0, 0, 0, 0, 0] + [0, 0, 0, 0, 0, 0, 0, 0, 0, 0, 0, 0, 0]

  const GAMMA: seq<u8> := [
    0x10, 0x00, 0x10, 0x00, 0x10, 0x00, 0x10, 0x00,
    0x10, 0x00, 0x10, 0x00, 0x10, 0x20, 0x40, 0x60,
    0x80, 0xa0, 0xeb, 0x10, 0x00, 0x20, 0x00, 0x40,
    0x00, 0x60, 0x00, 0x80, 0x00, 0xa0, 0x00, 0xeb,
    0x00]

  /**
   * The frames `VISetupEncoder` means to send, in order, with `dtv` the low
   * bit of VISEL. A NACK cutting a frame short on the wire is left to
   * `SendI2C`; this sequence does not reflect it.
   */
  function EncoderFrames(m: VideoMode, visel: u32): (r: seq<seq<u8>>)
    ensures |r| == 18 && r[2] == YuvSel(m, visel % 2)
  {
    Pow2Values();
    AndLowMask(visel, 1);
    ENCODER_HEAD + [YuvSel(m, And32(visel, 1))] + ENCODER_TAIL
  }

  /** The writes before YUVSEL. */
  const ENCODER_HEAD: seq<seq<u8>> := [Reg8Frame(0x6a, 1), Reg8Frame(0x65, 1)]

  /** The writes after YUVSEL, the Macrovision block and the gamma table among them. */
  const ENCODER_TAIL: seq<seq<u8>> :=
    [Reg8Frame(0x00, 0), Reg16Frame(0x71, 0x8e8e), Reg8Frame(0x02, 7), Reg16Frame(0x05, 0),
     Reg16Frame(0x08, 0), Reg32Frame(0x7A, 0), RegBufFrame(0x40, MACROBUF), Reg8Frame(0x0A, 0),
     Reg8Frame(0x03, 1), RegBufFrame(0x10, GAMMA), Reg8Frame(0x04, 1), Reg32Frame(0x7A, 0),
     Reg16Frame(0x08, 0), Reg8Frame(0x03, 1), Reg8Frame(0x6e, 0)]

  // ------------------------------------------------------------------ YUV

  /** The channels of an xRGB word, as the big-endian union lays them out. */
  function Red(w: u32): u8 { (w / 0x1_0000) % 0x100 }
  function Green(w: u32): u8 { (w / 0x100) % 0x100 }
  function Blue(w: u32): u8 { w % 0x100 }

  /** C's `/` on `int`: truncation toward zero. */
  function CDiv(a: int, d: int): int
    requires d > 0
  {
    if a >= 0 then a / d else -((-a) / d)
  }

  /** Y of one pixel: within 0..255 for every 8-bit r, g, b. */
  function Luma(w: u32): (y: u8)
  {
    var n := 299 * Red(w) + 587 * Green(w) + 114 * Blue(w);
    assert 0 <= n <= 255 * 1000;
    CDiv(n, 1000)
  }

  /** Cb of one pixel: the offset 12800000 keeps it within 0..255. */
  function ChromaB(w: u32): (cb: u8)
  {
    var n := -16874 * Red(w) - 33126 * Green(w) + 50000 * Blue(w) + 12800000;
    assert 50000 <= n <= 25550000;
    CDiv(n, 100000)
  }

  /** Cr of one pixel: within 0..255 likewise. */
  function ChromaR(w: u32): (cr: u8)
  {
    var n := 50000 * Red(w) - 41869 * Green(w) - 8131 * Blue(w) + 12800000;
    assert 50000 <= n <= 25550000;
    CDiv(n, 100000)
  }

  /**
   * `make_yuv(c1, c2)`: Y of each pixel in bytes 3 and 1, and the halved
   * sums of their Cb and Cr in bytes 2 and 0. The source ORs the shifted
   * fields together; `MakeYuvPacked` shows that this is the same word.
   */
  function MakeYuv(c1: u32, c2: u32): u32
  {
    Luma(c1) * 0x100_0000 + HalfSum(ChromaB(c1), ChromaB(c2)) * 0x1_0000 +
      Luma(c2) * 0x100 + HalfSum(ChromaR(c1), ChromaR(c2))
  }

  /** `(a + b) >> 1` on non-negative ints: the mean, rounded down, still a byte. */
  function HalfSum(a: u8, b: u8): u8
  {
    (a + b) / 2
  }

  /** The fields of `make_yuv` do not overlap: OR-ing them gives their positional sum. */
  lemma MakeYuvPacked(c1: u32, c2: u32)
    ensures Or32(Or32(Or32(Shl32(Luma(c1), 24), Shl32(HalfSum(ChromaB(c1), ChromaB(c2)), 16)), Shl32(Luma(c2), 8)),
      HalfSum(ChromaR(c1), ChromaR(c2))) == MakeYuv(c1, c2)
  {
    PackedWord(Luma(c1), HalfSum(ChromaB(c1), ChromaB(c2)), Luma(c2), HalfSum(ChromaR(c1), ChromaR(c2)));
  }

  /** Four bytes OR-ed at bits 24, 16, 8 and 0 are their positional sum. */
  lemma PackedWord(a: u8, b: u8, c: u8, d: u8)
    ensures Or32(Or32(Or32(Shl32(a, 24), Shl32(b, 16)), Shl32(c, 8)), d) ==
      a * 0x100_0000 + b * 0x1_0000 + c * 0x100 + d
  {
    Pow2Values();
    ShlFits(a, 24);
    ShlFits(b, 16);
    ShlFits(c, 8);
    OrAbove(b * 0x1_0000, a, 24);
    var ab := a * 0x100_0000 + b * 0x1_0000;
    assert ab == (a * 0x100 + b) * Pow2(16);
    OrAbove(c * 0x100, a * 0x100 + b, 16);
    var abc := ab + c * 0x100;
    assert abc == (a * 0x1_0000 + b * 0x100 + c) * Pow2(8);
    OrAbove(d, a * 0x1_0000 + b * 0x100 + c, 8);
  }

  /** A shift that stays within 32 bits loses nothing. */
  lemma ShlFits(a: u32, k: nat)
    requires a * Pow2(k) < TWO_32
    ensures Shl32(a, k) == a * Pow2(k)
  {
    DivModUnique(a * Pow2(k), TWO_32, 0, a * Pow2(k));
  }

  /** OR-ing a value below 2^k into a multiple of 2^k adds it. */
  lemma OrAbove(lo: nat, hi: nat, k: nat)
    requires lo < Pow2(k)
    ensures BitOr(hi * Pow2(k), lo) == hi * Pow2(k) + lo
  {
    OrDisjoint(lo, hi, k);
    OrCommutes(lo, hi * Pow2(k));
  }

  /** The fields read back out of a packed YUV word. */
  lemma YuvFields(c1: u32, c2: u32)
    ensures MakeYuv(c1, c2) / 0x100_0000 == Luma(c1)
    ensures (MakeYuv(c1, c2) / 0x1_0000) % 0x100 == HalfSum(ChromaB(c1), ChromaB(c2))
    ensures (MakeYuv(c1, c2) / 0x100) % 0x100 == Luma(c2)
    ensures MakeYuv(c1, c2) % 0x100 == HalfSum(ChromaR(c1), ChromaR(c2))
  {
    var a: u8, b: u8, c: u8, d: u8 := Luma(c1), HalfSum(ChromaB(c1), ChromaB(c2)), Luma(c2), HalfSum(ChromaR(c1), ChromaR(c2));
    WordFields(MakeYuv(c1, c2), a, b, c, d);
  }

  /** The four bytes of a word, recovered by dividing and taking remainders. */
  lemma WordFields(w: int, a: u8, b: u8, c: u8, d: u8)
    requires w == a * 0x100_0000 + b * 0x1_0000 + c * 0x100 + d
    ensures w / 0x100_0000 == a && (w / 0x1_0000) % 0x100 == b && (w / 0x100) % 0x100 == c && w % 0x100 == d
  {
    DivModUnique(w, 0x100_0000, a, b * 0x1_0000 + c * 0x100 + d);
    DivModUnique(w, 0x1_0000, a * 0x100 + b, c * 0x100 + d);
    DivModUnique(a * 0x100 + b, 0x100, a, b);
    DivModUnique(w, 0x100, a * 0x1_0000 + b * 0x100 + c, d);
    DivModUnique(a * 0x1_0000 + b * 0x100 + c, 0x100, a * 0x100 + b, c);
  }

  /** A pixel paired with itself keeps its own chroma and repeats its luma. */
  lemma YuvOfSame(c: u32)
    ensures MakeYuv(c, c) == Luma(c) * 0x100_0000 + ChromaB(c) * 0x1_0000 + Luma(c) * 0x100 + ChromaR(c)
  {
    var cb, cr := ChromaB(c), ChromaR(c);
    assert HalfSum(cb, cb) == cb && HalfSum(cr, cr) == cr;
  }

  /** Black converts to Y 0 with the neutral chroma 128. */
  lemma BlackYuv()
    ensures MakeYuv(BLACK, BLACK) == 0x0080_0080
  {
    assert Red(BLACK) == 0 && Green(BLACK) == 0 && Blue(BLACK) == 0;
    assert Luma(BLACK) == 0 && ChromaB(BLACK) == 128 && ChromaR(BLACK) == 128;
    YuvOfSame(BLACK);
  }

  // --------------------------------------------------------------- the driver

  /**
   * Indices into the block of 16-bit VI registers: STATUS1 at byte offset
   * 0x02, and the 32-bit FB1 and FB2 at 0x1C and 0x24, high half first.
   */
  const STATUS1: nat := 1
  const FB1: nat := 14
  const FB2: nat := 18

  /** The 32-bit register whose high half is entry `i` and low half entry `i + 1`. */
  function Word(t: seq<u16>, i: nat): (w: u32)
    requires i + 1 < |t|
    ensures w / 0x1_0000 == t[i] && w % 0x1_0000 == t[i + 1]
  {
    t[i] as int * 0x1_0000 + t[i + 1]
  }

  /** A 32-bit store of `w` to entries `i` and `i + 1`; nothing else changes. */
  function PutWord(t: seq<u16>, i: nat, w: u32): (r: seq<u16>)
    requires i + 1 < |t|
    ensures |r| == |t| && Word(r, i) == w
    ensures forall k :: 0 <= k < |t| && k != i && k != i + 1 ==> r[k] == t[k]
  {
    t[i := w / 0x1_0000][i + 1 := w % 0x1_0000]
  }

  /**
   * The register block after `VIDEO_SetFrameBuffer` in mode `m`: FB1 and FB2
   * read back FrameBufferRegs, every other register keeps its value.
   */
  function WithFrameBuffer(t: seq<u16>, m: VideoMode, addr: u32): (r: seq<u16>)
    requires |t| == 64
    ensures |r| == 64
    ensures Word(r, FB1) == FrameBufferRegs(m, addr).0 && Word(r, FB2) == FrameBufferRegs(m, addr).1
    ensures forall k :: 0 <= k < 64 && k != FB1 && k != FB1 + 1 && k != FB2 && k != FB2 + 1 ==> r[k] == t[k]
  {
    PutWord(PutWord(t, FB1, FrameBufferRegs(m, addr).0), FB2, FrameBufferRegs(m, addr).1)
  }

  /** The VI register block, 64 halfwords, and the mode `VIDEO_Init` chose. */
  class ViRegs {
    const table: array<u16>
    var mode: VideoMode

    constructor ()
      ensures fresh(table) && table.Length == 64 && mode == NTSCi
    {
      table := new u16[64](_ => 0);
      mode := NTSCi;
    }

    /**
     * `VIDEO_Init`: the reset pulse on STATUS1, the copy of the mode's table
     * with entry 1's enable bit held clear, the mode, then STATUS1 from the
     * unmasked entry 1, so the block ends up holding the mode's table.
     */
    method Init(videoMode: int)
      requires table.Length == 64
      modifies this, table
      ensures mode == ModeOf(videoMode)
      ensures table[..] == InitState(mode)
    {
      table[STATUS1] := 2;
      table[STATUS1] := 0;
      var m := ModeOf(videoMode);
      var init := InitState(m);
      var counter := 0;
      while counter < 64
        invariant 0 <= counter <= 64 && table.Length == 64
        invariant table[..counter] == Programmed(init)[..counter]
      {
        if counter == 1 {
          table[counter] := And32(init[counter], 0xFFFE);
        } else {
          table[counter] := init[counter];
        }
        counter := counter + 1;
      }
      assert table[..] == table[..64];
      mode := m;
      table[STATUS1] := init[1];
      assert forall k :: 0 <= k < 64 ==> table[k] == init[k];
    }

    /** `VIDEO_SetFrameBuffer`: the two 32-bit stores to FB1 and FB2. */
    method SetFrameBuffer(addr: u32)
      requires table.Length == 64
      modifies table
      ensures table[..] == WithFrameBuffer(old(table[..]), mode, addr)
    {
      var fb: u32 := And32(addr, Not32(0xc000_0000));
      var top: u32 := Or32(Shr(fb, 5), 0x1000_0000);
      table[FB1], table[FB1 + 1] := top / 0x1_0000, top % 0x1_0000;
      if mode != NTSCp {
        fb := fb + 2 * XFB_WIDTH;
      }
      FrameBufferFields(addr, And32(addr, Not32(0xc000_0000)), fb);
      var bottom: u32 := Or32(Shr(fb, 5), 0x1000_0000);
      table[FB2], table[FB2 + 1] := bottom / 0x1_0000, bottom % 0x1_0000;
      assert table[..] == WithFrameBuffer(old(table[..]), mode, addr);
    }
  }

  /** The driver's buffers: `xfb` as 32-bit words, one per pixel pair, and `rgbFb`. */
  class ViDriver {
    const regs: ViRegs
    const xfb: array<u32>
    const rgbFb: array<u32>
    var state: Drivers.DriverState

    ghost predicate Valid()
      reads this, regs
    {
      regs.table.Length == 64 && xfb.Length == XFB_WORDS && rgbFb.Length == RGB_WORDS &&
      xfb != rgbFb
    }

    constructor (yuv: array<u32>, rgb: array<u32>)
      requires yuv.Length == XFB_WORDS && rgb.Length == RGB_WORDS && yuv != rgb
      ensures Valid() && xfb == yuv && rgbFb == rgb && state == Drivers.NotReady
    {
      regs := new ViRegs();
      xfb, rgbFb := yuv, rgb;
      state := Drivers.NotReady;
    }

    /** `clear_fb`: every YUV word becomes the fill colour paired with itself. */
    method ClearYuv(fill: u32)
      requires Valid()
      modifies xfb
      ensures forall i :: 0 <= i < xfb.Length ==> xfb[i] == MakeYuv(fill, fill)
    {
      var word := MakeYuv(fill, fill);
      var i := 0;
      while i < xfb.Length
        invariant 0 <= i <= xfb.Length
        invariant forall j :: 0 <= j < i ==> xfb[j] == word
      {
        xfb[i] := word;
        i := i + 1;
      }
    }

    /** `clear_fb_rgb`: every RGB word becomes the fill colour. */
    method ClearRgb(fill: u32)
      requires Valid()
      modifies rgbFb
      ensures forall i :: 0 <= i < rgbFb.Length ==> rgbFb[i] == fill
    {
      var i := 0;
      while i < rgbFb.Length
        invariant 0 <= i <= rgbFb.Length
        invariant forall j :: 0 <= j < i ==> rgbFb[j] == fill
      {
        rgbFb[i] := fill;
        i := i + 1;
      }
    }

    /**
     * `viFlush`: each YUV word is `make_yuv` of the two RGB pixels it covers;
     * both cursors reach the end of their buffers together.
     */
    method Flush()
      requires Valid()
      modifies xfb
      ensures forall i :: 0 <= i < xfb.Length ==> xfb[i] == MakeYuv(rgbFb[2 * i], rgbFb[2 * i + 1])
    {
      var src, dest := 0, 0;
      while src < rgbFb.Length && dest < xfb.Length
        invariant 0 <= dest <= xfb.Length && src == 2 * dest
        invariant forall i :: 0 <= i < dest ==> xfb[i] == MakeYuv(rgbFb[2 * i], rgbFb[2 * i + 1])
      {
        var rgb1 := rgbFb[src];
        src := src + 1;
        var rgb2 := rgbFb[src];
        src := src + 1;
        xfb[dest] := MakeYuv(rgb1, rgb2);
        dest := dest + 1;
      }
    }

    /**
     * The hardware after `viDrvInit`: NTSC interlaced, the mode's register
     * table with the frame buffer registers for `xfbAddr`, and both buffers
     * black.
     */
    ghost predicate ProgrammedFor(xfbAddr: u32)
      reads regs, regs.table, xfb, rgbFb
    {
      regs.mode == NTSCi && regs.table[..] == WithFrameBuffer(InitState(regs.mode), regs.mode, xfbAddr) &&
      (forall i :: 0 <= i < xfb.Length ==> xfb[i] == MakeYuv(BLACK, BLACK)) &&
      (forall i :: 0 <= i < rgbFb.Length ==> rgbFb[i] == BLACK)
    }

    /**
     * The hardware half of `viDrvInit`: NTSC interlaced, the frame buffer
     * registers for `xfb` at `xfbAddr`, the encoder frames on a Wii (none
     * elsewhere), and both buffers cleared to black (`BlackYuv` gives the YUV word).
     */
    method Program(console: Console, xfbAddr: u32, visel: u32) returns (encoder: seq<seq<u8>>)
      requires Valid()
      modifies regs, regs.table, xfb, rgbFb
      ensures Valid()
      ensures ProgrammedFor(xfbAddr)
      ensures encoder == if console == Wii then EncoderFrames(regs.mode, visel) else []
    {
      regs.Init(0);
      regs.SetFrameBuffer(xfbAddr);
      encoder := if console == Wii then EncoderFrames(regs.mode, visel) else [];
      ClearYuv(BLACK);
      ClearRgb(BLACK);
    }

    /**
     * The registration half of `viDrvInit`: the RGB buffer becomes the video
     * console's 640x480 framebuffer (with a flush hook), then READY.
     */
    method Announce(video: Video.VideoConsole, palette: u8 -> u32, out: Output.OutputTable)
      returns (panicked: bool)
      requires Valid() && out.Valid()
      requires {video, out, out.devices} !! {this, regs, regs.table, xfb, rgbFb}
      modifies this`state, video, out, out.devices
      ensures out.Valid()
      ensures old(video.active).None? ==>
        video.active == Some(Video.VideoInfo(XFB_WIDTH, XFB_HEIGHT, 1)) &&
        video.fb == rgbFb && video.width == XFB_WIDTH && video.height == XFB_HEIGHT &&
        (panicked <==> old(out.numDevices) >= Output.MAX_DEV) &&
        (!panicked ==> out.Registered() == old(out.Registered()) + [Video.VIDEO_DEVICE])
      ensures old(video.active).Some? ==> panicked
      ensures state == if panicked then old(state) else Drivers.Ready
    {
      panicked := video.Register(Some(Video.VideoInfo(XFB_WIDTH, XFB_HEIGHT, 1)), rgbFb, palette, out);
      if !panicked {
        state := Drivers.Ready;
      }
    }

    /**
     * `viDrvInit`, with the buffers already allocated: the hardware set-up,
     * then registration with the video console.
     */
    method Init(console: Console, xfbAddr: u32, visel: u32, video: Video.VideoConsole,
                palette: u8 -> u32, out: Output.OutputTable)
      returns (encoder: seq<seq<u8>>, panicked: bool)
      requires Valid() && out.Valid()
      requires {video, out, out.devices} !! {this, regs, regs.table, xfb, rgbFb}
      modifies this, regs, regs.table, xfb, rgbFb, video, out, out.devices
      ensures Valid() && out.Valid()
      ensures ProgrammedFor(xfbAddr)
      ensures encoder == if console == Wii then EncoderFrames(regs.mode, visel) else []
      ensures old(video.active).None? ==>
        video.active == Some(Video.VideoInfo(XFB_WIDTH, XFB_HEIGHT, 1)) &&
        video.fb == rgbFb && video.width == XFB_WIDTH && video.height == XFB_HEIGHT &&
        (panicked <==> old(out.numDevices) >= Output.MAX_DEV) &&
        (!panicked ==> out.Registered() == old(out.Registered()) + [Video.VIDEO_DEVICE])
      ensures old(video.active).Some? ==> panicked
      ensures state == if panicked then old(state) else Drivers.Ready
    {
      encoder := Program(console, xfbAddr, visel);
      panicked := Announce(video, palette, out);
    }
  }
}
