/**
 * Fixed-width machine integers, the bitwise operators on them, and the
 * console type shared by every module.
 *
 * C's u8/u16/u32/u64 are integers in [0, 2^n); every operation that can
 * leave that range is wrapped explicitly (`Add32`, `Sub32`, `Mul32`, `Shl32`).
 * `&` and `|` are defined bit by bit on naturals, and the lemmas below give
 * the arithmetic meaning of the mask shapes the loader uses.
 */
module Types {
  const TWO_8: int := 0x100
  const TWO_16: int := 0x1_0000
  const TWO_32: int := 0x1_0000_0000
  const TWO_64: int := 0x1_0000_0000_0000_0000

  type u8 = x: int | 0 <= x < 0x100
  type u16 = x: int | 0 <= x < 0x1_0000
  type u32 = x: int | 0 <= x < 0x1_0000_0000
  type u64 = x: int | 0 <= x < 0x1_0000_0000_0000_0000

  datatype Option<T> = None | Some(value: T)

  /** enum consoleType: GameCube = 1, Wii = 2, Wii U = 3. */
  datatype Console = GameCube | Wii | WiiU

  /** The enum value of a console, used to index per-console tables. */
  function ConsoleTypeValue(c: Console): (n: nat)
    ensures 1 <= n <= 3
  {
    match c
    case GameCube => 1
    case Wii => 2
    case WiiU => 3
  }

  /**
   * Each console's enum value, and distinct consoles have distinct values,
   * so per-console tables never share an entry.
   */
  lemma ConsoleTypeValueDistinct(a: Console, b: Console)
    ensures ConsoleTypeValue(a) == 1 <==> a == GameCube
    ensures ConsoleTypeValue(a) == 2 <==> a == Wii
    ensures ConsoleTypeValue(a) == 3 <==> a == WiiU
    ensures ConsoleTypeValue(a) == ConsoleTypeValue(b) <==> a == b
  {
  }

  // ---------------------------------------------------------------- wrapping

  function Add32(a: u32, b: u32): u32 { (a + b) % TWO_32 }
  function Sub32(a: u32, b: u32): u32 { (a - b) % TWO_32 }
  function Mul32(a: u32, b: u32): u32 { (a * b) % TWO_32 }
  function Add64(a: u64, b: u64): u64 { (a + b) % TWO_64 }
  function Sub64(a: u64, b: u64): u64 { (a - b) % TWO_64 }
  function Mul64(a: u64, b: u64): u64 { (a * b) % TWO_64 }

  /** Two's-complement reading of a 32-bit pattern (C's `int`/`long`). */
  function Signed32(x: u32): int { if x < 0x8000_0000 then x else x - TWO_32 }

  // ------------------------------------------------------------------- bits

  function Pow2(k: nat): (r: nat)
    ensures r >= 1
  {
    if k == 0 then 1 else 2 * Pow2(k - 1)
  }

  /** `a & b`, bit by bit from the least significant bit. */
  function BitAnd(a: nat, b: nat): nat
    decreases a
  {
    if a == 0 || b == 0 then 0
    else 2 * BitAnd(a / 2, b / 2) + (if a % 2 == 1 && b % 2 == 1 then 1 else 0)
  }

  /** `a | b`, bit by bit from the least significant bit. */
  function BitOr(a: nat, b: nat): nat
    decreases a + b
  {
    if a == 0 then b
    else if b == 0 then a
    else 2 * BitOr(a / 2, b / 2) + (if a % 2 == 1 || b % 2 == 1 then 1 else 0)
  }

  /** `~a` on 32 bits. */
  function Not32(a: u32): u32 { 0xffff_ffff - a }

  function And32(a: u32, b: u32): (r: u32)
    ensures r <= a && r <= b
  {
    AndBound(a, b);
    BitAnd(a, b)
  }

  function Or32(a: u32, b: u32): (r: u32)
    ensures r >= a && r >= b
  {
    Pow2Values();
    OrBound(a, b, 32);
    BitOr(a, b)
  }

  /** `a << k` on 32 bits: bits shifted past bit 31 are lost. */
  function Shl32(a: u32, k: nat): u32 { (a * Pow2(k)) % TWO_32 }

  /** `a >> k` (logical). */
  function Shr(a: nat, k: nat): (r: nat)
    ensures r <= a
  {
    DivBy(a, Pow2(k))
  }

  /** Division by a positive divisor, which never exceeds the dividend. */
  function DivBy(a: nat, p: nat): (r: nat)
    requires p >= 1
    ensures r <= a
  {
    MulAtLeast(a / p, p);
    a / p
  }

  /** Bit k of a. */
  predicate BitSet(a: nat, k: nat) { (a / Pow2(k)) % 2 == 1 }

  lemma Pow2Values()
    ensures Pow2(1) == 2 && Pow2(2) == 4 && Pow2(3) == 8 && Pow2(4) == 16
    ensures Pow2(5) == 32 && Pow2(8) == 0x100 && Pow2(16) == 0x1_0000
    ensures Pow2(24) == 0x100_0000 && Pow2(30) == 0x4000_0000
    ensures Pow2(31) == 0x8000_0000 && Pow2(32) == TWO_32
  {
  }

  lemma MulAtLeast(m: nat, d: int)
    requires d >= 1
    ensures m * d >= m
  {
  }

  /** Division and remainder are determined by a == m*t + r with 0 <= r < m. */
  lemma DivModUnique(a: int, m: int, t: int, r: int)
    requires m >= 1 && a == m * t + r && 0 <= r < m
    ensures a / m == t && a % m == r
  {
    var q, s := a / m, a % m;
    assert a == m * q + s;
    var d := t - q;
    assert m * d == s - r;
    if d >= 1 {
      MulAtLeast(m, d);
    }
  }

  lemma Pow2Monotone(j: nat, k: nat)
    requires j <= k
    ensures Pow2(j) <= Pow2(k)
    decreases k
  {
    if j < k {
      Pow2Monotone(j, k - 1);
    }
  }

  lemma ModDouble(a: nat, p: nat)
    requires p >= 1
    ensures a % (2 * p) == 2 * ((a / 2) % p) + a % 2
  {
    var q := a / 2;
    assert q == p * (q / p) + q % p;
    DivModUnique(a, 2 * p, q / p, 2 * (q % p) + a % 2);
  }

  lemma AndBound(a: nat, b: nat)
    ensures BitAnd(a, b) <= a && BitAnd(a, b) <= b
    decreases a
  {
    if a != 0 && b != 0 {
      AndBound(a / 2, b / 2);
    }
  }

  lemma {:induction false} OrBound(a: nat, b: nat, n: nat)
    requires a < Pow2(n) && b < Pow2(n)
    ensures a <= BitOr(a, b) < Pow2(n) && b <= BitOr(a, b)
    decreases n
  {
    if a != 0 && b != 0 {
      OrBound(a / 2, b / 2, n - 1);
    }
  }

  /** Masking with 2^k - 1 keeps the k low bits: `a & (2^k - 1) == a % 2^k`. */
  lemma {:induction false} AndLowMask(a: nat, k: nat)
    ensures BitAnd(a, Pow2(k) - 1) == a % Pow2(k)
  {
    if k == 0 {
      assert Pow2(k) == 1;
      assert BitAnd(a, 0) == 0;
    } else if a == 0 {
      assert BitAnd(0, Pow2(k) - 1) == 0;
    } else {
      var p := Pow2(k - 1);
      assert Pow2(k) == 2 * p;
      var m := 2 * p - 1;
      assert m / 2 == p - 1 && m % 2 == 1;
      AndLowMask(a / 2, k - 1);
      AndUnfold(a, m);
      ModDouble(a, p);
    }
  }

  /** Masking with 2^n - 2^k clears the k low bits of an n-bit value. */
  lemma AndHighMask(a: nat, n: nat, k: nat)
    requires k <= n && a < Pow2(n)
    ensures Pow2(k) <= Pow2(n)
    ensures BitAnd(a, Pow2(n) - Pow2(k)) == a - a % Pow2(k)
  {
    Pow2Monotone(k, n);
    var m := Pow2(k) - 1;
    AndLowMask(a, k);
    AndComplement(a, m, n);
    assert Pow2(n) - 1 - m == Pow2(n) - Pow2(k);
  }

  /** OR with a multiple of 2^k is addition when the other operand is below 2^k. */
  lemma {:induction false} OrDisjoint(a: nat, c: nat, k: nat)
    requires a < Pow2(k)
    ensures BitOr(a, c * Pow2(k)) == a + c * Pow2(k)
    decreases k
  {
    if k == 0 {
      assert a == 0;
    } else if a != 0 && c != 0 {
      var p := Pow2(k - 1);
      var h := c * p;
      assert Pow2(k) == 2 * p;
      assert c * Pow2(k) == 2 * h;
      DivModUnique(2 * h, 2, h, 0);
      OrDisjoint(a / 2, c, k - 1);
      assert BitOr(a / 2, h) == a / 2 + h;
      assert BitOr(a, 2 * h) == 2 * BitOr(a / 2, h) + a % 2;
    }
  }

  /** `a & 2^k` is 2^k when bit k is set and 0 otherwise. */
  lemma {:induction false} AndSingleBit(a: nat, k: nat)
    ensures BitAnd(a, Pow2(k)) == if BitSet(a, k) then Pow2(k) else 0
    decreases k
  {
    if k == 0 {
      if a != 0 {
        assert BitAnd(a / 2, 0) == 0;
      }
    } else if a != 0 {
      var p := Pow2(k - 1);
      assert Pow2(k) / 2 == p && Pow2(k) % 2 == 0;
      AndSingleBit(a / 2, k - 1);
      assert BitAnd(a, Pow2(k)) == 2 * BitAnd(a / 2, p);
      DivDouble(a, p);
    }
  }

  lemma DivDouble(a: nat, p: nat)
    requires p >= 1
    ensures a / (2 * p) == (a / 2) / p
  {
    var q := a / 2;
    assert q == p * (q / p) + q % p;
    DivModUnique(a, 2 * p, q / p, 2 * (q % p) + a % 2);
  }

  /** One step of the bitwise definition of `&`, also when an operand is 0. */
  lemma AndUnfold(a: nat, b: nat)
    ensures BitAnd(a, b) == 2 * BitAnd(a / 2, b / 2) + (if a % 2 == 1 && b % 2 == 1 then 1 else 0)
  {
    if a == 0 {
      assert BitAnd(a / 2, b / 2) == 0;
    } else if b == 0 {
      assert BitAnd(a / 2, b / 2) == 0;
    }
  }

  /** The bits of x under m and under its complement add up to x. */
  lemma {:induction false} AndComplement(x: nat, m: nat, n: nat)
    requires x < Pow2(n) && m < Pow2(n)
    ensures BitAnd(x, m) + BitAnd(x, Pow2(n) - 1 - m) == x
    decreases n
  {
    if n != 0 && x != 0 {
      var c := Pow2(n) - 1 - m;
      assert Pow2(n) == 2 * Pow2(n - 1);
      assert c / 2 == Pow2(n - 1) - 1 - m / 2 && c % 2 == 1 - m % 2;
      AndComplement(x / 2, m / 2, n - 1);
      AndUnfold(x, m);
      AndUnfold(x, c);
    }
  }

  /** Masking with a and then with a disjoint b leaves nothing. */
  lemma {:induction false} AndOfDisjoint(x: nat, a: nat, b: nat)
    requires BitAnd(a, b) == 0
    ensures BitAnd(BitAnd(x, a), b) == 0
    decreases x
  {
    if x != 0 {
      AndUnfold(a, b);
      AndUnfold(x, a);
      AndUnfold(BitAnd(x, a), b);
      AndOfDisjoint(x / 2, a / 2, b / 2);
    }
  }

  /** A mask and its complement share no bit. */
  lemma {:induction false} AndComplementZero(m: nat, n: nat)
    requires m < Pow2(n)
    ensures BitAnd(Pow2(n) - 1 - m, m) == 0
    decreases n
  {
    if n != 0 {
      var c := Pow2(n) - 1 - m;
      assert Pow2(n) == 2 * Pow2(n - 1);
      assert c / 2 == Pow2(n - 1) - 1 - m / 2 && c % 2 == 1 - m % 2;
      AndComplementZero(m / 2, n - 1);
      AndUnfold(c, m);
    }
  }

  /** OR of two values with no common bit is their sum. */
  lemma {:induction false} OrOfDisjoint(a: nat, b: nat)
    requires BitAnd(a, b) == 0
    ensures BitOr(a, b) == a + b
    decreases a + b
  {
    if a != 0 && b != 0 {
      AndUnfold(a, b);
      OrOfDisjoint(a / 2, b / 2);
    }
  }

  lemma {:induction false} OrCommutes(a: nat, b: nat)
    ensures BitOr(a, b) == BitOr(b, a)
    decreases a + b
  {
    if a != 0 && b != 0 {
      OrCommutes(a / 2, b / 2);
    }
  }

  /** Adding a multiple of 2^32 does not change the value modulo 2^32. */
  lemma ModShift32(x: int, q: int)
    ensures (x + TWO_32 * q) % TWO_32 == x % TWO_32
  {
    DivModUnique(x + TWO_32 * q, TWO_32, x / TWO_32 + q, x % TWO_32);
  }

  /** An inner wrap can be dropped from a sum or a difference taken modulo 2^32. */
  lemma ModInner32(a: int, b: int)
    ensures (a % TWO_32 + b) % TWO_32 == (a + b) % TWO_32
    ensures (b - a % TWO_32) % TWO_32 == (b - a) % TWO_32
  {
    var q := a / TWO_32;
    assert a % TWO_32 == a - TWO_32 * q;
    ModShift32(a + b, -q);
    ModShift32(b - a, q);
  }

  /** `(c << k) | a` is the sum when a fits below bit k and c << k does not overflow. */
  lemma ShlOr(a: nat, c: nat, k: nat)
    requires a < Pow2(k) && c * Pow2(k) < TWO_32 && a < TWO_32 && c < TWO_32
    ensures Shl32(c, k) == c * Pow2(k)
    ensures Or32(Shl32(c, k), a) == a + c * Pow2(k)
  {
    DivModUnique(c * Pow2(k), TWO_32, 0, c * Pow2(k));
    OrDisjoint(a, c, k);
    OrCommutes(a, c * Pow2(k));
  }

  lemma {:induction false} Pow2Add(a: nat, b: nat)
    ensures Pow2(a + b) == Pow2(a) * Pow2(b)
    decreases b
  {
    if b != 0 {
      Pow2Add(a, b - 1);
      assert Pow2(a + b) == 2 * Pow2(a + b - 1);
    }
  }

  lemma {:induction false} AndCommutes(a: nat, b: nat)
    ensures BitAnd(a, b) == BitAnd(b, a)
    decreases a
  {
    if a != 0 && b != 0 {
      AndCommutes(a / 2, b / 2);
    }
  }

  /** Masking with `c << k` keeps the bits `c` selects above bit k: `a & (c << k) == ((a >> k) & c) << k`. */
  lemma {:induction false} AndShifted(a: nat, c: nat, k: nat, q: nat)
    requires q == Pow2(k)
    ensures q >= 1
    ensures BitAnd(a, c * q) == BitAnd(DivBy(a, q), c) * q
    decreases k
  {
    if k == 0 {
      assert q == 1;
    } else {
      var p := Pow2(k - 1);
      var h := c * p;
      assert q == 2 * p;
      assert c * q == 2 * h;
      assert (2 * h) / 2 == h && (2 * h) % 2 == 0;
      AndUnfold(a, 2 * h);
      AndShifted(a / 2, c, k - 1, p);
      DivDouble(a, p);
      var x := BitAnd(DivBy(a, q), c);
      assert DivBy(a / 2, p) == DivBy(a, q);
      assert BitAnd(a / 2, h) == x * p;
      MulDouble(x, p);
    }
  }

  lemma MulDouble(x: int, p: int)
    ensures x * (2 * p) == 2 * (x * p)
  {
  }
}
