/**
 * The boot loader's own `strtol` family. It departs from ISO C on purpose
 * (no overflow clamping, no `errno`, and `*endPtr` is left after any
 * whitespace, sign and prefix even when no digit follows). A C string is
 * a byte sequence; reading at or past its length gives the terminating NUL.
 * The accumulator is a machine word of `width` values: every step wraps
 * modulo `width` as two's-complement hardware does.
 */
module Stdlib {
  import opened Types
  import Ctype


  /** The byte at `i`, or the NUL terminator past the end. */
  function At(s: seq<u8>, i: nat): u8
  {
    if i < |s| then s[i] else 0
  }

  /** An ASCII string literal as C bytes. */
  function Ascii(t: string): (s: seq<u8>)
    requires forall k :: 0 <= k < |t| ==> t[k] as int < 0x80
    ensures |s| == |t| && forall k :: 0 <= k < |t| ==> s[k] == t[k] as int
  {
    seq(|t|, k requires 0 <= k < |t| => t[k] as int)
  }

  // ---------------------------------------------------------------- setup

  /** What `setup` leaves: the position after whitespace, sign and prefix, the base, and the sign. */
  datatype Setup = Setup(pos: nat, base: int, negative: bool)

  /** The first position from `i` on that does not hold whitespace. */
  function SkipSpace(s: seq<u8>, i: nat): (j: nat)
    requires i <= |s|
    ensures i <= j <= |s| && !Ctype.IsSpace(At(s, j))
    ensures forall k :: i <= k < j ==> Ctype.IsSpace(At(s, k))
    decreases |s| - i
  {
    if Ctype.IsSpace(At(s, i)) then SkipSpace(s, i + 1) else i
  }

  /** The position and sign after an optional '-' or '+' at `i`. */
  function Sign(s: seq<u8>, i: nat): (nat, bool)
  {
    if At(s, i) == '-' as int then (i + 1, true)
    else if At(s, i) == '+' as int then (i + 1, false)
    else (i, false)
  }

  /** Base 0 picks 16 after "0x", 8 after a '0' followed by a digit (skipping the '0'), else 10. */
  function GuessBase(s: seq<u8>, i: nat, base: int): (pb: (nat, int))
    ensures base != 0 ==> pb == (i, base)
    ensures base == 0 ==> pb.1 in {8, 10, 16}
  {
    if base != 0 then (i, base)
    else if At(s, i) == '0' as int && At(s, i + 1) == 'x' as int then (i + 2, 16)
    else if At(s, i) == '0' as int && Ctype.IsDigit(At(s, i + 1)) then (i + 1, 8)
    else (i, 10)
  }

  function SetupOf(s: seq<u8>, base: int): Setup
  {
    var j := SkipSpace(s, 0);
    var (k, negative) := Sign(s, j);
    var (pos, b) := GuessBase(s, k, base);
    Setup(pos, b, negative)
  }

  /** The base `setup` accepts; any other trips its assertion. */
  predicate SupportedBase(base: int)
  {
    base == 8 || base == 10 || base == 16
  }

  /** `setup`. */
  method SetupScan(s: seq<u8>, base: int) returns (st: Setup)
    ensures st == SetupOf(s, base)
  {
    var i := 0;
    while Ctype.IsSpace(At(s, i))
      invariant i <= |s| && SkipSpace(s, i) == SkipSpace(s, 0)
      decreases |s| - i
    {
      i := i + 1;
    }
    var negative := false;
    if At(s, i) == '-' as int {
      negative := true;
      i := i + 1;
    } else if At(s, i) == '+' as int {
      negative := false;
      i := i + 1;
    }
    var b := base;
    if b == 0 {
      if At(s, i) == '0' as int && At(s, i + 1) == 'x' as int {
        i := i + 2;
        b := 16;
      } else if At(s, i) == '0' as int && Ctype.IsDigit(At(s, i + 1)) {
        i := i + 1;
        b := 8;
      } else {
        b := 10;
      }
    }
    st := Setup(i, b, negative);
  }

  /** The setup skips whitespace, takes at most one sign, and picks a prefix only when asked to guess the base. */
  lemma SetupMeaning(s: seq<u8>, base: int)
    ensures var st := SetupOf(s, base);
      var j := SkipSpace(s, 0);
      var signed := At(s, j) == '-' as int || At(s, j) == '+' as int;
      st.negative == (At(s, j) == '-' as int) &&
      (base != 0 ==> st.base == base && st.pos == j + (if signed then 1 else 0)) &&
      (base == 0 ==> SupportedBase(st.base))
  {
  }

  // --------------------------------------------------------------- digits

  /** The value a digit or letter stands for: '0'..'9' are 0..9, letters of either case 10..35. */
  function DigitValue(c: u8): (d: int)
    ensures Ctype.IsDigit(c) ==> d == c - '0' as int && 0 <= d < 10
    ensures Ctype.IsAlpha(c) ==> d == Ctype.ToLower(c) - 'a' as int + 10 && 10 <= d < 36
  {
    if Ctype.IsUpper(c) then c - ('A' as int - 10)
    else if Ctype.IsLower(c) then c - ('a' as int - 10)
    else if Ctype.IsDigit(c) then c - '0' as int
    else c
  }

  /** Which characters a conversion takes as digits. */
  datatype DigitRule =
    | AsWritten  // stop at non-alphanumerics, at letters when the base is above 10, and when the value exceeds the base
    | Intended   // take any alphanumeric whose value is below the base

  predicate Accepts(rule: DigitRule, c: u8, base: int)
  {
    match rule
    case AsWritten => Ctype.IsAlnum(c) && !(!Ctype.IsDigit(c) && base > 10) && !(DigitValue(c) > base)
    case Intended => Ctype.IsAlnum(c) && DigitValue(c) < base
  }

  /** The end of the run of accepted digits starting at `i`. */
  function RunEnd(rule: DigitRule, s: seq<u8>, i: nat, base: int): (e: nat)
    ensures i <= e && (i <= |s| ==> e <= |s|) && !Accepts(rule, At(s, e), base)
    ensures forall k :: i <= k < e ==> Accepts(rule, At(s, k), base)
    decreases |s| - i
  {
    if At(s, i) != 0 && Accepts(rule, At(s, i), base) then RunEnd(rule, s, i + 1, base) else i
  }

  /** The run ends at `j` exactly when every character before `j` is accepted and the one at `j` is not. */
  lemma {:induction false} RunEndIs(rule: DigitRule, s: seq<u8>, i: nat, j: nat, base: int)
    requires i <= j
    requires forall k :: i <= k < j ==> Accepts(rule, At(s, k), base)
    requires !Accepts(rule, At(s, j), base)
    ensures RunEnd(rule, s, i, base) == j
    decreases j - i
  {
    if i < j {
      assert Accepts(rule, At(s, i), base);
      RunEndIs(rule, s, i + 1, j, base);
    }
  }

  /** The value of a run of digits in `base`, most significant first, in unbounded arithmetic. */
  function Value(ds: seq<u8>, base: int): int
  {
    if ds == [] then 0 else Value(ds[..|ds| - 1], base) * base + DigitValue(ds[|ds| - 1])
  }

  /** The same value accumulated in a word of `width` values, wrapping at every step. */
  function WrappedValue(ds: seq<u8>, base: int, width: nat): int
    requires width > 0
  {
    if ds == [] then 0 else (WrappedValue(ds[..|ds| - 1], base, width) * base + DigitValue(ds[|ds| - 1])) % width
  }

  /** Wrapping at every step gives the unbounded value reduced once at the end. */
  lemma {:induction false} WrappedIsReduced(ds: seq<u8>, base: int, width: nat)
    requires width > 0
    ensures WrappedValue(ds, base, width) == Value(ds, base) % width
  {
    if ds != [] {
      var front := ds[..|ds| - 1];
      WrappedIsReduced(front, base, width);
      var v := Value(front, base);
      var d := DigitValue(ds[|ds| - 1]);
      ModStep(v, base, d, width);
    }
  }

  lemma ModStep(v: int, base: int, d: int, width: nat)
    requires width > 0
    ensures ((v % width) * base + d) % width == (v * base + d) % width
  {
    var q := v / width;
    assert v == q * width + v % width;
    assert v * base + d == (v % width) * base + d + (q * base) * width;
    ModShift((v % width) * base + d, q * base, width);
  }

  lemma ModShift(x: int, m: int, width: nat)
    requires width > 0
    ensures (x + m * width) % width == x % width
  {
    DivModUnique(x + m * width, width, x / width + m, x % width);
  }

  // ----------------------------------------------------------- conversion

  /** What a conversion gives back: the machine word (as an unsigned value) and the end position, or a panic. */
  datatype Result = Panicked | Converted(bits: int, end: nat)

  /**
   * The conversion shared by `strtol` and `strtoll` in a word of `width`
   * values: setup, the run of accepted digits, their value wrapped to the
   * word, negated (modulo the width) after a '-'.
   */
  function Conversion(rule: DigitRule, s: seq<u8>, base: int, width: nat): Result
    requires width > 0
  {
    var st := SetupOf(s, base);
    if !SupportedBase(st.base) then Panicked
    else
      var e := RunEnd(rule, s, st.pos, st.base);
      var v := Value(s[st.pos..e], st.base) % width;
      Converted(if st.negative then (width - v) % width else v, e)
  }

  /** `strtol`'s conversion, with the intended digit rule, in a word of `width` values. */
  method Convert(s: seq<u8>, base: int, width: nat) returns (r: Result)
    requires width > 0
    ensures r == Conversion(Intended, s, base, width)
  {
    var st := SetupScan(s, base);
    if !SupportedBase(st.base) {
      return Panicked;
    }
    var i, val := Accumulate(s, st.pos, st.base, width);
    if st.negative {
      val := (width - val) % width;
    }
    r := Converted(val, i);
  }

  /** The digit loop: it stops at the first character the intended rule refuses, with the digits' value wrapped to the word. */
  method Accumulate(s: seq<u8>, start: nat, base: int, width: nat) returns (i: nat, val: int)
    requires start <= |s| && width > 0
    ensures i == RunEnd(Intended, s, start, base)
    ensures val == Value(s[start..i], base) % width
  {
    i, val := start, 0;
    ghost var e := RunEnd(Intended, s, start, base);
    while At(s, i) != 0
      invariant start <= i <= e && val == WrappedValue(s[start..i], base, width)
      decreases |s| - i
    {
      var tmp := At(s, i);
      if !Ctype.IsAlnum(tmp) {
        break;
      }
      var digit := DigitValue(tmp);
      if digit >= base {
        break;
      }
      assert s[start..i + 1][..i - start] == s[start..i];
      val := (val * base + digit) % width;
      i := i + 1;
    }
    assert i == e;
    WrappedIsReduced(s[start..i], base, width);
  }

  /** A word of `width` values read as two's complement. */
  function Signed(bits: int, width: int): int
  {
    if bits >= width / 2 then bits - width else bits
  }

  /** `strtol`: a 32-bit `long`. */
  method Strtol(s: seq<u8>, base: int) returns (r: Result)
    ensures Conversion(Intended, s, base, TWO_32).Panicked? ==> r.Panicked?
    ensures Conversion(Intended, s, base, TWO_32).Converted? ==>
      r == Conversion(Intended, s, base, TWO_32).(bits := Signed(Conversion(Intended, s, base, TWO_32).bits, TWO_32))
  {
    r := Convert(s, base, TWO_32);
    if r.Converted? {
      r := r.(bits := Signed(r.bits, TWO_32));
    }
  }

  /** `strtoul`: the bits of `strtol` as an unsigned 32-bit value. */
  method Strtoul(s: seq<u8>, base: int) returns (r: Result)
    ensures r == Conversion(Intended, s, base, TWO_32)
    ensures r.Converted? ==> 0 <= r.bits < TWO_32
  {
    r := Convert(s, base, TWO_32);
  }

  /** `strtoll`: a 64-bit `long long`. */
  method Strtoll(s: seq<u8>, base: int) returns (r: Result)
    ensures Conversion(Intended, s, base, TWO_64).Panicked? ==> r.Panicked?
    ensures Conversion(Intended, s, base, TWO_64).Converted? ==>
      r == Conversion(Intended, s, base, TWO_64).(bits := Signed(Conversion(Intended, s, base, TWO_64).bits, TWO_64))
  {
    r := Convert(s, base, TWO_64);
    if r.Converted? {
      r := r.(bits := Signed(r.bits, TWO_64));
    }
  }

  /**
   * `strtoull` as written: the source's `strtoll`, with its digit rule, cast
   * through the 32-bit `unsigned long`.
   */
  function StrtoullAsWritten(s: seq<u8>, base: int): (r: Result)
    ensures r.Converted? ==> 0 <= r.bits < TWO_32
  {
    var r := Conversion(AsWritten, s, base, TWO_64);
    if r.Converted? then r.(bits := r.bits % TWO_32) else r
  }

  /** `strtoull` as intended: the 64 bits of `strtoll` as an unsigned value. */
  method Strtoull(s: seq<u8>, base: int) returns (r: Result)
    ensures r == Conversion(Intended, s, base, TWO_64)
    ensures r.Converted? ==> 0 <= r.bits < TWO_64
  {
    r := Convert(s, base, TWO_64);
  }

  // ----------------------------------------------------------- properties

  /** The digits of `n` in `base`, most significant first, with lowercase letters above 9. */
  function Format(n: nat, base: int): (ds: seq<u8>)
    requires 2 <= base <= 36
    ensures |ds| >= 1 && forall k :: 0 <= k < |ds| ==> Ctype.IsAlnum(ds[k]) && DigitValue(ds[k]) < base
    decreases n
  {
    if n < base then [DigitChar(n)]
    else
      DivShrinks(n, base);
      var front := Format(n / base, base);
      var last := [DigitChar(n % base)];
      assert forall k :: 0 <= k < |front| ==> (front + last)[k] == front[k];
      front + last
  }

  lemma DivShrinks(n: nat, base: int)
    requires 2 <= base <= n
    ensures 0 <= n / base < n && n == (n / base) * base + n % base
  {
  }

  function DigitChar(d: nat): (c: u8)
    requires d < 36
    ensures Ctype.IsAlnum(c) && DigitValue(c) == d
  {
    if d < 10 then '0' as int + d else 'a' as int + d - 10
  }

  /** The digits of `Format(n, base)` read back as `n`. */
  lemma {:induction false} FormatRoundTrip(n: nat, base: int)
    requires 2 <= base <= 36
    ensures Value(Format(n, base), base) == n
    decreases n
  {
    var ds := Format(n, base);
    if n >= base {
      DivShrinks(n, base);
      var q, r := n / base, n % base;
      FormatRoundTrip(q, base);
      assert ds[..|ds| - 1] == Format(q, base);
      assert ds[|ds| - 1] == DigitChar(r);
      assert Value(ds, base) == Value(Format(q, base), base) * base + r;
    }
  }

  /** A minus sign when `negative`, nothing otherwise. */
  function SignText(negative: bool): (p: seq<u8>)
    ensures |p| == if negative then 1 else 0
  {
    if negative then ['-' as int] else []
  }

  /**
   * Parsing a formatted number, with or without a leading minus and with its
   * base given explicitly, reads all of its digits back when a character
   * that is not a digit follows: the number wrapped to the word, negated
   * modulo the word after a minus.
   */
  lemma ParseFormatted(negative: bool, n: nat, base: int, rest: seq<u8>, width: nat)
    requires SupportedBase(base) && width > 0
    requires !Accepts(Intended, At(rest, 0), base)
    ensures Conversion(Intended, SignText(negative) + Format(n, base) + rest, base, width) ==
      Converted(if negative then (width - n % width) % width else n % width, |SignText(negative)| + |Format(n, base)|)
  {
    var p, ds := SignText(negative), Format(n, base);
    var s := p + ds + rest;
    FormatRoundTrip(n, base);
    SetupOfSigned(negative, ds, rest, base);
    RunOfFormatted(Intended, p, ds, rest, base);
    assert s[|p|..|p| + |ds|] == ds;
    ConversionOf(Intended, s, base, width, Setup(|p|, base, negative), |p| + |ds|, n);
  }

  /** The conversion's result, from its setup, the end of its run and the digits' value. */
  lemma ConversionOf(rule: DigitRule, s: seq<u8>, base: int, width: nat, st: Setup, e: nat, n: int)
    requires width > 0 && SupportedBase(base) && SetupOf(s, base) == st && st.base == base
    requires RunEnd(rule, s, st.pos, base) == e && st.pos <= e <= |s| && Value(s[st.pos..e], base) == n
    ensures Conversion(rule, s, base, width) ==
      Converted(if st.negative then (width - n % width) % width else n % width, e)
  {
  }

  lemma SetupOfSigned(negative: bool, ds: seq<u8>, rest: seq<u8>, base: int)
    requires |ds| >= 1 && Ctype.IsAlnum(ds[0]) && base != 0
    ensures SetupOf(SignText(negative) + ds + rest, base) == Setup(|SignText(negative)|, base, negative)
  {
    var p := SignText(negative);
    var s := p + ds + rest;
    assert s[0] == if negative then '-' as int else ds[0];
    assert SkipSpace(s, 0) == 0;
    assert s[|p|] == ds[0];
  }

  lemma {:induction false} RunOfFormatted(rule: DigitRule, p: seq<u8>, ds: seq<u8>, rest: seq<u8>, base: int)
    requires forall k :: 0 <= k < |ds| ==> Accepts(rule, ds[k], base)
    requires !Accepts(rule, At(rest, 0), base)
    ensures RunEnd(rule, p + ds + rest, |p|, base) == |p| + |ds|
  {
    var s := p + ds + rest;
    forall k | |p| <= k < |p| + |ds|
      ensures Accepts(rule, At(s, k), base)
    {
      assert At(s, k) == ds[k - |p|];
    }
    assert At(s, |p| + |ds|) == At(rest, 0);
    RunEndIs(rule, s, |p|, |p| + |ds|, base);
  }

  /** A magnitude up to half the word, negated modulo the word, reads back as its negative in two's complement. */
  lemma SignedNegation(n: nat, width: nat)
    requires width >= 2 && width % 2 == 0 && n <= width / 2
    ensures Signed((width - n % width) % width, width) == -(n as int)
  {
    var h := width / 2;
    DivModUnique(width, 2, h, 0);
    if n == 0 {
      DivModUnique(width, width, 1, 0);
      assert (width - n % width) % width == 0;
    } else {
      DivModUnique(n, width, 0, n);
      DivModUnique(width - n, width, 0, width - n);
      assert (width - n % width) % width == width - n >= h;
    }
  }

  /** `strtol` reads back every `long`: the decimal text of `v`, signed, gives `v`. */
  lemma StrtolRoundTrip(v: int, rest: seq<u8>)
    requires -0x8000_0000 <= v < 0x8000_0000
    requires !Accepts(Intended, At(rest, 0), 10)
    ensures var n: nat := if v < 0 then -v else v;
      Conversion(Intended, SignText(v < 0) + Format(n, 10) + rest, 10, TWO_32).bits == if v < 0 then (TWO_32 + v) % TWO_32 else v
    ensures var n: nat := if v < 0 then -v else v;
      Signed(Conversion(Intended, SignText(v < 0) + Format(n, 10) + rest, 10, TWO_32).bits, TWO_32) == v
  {
    var n: nat := if v < 0 then -v else v;
    ParseFormatted(v < 0, n, 10, rest, TWO_32);
    if v < 0 {
      SignedNegation(n, TWO_32);
      DivModUnique(n, TWO_32, 0, n);
    } else {
      DivModUnique(n, TWO_32, 0, n);
    }
  }

  /**
   * The two digit rules differ exactly on a character worth the base in base
   * 8 or 10 (which only the rule as written takes) and on the letters a to f
   * in base 16 (which only the intended rule takes).
   */
  lemma RulesDiffer(c: u8, base: int)
    requires SupportedBase(base)
    ensures Accepts(AsWritten, c, base) != Accepts(Intended, c, base) <==>
      Ctype.IsAlnum(c) && ((base <= 10 && DigitValue(c) == base) || (base == 16 && Ctype.IsAlpha(c) && DigitValue(c) < 16))
    ensures Accepts(AsWritten, c, base) && !Accepts(Intended, c, base) <==> base <= 10 && Ctype.IsAlnum(c) && DigitValue(c) == base
  {
    if Ctype.IsDigit(c) {
    } else if Ctype.IsAlpha(c) {
    }
  }

  /** As written, base 16 never consumes a letter: the run holds decimal digits only. */
  lemma HexRunHasNoLetters(s: seq<u8>, i: nat)
    ensures forall k :: i <= k < RunEnd(AsWritten, s, i, 16) ==> Ctype.IsDigit(At(s, k))
  {
  }

  /** "0x1f" with base 0: as written the 'f' stops the conversion at 1; intended is 31. */
  lemma HexLetterStops()
    ensures Conversion(AsWritten, Ascii("0x1f"), 0, TWO_32) == Converted(1, 3)
    ensures Conversion(Intended, Ascii("0x1f"), 0, TWO_32) == Converted(31, 4)
  {
    var s := Ascii("0x1f");
    assert s == [0x30, 0x78, 0x31, 0x66];
    assert SkipSpace(s, 0) == 0;
    assert SetupOf(s, 0) == Setup(2, 16, false);
    assert RunEnd(AsWritten, s, 2, 16) == 3 by {
      assert RunEnd(AsWritten, s, 3, 16) == 3;
    }
    assert RunEnd(Intended, s, 2, 16) == 4 by {
      assert RunEnd(Intended, s, 4, 16) == 4;
      assert RunEnd(Intended, s, 3, 16) == 4;
    }
    assert s[2..3] == [0x31];
    assert s[2..4] == [0x31, 0x66];
    assert [0x31, 0x66][..1] == [0x31];
  }

  /** "8" in base 8: as written the digit equal to the base is taken (8, end 1); intended is 0 with nothing read. */
  lemma DigitEqualToBase()
    ensures Conversion(AsWritten, Ascii("8"), 8, TWO_32) == Converted(8, 1)
    ensures Conversion(Intended, Ascii("8"), 8, TWO_32) == Converted(0, 0)
  {
    var s := Ascii("8");
    assert s == [0x38];
    assert SkipSpace(s, 0) == 0;
    assert SetupOf(s, 8) == Setup(0, 8, false);
    assert RunEnd(AsWritten, s, 0, 8) == 1 by {
      assert RunEnd(AsWritten, s, 1, 8) == 1;
    }
    assert s[0..1] == [0x38];
  }

  /**
   * A decimal number from 2^32 up to 2^64 - 1 read by `strtoull`: as written
   * only its low 32 bits survive; intended is the number itself.
   */
  lemma StrtoullTruncates(n: nat)
    requires TWO_32 <= n < TWO_64
    ensures StrtoullAsWritten(Format(n, 10), 10) == Converted(n % TWO_32, |Format(n, 10)|)
    ensures Conversion(Intended, Format(n, 10), 10, TWO_64) == Converted(n, |Format(n, 10)|)
  {
    var s := Format(n, 10);
    ParseFormatted(false, n, 10, [], TWO_64);
    assert SignText(false) + s + [] == s;
    DivModUnique(n, TWO_64, 0, n);
    FormatRoundTrip(n, 10);
    forall k | 0 <= k < |s|
      ensures Accepts(AsWritten, s[k], 10)
    {
    }
    RunOfFormatted(AsWritten, [], s, [], 10);
    assert [] + s + [] == s;
    SetupOfSigned(false, s, [], 10);
    ConversionOf(AsWritten, s, 10, TWO_32, Setup(0, 10, false), |s|, n);
    AsWrittenKeepsLowHalf(s, 10);
  }

  /** The digits of 2^32, "4294967296": as written `strtoull` gives 0. */
  lemma StrtoullTwoTo32()
    ensures StrtoullAsWritten(Format(TWO_32, 10), 10).bits == 0
    ensures Conversion(Intended, Format(TWO_32, 10), 10, TWO_64).bits == TWO_32
  {
    StrtoullTruncates(TWO_32);
  }

  /**
   * As written, `strtoull` is the source's 32-bit `strtoul`: the same digits,
   * the same end, and the value reduced modulo 2^32 whether or not a '-'
   * negates it. On "0x1f" it therefore gives 1, like `strtoul`.
   */
  lemma AsWrittenKeepsLowHalf(s: seq<u8>, base: int)
    ensures StrtoullAsWritten(s, base) == Conversion(AsWritten, s, base, TWO_32)
    ensures StrtoullAsWritten(Ascii("0x1f"), 0) == Converted(1, 3)
  {
    var st := SetupOf(s, base);
    if SupportedBase(st.base) {
      var e := RunEnd(AsWritten, s, st.pos, st.base);
      var v := Value(s[st.pos..e], st.base);
      LowHalfOfWord(v);
      LowHalfOfNegation(v % TWO_64);
      LowHalfOfWord(v % TWO_64);
    }
    HexLetterStops();
    LowHalfOfWord(1);
  }

  /** Reducing modulo 2^64 and then 2^32 is reducing modulo 2^32. */
  lemma LowHalfOfWord(x: int)
    ensures x % TWO_64 % TWO_32 == x % TWO_32
  {
    var q := x / TWO_64;
    assert x == x % TWO_64 + (q * TWO_32) * TWO_32;
    ModShift(x % TWO_64, q * TWO_32, TWO_32);
  }

  /** Negating modulo 2^64 and keeping the low half is negating the low half modulo 2^32. */
  lemma LowHalfOfNegation(v: int)
    requires 0 <= v < TWO_64
    ensures (TWO_64 - v) % TWO_64 % TWO_32 == (TWO_32 - v % TWO_32) % TWO_32
  {
    LowHalfOfWord(TWO_64 - v);
    var k := v / TWO_32;
    assert TWO_64 - v == (TWO_32 - v % TWO_32) + (TWO_32 - k - 1) * TWO_32;
    ModShift(TWO_32 - v % TWO_32, TWO_32 - k - 1, TWO_32);
  }
}
