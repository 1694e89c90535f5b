/**
 * Timebase arithmetic. The timebase register (`mftb`) is read through an
 * oracle: a sequence of the values successive reads return.
 */
module Timer {
  import opened Types

  /** ticksPerUsec[]: bus clock / 4 in MHz, indexed by the console type; entry 0 is invalid. */
  const TICKS_PER_USEC: seq<u32> := [0, 162 / 4, 243 / 4, 248 / 4]

  function TicksPerUsec(c: Console): (t: u32)
    ensures t == match c case GameCube => 40 case Wii => 60 case WiiU => 62
  {
    TICKS_PER_USEC[ConsoleTypeValue(c)]
  }

  /** `(u64)ticksPerUsec[type] * us`, multiplied in u64. */
  function UsecToTicks(c: Console, us: u32): (t: u64)
    ensures t == TicksPerUsec(c) * us
  {
    var k := TicksPerUsec(c);
    assert k * us <= 62 * us;
    Mul64(k, us)
  }

  /** T_HasElapsed(startTB, us), where `tb` is the timebase value it reads. */
  function HasElapsed(c: Console, tb: u64, startTB: u64, us: u32): bool
  {
    tb >= Add64(startTB, UsecToTicks(c, us))
  }

  /** Monotone in the sampled timebase: once elapsed, a later sample is still elapsed. */
  lemma HasElapsedMonotone(c: Console, tb1: u64, tb2: u64, startTB: u64, us: u32)
    requires tb1 <= tb2 && HasElapsed(c, tb1, startTB, us)
    ensures HasElapsed(c, tb2, startTB, us)
  {
  }

  /** With zero microseconds the test is just tb >= start. */
  lemma HasElapsedZero(c: Console, tb: u64, startTB: u64)
    ensures HasElapsed(c, tb, startTB, 0) <==> tb >= startTB
  {
  }

  /** Without u64 wrap of start + ticks, the test compares the true elapsed tick count. */
  lemma HasElapsedMeaning(c: Console, tb: u64, startTB: u64, us: u32)
    requires startTB + TicksPerUsec(c) * us < TWO_64
    ensures HasElapsed(c, tb, startTB, us) <==> tb - startTB >= TicksPerUsec(c) * us
  {
  }

  /**
   * spinOnTB(ticks): `tb[0]` is the start sample and `tb[1..]` the samples the
   * loop reads. Returns the index of the sample that ended the spin, or None
   * when every sample in the oracle still reads as too early.
   */
  method SpinOnTB(ticks: u64, tb: seq<u64>) returns (stop: Option<nat>)
    requires |tb| >= 1
    ensures stop.Some? ==> 1 <= stop.value < |tb| && Sub64(tb[stop.value], tb[0]) >= ticks
    ensures stop.Some? ==> forall j :: 1 <= j < stop.value ==> Sub64(tb[j], tb[0]) < ticks
    ensures stop.None? ==> forall j :: 1 <= j < |tb| ==> Sub64(tb[j], tb[0]) < ticks
  {
    var start := tb[0];
    var i := 1;
    while i < |tb| && Sub64(tb[i], start) < ticks
      invariant 1 <= i <= |tb|
      invariant forall j :: 1 <= j < i ==> Sub64(tb[j], start) < ticks
    {
      i := i + 1;
    }
    if i < |tb| {
      stop := Some(i);
    } else {
      stop := None;
    }
  }

  /** udelay(us): spins for ticksPerUsec[type] * us ticks. */
  method Udelay(c: Console, us: u32, tb: seq<u64>) returns (stop: Option<nat>)
    requires |tb| >= 1
    ensures stop.Some? ==> 1 <= stop.value < |tb| && Sub64(tb[stop.value], tb[0]) >= TicksPerUsec(c) * us
    ensures stop.Some? ==> forall j :: 1 <= j < stop.value ==> Sub64(tb[j], tb[0]) < TicksPerUsec(c) * us
    ensures stop.None? ==> forall j :: 1 <= j < |tb| ==> Sub64(tb[j], tb[0]) < TicksPerUsec(c) * us
  {
    stop := SpinOnTB(UsecToTicks(c, us), tb);
  }
}
