/**
 * Interrupt control: the MSR.EE save/restore primitive, the handler table
 * and the dispatch of the two Hollywood GPIO interrupts.
 *
 * The Hollywood interrupt bits are not defined in this repository's headers
 * (regs.h is not part of this model); the model uses Hollywood's numbering,
 * GPIOB at bit 10 and GPIO at bit 11, and the Flipper PIC's Hollywood line
 * at bit 14. Only their being distinct single bits matters to the proofs.
 * Handlers are function pointers, here naturals with 0 for NULL.
 */
module Irq {
  import opened Types

  /** MSR_EE = 1 << (31 - 16). */
  const MSR_EE: u32 := 0x8000
  const MSR_EE_BIT: nat := 15

  /** enum irqDev. */
  const IRQDEV_GPIOB: nat := 0
  const IRQDEV_GPIO: nat := 1
  const IRQDEV_MAX: nat := 2

  const HW_IRQDEV_GPIOB: u32 := 0x400
  const HW_IRQDEV_GPIO: u32 := 0x800
  const PI_IRQDEV_HLWD: u32 := 0x4000

  const NULL: nat := 0

  // ------------------------------------------------------------ MSR.EE

  predicate EnabledIn(msr: u32) { BitSet(msr, MSR_EE_BIT) }

  /** `IRQ_Disable`: clear MSR.EE. */
  function Disable(msr: u32): u32 { And32(msr, Not32(MSR_EE)) }

  /** `IRQ_Enable`: set MSR.EE. */
  function Enable(msr: u32): u32 { Or32(msr, MSR_EE) }

  /** `IRQ_DisableSave`: the prior EE, and the MSR afterwards. */
  function DisableSave(msr: u32): (bool, u32)
  {
    var ret := BitAnd(msr, MSR_EE) != 0;
    (ret, if ret then Disable(msr) else msr)
  }

  /** `IRQ_Restore(saved)`: re-enable only if interrupts were on when saved. */
  function Restore(saved: bool, msr: u32): u32
  {
    if saved then Enable(msr) else msr
  }

  lemma EEBit(msr: u32)
    ensures BitAnd(msr, MSR_EE) == if EnabledIn(msr) then MSR_EE else 0
  {
    Pow2Values();
    assert Pow2(15) == MSR_EE;
    AndSingleBit(msr, 15);
  }

  /** Clearing EE takes away exactly that bit and leaves it clear. */
  lemma DisableMeaning(msr: u32)
    ensures BitAnd(Disable(msr), MSR_EE) == 0
    ensures Disable(msr) == msr - BitAnd(msr, MSR_EE)
  {
    Pow2Values();
    AndComplement(msr, MSR_EE, 32);
    AndComplementZero(MSR_EE, 32);
    AndOfDisjoint(msr, Not32(MSR_EE), MSR_EE);
  }

  /**
   * `IRQ_DisableSave` reports whether EE was set, leaves it clear and every
   * other MSR bit as it was; with EE already clear it changes nothing.
   */
  lemma DisableSaveMeaning(msr: u32)
    ensures DisableSave(msr).0 <==> EnabledIn(msr)
    ensures !EnabledIn(DisableSave(msr).1)
    ensures DisableSave(msr).1 == if EnabledIn(msr) then msr - MSR_EE else msr
  {
    EEBit(msr);
    DisableMeaning(msr);
    EEBit(DisableSave(msr).1);
  }

  /** Restoring what `IRQ_DisableSave` returned gives back the MSR it was called on. */
  lemma RestoreUndoesDisableSave(msr: u32)
    ensures Restore(DisableSave(msr).0, DisableSave(msr).1) == msr
  {
    EEBit(msr);
    DisableMeaning(msr);
    if EnabledIn(msr) {
      OrOfDisjoint(Disable(msr), MSR_EE);
    }
  }

  /** Nested critical sections: inner and outer restores, in LIFO order, give back the original MSR. */
  lemma NestedSectionsRestore(msr: u32)
    ensures var (outer, m1) := DisableSave(msr);
      var (inner, m2) := DisableSave(m1);
      !inner && m2 == m1 && Restore(outer, Restore(inner, m2)) == msr
  {
    DisableSaveMeaning(msr);
    var m1 := DisableSave(msr).1;
    EEBit(m1);
    RestoreUndoesDisableSave(msr);
  }

  /**
   * `n` nested `IRQ_DisableSave` calls, outermost first: the flag each
   * returned, and the MSR after the last.
   */
  function SaveNested(msr: u32, n: nat): (r: (seq<bool>, u32))
    ensures |r.0| == n
  {
    if n == 0 then ([], msr)
    else
      var (flags, m) := SaveNested(msr, n - 1);
      var (saved, m') := DisableSave(m);
      (flags + [saved], m')
  }

  /** `IRQ_Restore` on each flag in turn, the last one saved first. */
  function RestoreNested(flags: seq<bool>, msr: u32): u32
  {
    if flags == [] then msr else RestoreNested(flags[..|flags| - 1], Restore(flags[|flags| - 1], msr))
  }

  /** Restoring flags that are all clear changes nothing. */
  lemma {:induction false} RestoreCleared(flags: seq<bool>, msr: u32)
    requires forall k :: 0 <= k < |flags| ==> !flags[k]
    ensures RestoreNested(flags, msr) == msr
  {
    if flags != [] {
      RestoreCleared(flags[..|flags| - 1], msr);
    }
  }

  /**
   * Critical sections nested to any depth: only the outermost save can see
   * EE set, EE is clear inside, every restore but the outermost leaves the
   * MSR as the saves left it, and the last restore gives back the original.
   */
  lemma {:induction false} NestedSectionsRestoreAll(msr: u32, n: nat)
    ensures var (flags, m) := SaveNested(msr, n);
      (n > 0 ==> (flags[0] <==> EnabledIn(msr)) && !EnabledIn(m)) &&
      (forall k :: 1 <= k < n ==> !flags[k]) &&
      (forall j :: 1 <= j <= n ==> RestoreNested(flags[j..], m) == m) &&
      RestoreNested(flags, m) == msr
  {
    if n > 0 {
      NestedSectionsRestoreAll(msr, n - 1);
      var (flags, m) := SaveNested(msr, n - 1);
      var (saved, m') := DisableSave(m);
      DisableSaveMeaning(m);
      var all := flags + [saved];
      assert all[..n - 1] == flags;
      if n == 1 {
        DisableSaveMeaning(msr);
        RestoreUndoesDisableSave(msr);
      } else {
        assert !saved && m' == m;
      }
      forall j | 1 <= j <= n
        ensures RestoreNested(all[j..], m') == m'
      {
        RestoreCleared(all[j..], m');
      }
    }
  }

  // ---------------------------------------------------------- handlers

  datatype Event = Dispatch(handler: nat, dev: nat) | Ack(bits: u32)

  /** `IRQ_RegisterHandler`: None when the slot is occupied (the assert fails). */
  function Register(handlers: seq<nat>, dev: nat, f: nat): (r: Option<seq<nat>>)
    requires dev < |handlers|
    ensures r.None? <==> handlers[dev] != NULL
    ensures r.Some? ==> |r.value| == |handlers| && r.value[dev] == f
    ensures r.Some? ==> forall d :: 0 <= d < |handlers| && d != dev ==> r.value[d] == handlers[d]
  {
    if handlers[dev] != NULL then None else Some(handlers[dev := f])
  }

  /** `IRQ_DoHandle`: the handler is called with its own device id; an empty slot does nothing. */
  function DoHandle(handlers: seq<nat>, dev: nat): (r: seq<Event>)
    requires dev < |handlers|
    ensures handlers[dev] == NULL <==> r == []
    ensures r != [] ==> r == [Dispatch(handlers[dev], dev)]
  {
    if handlers[dev] != NULL then [Dispatch(handlers[dev], dev)] else []
  }

  /** Handle one pending source: dispatch, then acknowledge exactly its bit. */
  function HandleSource(handlers: seq<nat>, intsr: u32, dev: nat, bit: u32): seq<Event>
    requires dev < |handlers|
  {
    if BitAnd(intsr, bit) != 0 then DoHandle(handlers, dev) + [Ack(bit)] else []
  }

  /** `IRQ_Handle`, given the one sample of HW_PPCIRQFLAG it takes. */
  function Handle(c: Console, handlers: seq<nat>, intsr: u32): seq<Event>
    requires |handlers| == IRQDEV_MAX
  {
    if c == Wii || c == WiiU then
      HandleSource(handlers, intsr, IRQDEV_GPIOB, HW_IRQDEV_GPIOB)
        + HandleSource(handlers, intsr, IRQDEV_GPIO, HW_IRQDEV_GPIO)
    else []
  }

  function Acks(events: seq<Event>): seq<u32>
  {
    if events == [] then []
    else (if events[0].Ack? then [events[0].bits] else []) + Acks(events[1..])
  }

  function Dispatches(events: seq<Event>): seq<Event>
  {
    if events == [] then []
    else (if events[0].Dispatch? then [events[0]] else []) + Dispatches(events[1..])
  }

  lemma {:induction false} AcksDistribute(a: seq<Event>, b: seq<Event>)
    ensures Acks(a + b) == Acks(a) + Acks(b)
  {
    if a == [] {
      assert a + b == b;
    } else {
      var t, ab := a[1..], a + b;
      AcksDistribute(t, b);
      assert ab[0] == a[0] && ab[1..] == t + b;
      var head := if a[0].Ack? then [a[0].bits] else [];
      assert Acks(ab) == head + Acks(t + b);
      assert head + (Acks(t) + Acks(b)) == (head + Acks(t)) + Acks(b);
    }
  }

  lemma {:induction false} DispatchesDistribute(a: seq<Event>, b: seq<Event>)
    ensures Dispatches(a + b) == Dispatches(a) + Dispatches(b)
  {
    if a == [] {
      assert a + b == b;
    } else {
      var t, ab := a[1..], a + b;
      DispatchesDistribute(t, b);
      assert ab[0] == a[0] && ab[1..] == t + b;
      var head := if a[0].Dispatch? then [a[0]] else [];
      assert Dispatches(ab) == head + Dispatches(t + b);
      assert head + (Dispatches(t) + Dispatches(b)) == (head + Dispatches(t)) + Dispatches(b);
    }
  }

  /** One source contributes its acknowledgement when pending, and its handler call when also registered. */
  lemma SourceEvents(handlers: seq<nat>, intsr: u32, dev: nat, bit: u32)
    requires dev < |handlers|
    ensures Acks(HandleSource(handlers, intsr, dev, bit)) == Pending(intsr, bit)
    ensures Dispatches(HandleSource(handlers, intsr, dev, bit)) ==
      if BitAnd(intsr, bit) != 0 then DoHandle(handlers, dev) else []
  {
    if BitAnd(intsr, bit) != 0 {
      var d := DoHandle(handlers, dev);
      AcksDistribute(d, [Ack(bit)]);
      DispatchesDistribute(d, [Ack(bit)]);
      assert [Ack(bit)][1..] == [];
      if d != [] {
        assert d[1..] == [];
      }
    }
  }

  function Pending(intsr: u32, bit: u32): seq<u32>
  {
    if BitAnd(intsr, bit) != 0 then [bit] else []
  }

  /**
   * On Wii and Wii U the acknowledged bits are exactly the pending ones among
   * GPIOB then GPIO, whether or not a handler is registered; a GameCube
   * acknowledges nothing.
   */
  lemma HandleAcksPending(c: Console, handlers: seq<nat>, intsr: u32)
    requires |handlers| == IRQDEV_MAX
    ensures Acks(Handle(c, handlers, intsr)) ==
      if c == GameCube then [] else Pending(intsr, HW_IRQDEV_GPIOB) + Pending(intsr, HW_IRQDEV_GPIO)
  {
    if c != GameCube {
      var a := HandleSource(handlers, intsr, IRQDEV_GPIOB, HW_IRQDEV_GPIOB);
      var b := HandleSource(handlers, intsr, IRQDEV_GPIO, HW_IRQDEV_GPIO);
      AcksDistribute(a, b);
      SourceEvents(handlers, intsr, IRQDEV_GPIOB, HW_IRQDEV_GPIOB);
      SourceEvents(handlers, intsr, IRQDEV_GPIO, HW_IRQDEV_GPIO);
    }
  }

  /** The handlers called are those of pending sources with a registered handler, each with its own id. */
  lemma HandleDispatchesRegistered(c: Console, handlers: seq<nat>, intsr: u32)
    requires |handlers| == IRQDEV_MAX
    ensures Dispatches(Handle(c, handlers, intsr)) ==
      if c == GameCube then []
      else ((if BitAnd(intsr, HW_IRQDEV_GPIOB) != 0 then DoHandle(handlers, IRQDEV_GPIOB) else [])
            + (if BitAnd(intsr, HW_IRQDEV_GPIO) != 0 then DoHandle(handlers, IRQDEV_GPIO) else []))
  {
    if c != GameCube {
      var a := HandleSource(handlers, intsr, IRQDEV_GPIOB, HW_IRQDEV_GPIOB);
      var b := HandleSource(handlers, intsr, IRQDEV_GPIO, HW_IRQDEV_GPIO);
      DispatchesDistribute(a, b);
      SourceEvents(handlers, intsr, IRQDEV_GPIOB, HW_IRQDEV_GPIOB);
      SourceEvents(handlers, intsr, IRQDEV_GPIO, HW_IRQDEV_GPIO);
    }
  }

  /** GPIOB | GPIO, the Hollywood mask IRQ_Init leaves on Wii and Wii U. */
  lemma GpioMaskValue()
    ensures Or32(HW_IRQDEV_GPIOB, HW_IRQDEV_GPIO) == 0xc00
  {
    assert Pow2(11) == 0x800;
    OrDisjoint(0x400, 1, 11);
  }

  /**
   * A write of `written` to a write-one-to-clear status register (PI_INTSR,
   * HW_PPCIRQFLAG, the Latte status registers): the bits written stop being
   * pending, the others stay.
   */
  function Acknowledge(status: u32, written: u32): u32
  {
    And32(status, Not32(written))
  }

  /** An acknowledgement clears exactly the pending bits that were written. */
  lemma AcknowledgeMeaning(status: u32, written: u32)
    ensures Acknowledge(status, written) == status - BitAnd(status, written)
    ensures BitAnd(Acknowledge(status, written), written) == 0
  {
    Pow2Values();
    AndComplement(status, written, 32);
    AndComplementZero(written, 32);
    AndOfDisjoint(status, Not32(written), written);
  }

  /** Writing a status register's own value back, as `IRQ_Init` does, leaves nothing pending. */
  lemma AcknowledgeAll(status: u32)
    ensures Acknowledge(status, status) == 0
  {
    Pow2Values();
    AndComplementZero(status, 32);
    AndCommutes(Not32(status), status);
  }

  /** The Latte registers of the three PowerPC cores, INT1 then INT2 for each. */
  const LATTE_REGS: nat := 6

  // --------------------------------------------------------------- the code

  class InterruptController {
    const console: Console
    /** The machine state register; only EE matters here. */
    var msr: u32
    var handlers: array<nat>
    /** PI_INTMR and HW_PPCIRQMASK, the Flipper and Hollywood enable masks. */
    var piIntMask: u32
    var hwIrqMask: u32
    /** PI_INTSR and HW_PPCIRQFLAG, the Flipper and Hollywood pending bits. */
    var piIntStatus: u32
    var hwIrqFlag: u32
    /** The Wii U Latte enable (LT_PPCnINTmEN) and status (LT_PPCnINTmSTS) registers. */
    var latteEnable: seq<u32>
    var latteStatus: seq<u32>

    ghost predicate Valid()
      reads this
    {
      handlers.Length == IRQDEV_MAX && |latteEnable| == LATTE_REGS && |latteStatus| == LATTE_REGS
    }

    constructor (c: Console, msr0: u32)
      ensures Valid() && fresh(handlers) && console == c && msr == msr0
    {
      console := c;
      msr := msr0;
      handlers := new nat[IRQDEV_MAX](_ => NULL);
      piIntMask, hwIrqMask, piIntStatus, hwIrqFlag := 0, 0, 0, 0;
      latteEnable := seq(LATTE_REGS, _ => 0);
      latteStatus := seq(LATTE_REGS, _ => 0);
    }

    /** `IRQ_DisableSave`. */
    method DisableSaveEE() returns (saved: bool)
      modifies this
      ensures (saved, msr) == DisableSave(old(msr))
      ensures handlers == old(handlers) && piIntMask == old(piIntMask) && hwIrqMask == old(hwIrqMask)
      ensures piIntStatus == old(piIntStatus) && hwIrqFlag == old(hwIrqFlag)
      ensures latteEnable == old(latteEnable) && latteStatus == old(latteStatus)
    {
      saved := BitAnd(msr, MSR_EE) != 0;
      if saved {
        msr := And32(msr, Not32(MSR_EE));
      }
    }

    /** `IRQ_Restore`. */
    method RestoreEE(saved: bool)
      modifies this
      ensures msr == Restore(saved, old(msr))
      ensures handlers == old(handlers) && piIntMask == old(piIntMask) && hwIrqMask == old(hwIrqMask)
      ensures piIntStatus == old(piIntStatus) && hwIrqFlag == old(hwIrqFlag)
      ensures latteEnable == old(latteEnable) && latteStatus == old(latteStatus)
    {
      if saved {
        msr := Or32(msr, MSR_EE);
      }
    }

    /**
     * `IRQ_Init`: every Flipper interrupt masked and acknowledged; on Wii and
     * Wii U the Hollywood line unmasked in the Flipper PIC, every Hollywood
     * interrupt acknowledged and only GPIOB and GPIO unmasked; on Wii U every
     * Latte interrupt of the three cores masked and acknowledged; every
     * handler slot emptied.
     */
    method Init()
      requires Valid()
      modifies this, handlers
      ensures Valid() && handlers == old(handlers) && msr == old(msr)
      ensures forall d :: 0 <= d < IRQDEV_MAX ==> handlers[d] == NULL
      ensures piIntMask == if console == GameCube then 0 else PI_IRQDEV_HLWD
      ensures piIntStatus == 0
      ensures console != GameCube ==> hwIrqMask == HW_IRQDEV_GPIOB + HW_IRQDEV_GPIO && hwIrqFlag == 0
      ensures console == GameCube ==> hwIrqMask == old(hwIrqMask) && hwIrqFlag == old(hwIrqFlag)
      ensures console == WiiU ==> forall k :: 0 <= k < LATTE_REGS ==> latteEnable[k] == 0 && latteStatus[k] == 0
      ensures console != WiiU ==> latteEnable == old(latteEnable) && latteStatus == old(latteStatus)
    {
      piIntMask := 0;
      AcknowledgeAll(piIntStatus);
      piIntStatus := Acknowledge(piIntStatus, piIntStatus);
      if console == Wii || console == WiiU {
        piIntMask := Or32(piIntMask, PI_IRQDEV_HLWD);
        MaskHollywood();
      }
      if console == WiiU {
        MaskLatte();
      }
      handlers[IRQDEV_GPIOB] := NULL;
      handlers[IRQDEV_GPIO] := NULL;
    }

    /** The Hollywood part of `IRQ_Init`: everything masked and acknowledged, then GPIOB and GPIO unmasked. */
    method MaskHollywood()
      requires Valid()
      modifies this
      ensures Valid() && handlers == old(handlers) && msr == old(msr)
      ensures piIntMask == old(piIntMask) && piIntStatus == old(piIntStatus)
      ensures latteEnable == old(latteEnable) && latteStatus == old(latteStatus)
      ensures hwIrqMask == HW_IRQDEV_GPIOB + HW_IRQDEV_GPIO && hwIrqFlag == 0
    {
      hwIrqMask := 0;
      AcknowledgeAll(hwIrqFlag);
      hwIrqFlag := Acknowledge(hwIrqFlag, hwIrqFlag);
      GpioMaskValue();
      hwIrqMask := Or32(hwIrqMask, Or32(HW_IRQDEV_GPIOB, HW_IRQDEV_GPIO));
    }

    /** The Wii U part of `IRQ_Init`: each core's two enables zeroed and two statuses acknowledged. */
    method MaskLatte()
      requires Valid()
      modifies this
      ensures Valid() && handlers == old(handlers) && msr == old(msr)
      ensures piIntMask == old(piIntMask) && hwIrqMask == old(hwIrqMask)
      ensures piIntStatus == old(piIntStatus) && hwIrqFlag == old(hwIrqFlag)
      ensures forall k :: 0 <= k < LATTE_REGS ==> latteEnable[k] == 0 && latteStatus[k] == 0
    {
      var sts := latteStatus;
      forall k | 0 <= k < LATTE_REGS {
        AcknowledgeAll(sts[k]);
      }
      latteEnable := seq(LATTE_REGS, _ => 0);
      latteStatus := seq(LATTE_REGS, k requires 0 <= k < LATTE_REGS => Acknowledge(sts[k], sts[k]));
    }

    /** `IRQ_RegisterHandler`; `failed` when the slot was taken. */
    method RegisterHandler(dev: nat, f: nat) returns (failed: bool)
      requires Valid() && dev < IRQDEV_MAX
      modifies handlers
      ensures failed <==> Register(old(handlers[..]), dev, f).None?
      ensures failed ==> handlers[..] == old(handlers[..])
      ensures !failed ==> handlers[..] == Register(old(handlers[..]), dev, f).value
    {
      if handlers[dev] != NULL {
        return true;
      }
      handlers[dev] := f;
      return false;
    }

    /** `IRQ_Handle`, with the value it reads from HW_PPCIRQFLAG; returns the calls and acknowledgements made. */
    method HandleIrq(intsr: u32) returns (events: seq<Event>)
      requires Valid()
      ensures events == Handle(console, handlers[..], intsr)
    {
      events := [];
      if console == Wii || console == WiiU {
        if BitAnd(intsr, HW_IRQDEV_GPIOB) != 0 {
          if handlers[IRQDEV_GPIOB] != NULL {
            events := events + [Dispatch(handlers[IRQDEV_GPIOB], IRQDEV_GPIOB)];
          }
          events := events + [Ack(HW_IRQDEV_GPIOB)];
        }
        if BitAnd(intsr, HW_IRQDEV_GPIO) != 0 {
          if handlers[IRQDEV_GPIO] != NULL {
            events := events + [Dispatch(handlers[IRQDEV_GPIO], IRQDEV_GPIO)];
          }
          events := events + [Ack(HW_IRQDEV_GPIO)];
        }
      }
    }
  }
}
