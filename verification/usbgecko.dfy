/**
 * The USB Gecko adapter driver (src/drivers/usbgecko.c): every exchange
 * with the adapter is a 2-byte read/write EXI transfer on chip select 0 at
 * 32 MHz. Init probes slot B, then slot A, for the adapter's ID word.
 */
module UsbGecko {
  import opened Types
  import Drivers
  import Exi
  import Output

  const UG_SLOTA: int := 0
  const UG_SLOTB: int := 1

  /** The command that asks an adapter for its ID, and the ID it answers. */
  const ADAPTER_QUERY: u32 := 0x9000
  const ADAPTER_ID: u32 := 0x0470
  /** The command that asks for the transmit status, and its ready bit. */
  const TX_QUERY: u32 := 0xc000
  const TX_READY: u32 := 0x0400
  /** The command that sends a character in bits 4-11. */
  const TX_SEND: u32 := 0xb000

  /** A transfer in both directions at once. */
  const MODE_RDWR: u32 := 3

  /** The CR word of a 2-byte read/write transfer: length-1 = 1, RDWR, TSTART. */
  const RDWR2_CR: u32 := 0x19

  /** `usbgeckoCallback`, as a non-NULL entry of the callback table. */
  const GECKO_CALLBACK: nat := 3

  /** The USB Gecko `outputDevice`: named, not graphical. */
  const GECKO_DEVICE: Output.Device := Output.Device(2, false, true)

  /** The reply half-word of a transfer whose DATA register read back as `reply`. */
  function Received(reply: u32): u32
  {
    Exi.Unpack(2, reply)
  }

  /** The reply is the top half of the DATA word. */
  lemma ReceivedIsHighHalf(reply: u32)
    ensures Received(reply) == reply / TWO_16 && Received(reply) < TWO_16
  {
    Exi.UnpackMeaning(2, reply);
    Pow2Values();
  }

  /** `usbgeckoIsAdapterPresent`, given the DATA word of the probe. */
  predicate AdapterPresent(reply: u32)
  {
    Received(reply) == ADAPTER_ID
  }

  /** `usbgeckoTXReady`, given the DATA word of the status query. */
  predicate TxReady(reply: u32)
  {
    And32(Received(reply), TX_READY) != 0
  }

  /** The command word that sends byte `c`. */
  function CharWord(c: u8): u32
  {
    Or32(TX_SEND, Shl32(c, 4))
  }

  /**
   * The character sits in bits 4-11, clear of the command bits above: the
   * adapter gets back the byte from the word, and the command nibble is 0xb.
   */
  lemma CharWordFields(c: u8)
    ensures CharWord(c) == TX_SEND + 16 * c
    ensures CharWord(c) < TWO_16
    ensures (CharWord(c) / 16) % 256 == c && CharWord(c) / 4096 == 0xb
  {
    Pow2Values();
    DivModUnique(c * 16, TWO_32, 0, c * 16);
    assert Pow2(12) == 4096;
    OrDisjoint(c * 16, 0xb, 12);
    OrCommutes(TX_SEND, c * 16);
    DivModUnique(TX_SEND + 16 * c, 16, 0xb00 + c, 0);
    DivModUnique(0xb00 + c, 256, 0xb, c);
    DivModUnique(TX_SEND + 16 * c, 4096, 0xb, 16 * c);
  }

  /** The command words that send `t`, one per character. */
  function Words(t: seq<u8>): seq<u32>
  {
    if t == [] then [] else Words(t[..|t| - 1]) + [CharWord(t[|t| - 1])]
  }

  /** Probing prefers slot B: the slot `usbgeckoInit` settles on for the two probe replies. */
  function ChosenSlot(replyB: u32, replyA: u32): int
  {
    if AdapterPresent(replyB) then UG_SLOTB
    else if AdapterPresent(replyA) then UG_SLOTA
    else -1
  }

  /**
   * `usbgeckoTransaction`: select the port, exchange 2 bytes, deselect.
   * `reply` is the DATA register once the transfer is done.
   */
  method Transaction(exi: Exi.ExiBus, port: u32, tx: u32, reply: u32) returns (rx: u32)
    requires exi.Valid() && port < 3 && tx < TWO_16
    modifies exi.csr, exi.cr, exi.data
    ensures rx == Received(reply)
    ensures exi.csr[..] == old(exi.csr[..])[port := 0]
    ensures exi.data[..] == old(exi.data[..])[port := Exi.Pack(2, tx)]
    ensures exi.cr[..] == old(exi.cr[..])[port := RDWR2_CR]
  {
    ModeRdwrBits();
    Exi.ControlWordFields(2, MODE_RDWR);
    exi.Select(port, 0, 32);
    var r := exi.XferImm(port, 2, MODE_RDWR, tx, reply);
    exi.Deselect(port);
    rx := r.out.value;
  }

  /** The probe of `usbgeckoInit`: slot B, then slot A only if B has no adapter. */
  method Probe(exi: Exi.ExiBus, replyB: u32, replyA: u32) returns (slot: int)
    requires exi.Valid()
    modifies exi.csr, exi.cr, exi.data
    ensures slot == ChosenSlot(replyB, replyA)
  {
    var rxB := Transaction(exi, UG_SLOTB as u32, ADAPTER_QUERY, replyB);
    if rxB == ADAPTER_ID {
      return UG_SLOTB;
    }
    var rxA := Transaction(exi, UG_SLOTA as u32, ADAPTER_QUERY, replyA);
    if rxA == ADAPTER_ID {
      return UG_SLOTA;
    }
    return -1;
  }

  /** Both direction bits are set in the read/write mode. */
  lemma ModeRdwrBits()
    ensures Exi.RwField(MODE_RDWR) == Some(Exi.EXI_CR_RW_RDWR)
    ensures And32(MODE_RDWR, Exi.EXI_MODE_READ) != 0 && And32(MODE_RDWR, Exi.EXI_MODE_WRITE) != 0
  {
    Pow2Values();
    OrDisjoint(1, 1, 1);
    AndSingleBit(MODE_RDWR, 0);
    AndSingleBit(MODE_RDWR, 1);
  }

  /**
   * The driver's own state: `slot`, `usbgeckoDrv.state` and the two debug
   * hooks of `H_PlatOps` it borrows (0 is NULL).
   */
  class Gecko {
    var slot: int
    var state: Drivers.DriverState
    var debugWriteStr: nat
    var debugWriteChar: nat

    constructor (hookStr: nat, hookChar: nat)
      ensures slot == -1 && state == Drivers.NotReady
      ensures debugWriteStr == hookStr && debugWriteChar == hookChar
    {
      slot := -1;
      state := Drivers.NotReady;
      debugWriteStr, debugWriteChar := hookStr, hookChar;
    }

    /**
     * `usbgeckoInit`. `replyB` and `replyA` are the DATA words the two ID
     * probes read back; slot A is probed only when slot B has no adapter.
     */
    method Init(console: Console, exi: Exi.ExiBus, reg: Drivers.Registry, out: Output.OutputTable,
                replyB: u32, replyA: u32) returns (panicked: bool)
      requires exi.Valid() && reg.Valid() && out.Valid()
      modifies this, exi.csr, exi.cr, exi.data, reg.callbacks, out, out.devices
      ensures out.Valid() && out.devices == old(out.devices)
      // Without a ready EXI driver: NEED_DEP and nothing else changes.
      ensures old(exi.state) != Drivers.Ready ==>
        !panicked && state == Drivers.NeedDep &&
        slot == old(slot) && debugWriteStr == old(debugWriteStr) && debugWriteChar == old(debugWriteChar) &&
        unchanged(exi.csr, exi.cr, exi.data, reg.callbacks, out, out.devices)
      ensures old(exi.state) == Drivers.Ready ==> slot == ChosenSlot(replyB, replyA)
      // No adapter: NO_HARDWARE, and the hooks are as before.
      ensures old(exi.state) == Drivers.Ready && slot == -1 ==>
        !panicked && state == Drivers.NoHardware &&
        debugWriteStr == old(debugWriteStr) && debugWriteChar == old(debugWriteChar) &&
        unchanged(reg.callbacks, out, out.devices)
      // An adapter: the hooks stay cleared off Wii U, the callback is added, READY.
      ensures old(exi.state) == Drivers.Ready && slot != -1 ==>
        (if console == WiiU then debugWriteStr == old(debugWriteStr) && debugWriteChar == old(debugWriteChar)
         else debugWriteStr == 0 && debugWriteChar == 0) &&
        var added := Drivers.AddCallback(old(reg.callbacks[..]), GECKO_CALLBACK);
        (added.None? ==> panicked) &&
        (added.Some? ==>
          reg.callbacks[..] == added.value && state == Drivers.Ready &&
          (panicked <==> old(out.numDevices) >= Output.MAX_DEV) &&
          (!panicked ==> out.Registered() == old(out.Registered()) + [GECKO_DEVICE]))
    {
      if exi.state != Drivers.Ready {
        state := Drivers.NeedDep;
        return false;
      }
      var str, chr := 0, 0;
      if console != WiiU {
        str := debugWriteStr;
        debugWriteStr := 0;
        chr := debugWriteChar;
        debugWriteChar := 0;
      }
      slot := Probe(exi, replyB, replyA);
      if slot == -1 {
        state := Drivers.NoHardware;
        if console != WiiU {
          debugWriteStr := str;
          debugWriteChar := chr;
        }
        return false;
      }
      panicked := reg.AddCb(GECKO_CALLBACK);
      if panicked {
        return;
      }
      state := Drivers.Ready;
      panicked := out.AddDevice(GECKO_DEVICE);
    }

    /**
     * The spin of `usbgeckoWriteChar` on `usbgeckoTXReady`. `status(k)` is
     * the DATA word of the k-th status query; `ready` is a query that shows
     * the bit, so the spin ends. Returns the number of queries that were
     * not ready.
     */
    method AwaitTx(exi: Exi.ExiBus, status: nat -> u32, ready: nat) returns (busy: nat)
      requires exi.Valid() && 0 <= slot < 3 && TxReady(status(ready))
      modifies exi.csr, exi.cr, exi.data
      ensures busy <= ready && TxReady(status(busy))
      ensures forall k :: 0 <= k < busy ==> !TxReady(status(k))
      ensures exi.data[..] == old(exi.data[..])[slot := Exi.Pack(2, TX_QUERY)]
      ensures exi.csr[..] == old(exi.csr[..])[slot := 0]
      ensures exi.cr[..] == old(exi.cr[..])[slot := RDWR2_CR]
    {
      busy := 0;
      var rx := Transaction(exi, slot as u32, TX_QUERY, status(0));
      while And32(rx, TX_READY) == 0
        invariant busy <= ready && rx == Received(status(busy))
        invariant forall k :: 0 <= k < busy ==> !TxReady(status(k))
        invariant exi.csr[..] == old(exi.csr[..])[slot := 0]
        invariant exi.data[..] == old(exi.data[..])[slot := Exi.Pack(2, TX_QUERY)]
        invariant exi.cr[..] == old(exi.cr[..])[slot := RDWR2_CR]
        decreases ready - busy
      {
        assert !TxReady(status(busy));
        busy := busy + 1;
        rx := Transaction(exi, slot as u32, TX_QUERY, status(busy));
      }
    }

    /**
     * `usbgeckoWriteChar`: wait until the adapter is ready, then send the
     * character's command word. Returns the number of status queries that
     * were not ready and the word sent.
     */
    method WriteChar(exi: Exi.ExiBus, c: u8, status: nat -> u32, ready: nat) returns (busy: nat, word: u32)
      requires exi.Valid() && 0 <= slot < 3 && TxReady(status(ready))
      modifies exi.csr, exi.cr, exi.data
      ensures busy <= ready && TxReady(status(busy))
      ensures forall k :: 0 <= k < busy ==> !TxReady(status(k))
      ensures word == CharWord(c)
      ensures exi.data[..] == old(exi.data[..])[slot := Exi.Pack(2, word)]
      ensures exi.csr[..] == old(exi.csr[..])[slot := 0]
      ensures exi.cr[..] == old(exi.cr[..])[slot := RDWR2_CR]
    {
      busy := AwaitTx(exi, status, ready);
      CharWordFields(c);
      word := CharWord(c);
      var _ := Transaction(exi, slot as u32, word, 0);
    }

    /**
     * `usbgeckoWriteStr`: `usbgeckoWriteChar` for each character before the
     * NUL. `status(i)` and `ready(i)` are the status replies and a ready
     * query for the i-th character. Returns the words sent, in order.
     */
    method WriteStr(exi: Exi.ExiBus, s: seq<u8>, status: nat -> nat -> u32, ready: nat -> nat)
      returns (words: seq<u32>)
      requires exi.Valid() && 0 <= slot < 3
      requires forall i :: 0 <= i < |s| ==> TxReady(status(i)(ready(i)))
      modifies exi.csr, exi.cr, exi.data
      ensures words == Words(Output.CStr(s))
    {
      words := [];
      var i := 0;
      while i < |s| && s[i] != 0
        invariant 0 <= i <= |s| && 0 !in s[..i]
        invariant words == Words(s[..i])
      {
        var _, w := WriteChar(exi, s[i], status(i), ready(i));
        assert s[..i + 1] == s[..i] + [s[i]];
        words := words + [w];
        i := i + 1;
      }
      Output.CStrUnique(s, i);
    }

    /** `usbgeckoCleanup`. */
    method Cleanup(reg: Drivers.Registry)
      requires reg.Valid()
      modifies this, reg.callbacks
      ensures reg.callbacks[..] == Drivers.RemoveCallback(old(reg.callbacks[..]), GECKO_CALLBACK)
      ensures state == Drivers.NotReady && slot == old(slot)
      ensures debugWriteStr == old(debugWriteStr) && debugWriteChar == old(debugWriteChar)
    {
      reg.RemoveCb(GECKO_CALLBACK);
      state := Drivers.NotReady;
    }
  }

  /** The words sent for a string decode, through `CharWordFields`, to its characters. */
  lemma {:induction false} WordsDecode(t: seq<u8>, i: nat)
    requires i < |t|
    ensures |Words(t)| == |t|
    ensures (Words(t)[i] / 16) % 256 == t[i] && Words(t)[i] / 4096 == 0xb
  {
    WordsLength(t[..|t| - 1]);
    if i < |t| - 1 {
      WordsDecode(t[..|t| - 1], i);
    } else {
      CharWordFields(t[i]);
    }
  }

  lemma {:induction false} WordsLength(t: seq<u8>)
    ensures |Words(t)| == |t|
  {
    if t != [] {
      WordsLength(t[..|t| - 1]);
    }
  }
}
