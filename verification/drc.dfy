/**
 * The Wii U GamePad text console (src/drivers/drc_ipc_text.c): text goes to
 * the ARM-side loader through the legacy IPC block, up to three characters
 * per PPCMSG word, each word handed over with the X1 doorbell.
 */
module Drc {
  import opened Types
  import Drivers
  import Output

  /**
   * `LATTE_IPC_CMD_PRINT`. Its header is not part of this model; the value
   * here is an assumption, and every property below only needs its low 24
   * bits to be clear.
   */
  const CMD_PRINT: u32 := 0x0100_0000
  /** `HW_IPC_PPCCTRL_X1`, bit 0 of PPCCTRL. */
  const HW_IPC_PPCCTRL_X1: u32 := 1

  /** The GamePad console `outputDevice`: named and graphical. */
  const DRC_DEVICE: Output.Device := Output.Device(3, true, true)

  function Banner(): seq<u8>
  {
    Output.Text("Wii U GamePad Text Console driver is now enabled\n")
  }

  /** The doorbell has been answered: the ARM side cleared X1. */
  predicate X1Clear(ctrl: u32)
  {
    And32(ctrl, HW_IPC_PPCCTRL_X1) == 0
  }

  /** The message `drcWriteChar` sends for `c`. */
  function CharMessage(c: u8): u32
  {
    Or32(CMD_PRINT, Shl32(c, 16))
  }

  /** The message for one chunk of one to three characters, as the switch builds it. */
  function SwitchMessage(chunk: seq<u8>): u32
    requires 1 <= |chunk| <= 3
  {
    if |chunk| == 3 then
      Or32(CMD_PRINT, Or32(Or32(Shl32(chunk[0], 16), Shl32(chunk[1], 8)), chunk[2]))
    else if |chunk| == 2 then
      Or32(CMD_PRINT, Or32(Shl32(chunk[0], 16), Shl32(chunk[1], 8)))
    else
      Or32(CMD_PRINT, Shl32(chunk[0], 16))
  }

  /** Character k of a chunk, or 0 past its end. */
  function CharAt(chunk: seq<u8>, k: nat): u8
  {
    if k < |chunk| then chunk[k] else 0
  }

  /** A chunk's message as a number: CMD_PRINT plus its characters at bits 16, 8 and 0. */
  function Message(chunk: seq<u8>): u32
  {
    CMD_PRINT + CharAt(chunk, 0) * TWO_16 + CharAt(chunk, 1) * TWO_8 + CharAt(chunk, 2)
  }

  /** The messages `drcWriteStr` sends: one per three characters, the last one possibly short. */
  function Messages(t: seq<u8>): seq<u32>
    decreases |t|
  {
    if t == [] then []
    else if |t| >= 3 then [Message(t[..3])] + Messages(t[3..])
    else [Message(t)]
  }

  /** The character bytes a message carries, high to low. */
  function Lanes(m: u32): seq<u8>
  {
    [(m / TWO_16) % TWO_8, (m / TWO_8) % TWO_8, m % TWO_8]
  }

  /** The characters the receiver reads from a message: its lanes up to the first zero. */
  function Carried(m: u32): seq<u8>
  {
    Output.CStr(Lanes(m))
  }

  /** The characters of a sequence of messages, concatenated in order. */
  function Decode(ms: seq<u32>): seq<u8>
  {
    if ms == [] then [] else Carried(ms[0]) + Decode(ms[1..])
  }

  /** Three bytes at bits 16, 8 and 0 sit side by side above nothing and below CMD_PRINT. */
  lemma PackedBytes(a: u8, b: u8, c: u8)
    ensures Or32(Or32(Shl32(a, 16), Shl32(b, 8)), c) == a * TWO_16 + b * TWO_8 + c
    ensures Or32(Shl32(a, 16), Shl32(b, 8)) == a * TWO_16 + b * TWO_8
    ensures Shl32(a, 16) == a * TWO_16
  {
    Pow2Values();
    DivModUnique(a * TWO_16, TWO_32, 0, a * TWO_16);
    DivModUnique(b * TWO_8, TWO_32, 0, b * TWO_8);
    OrDisjoint(b * TWO_8, a, 16);
    OrCommutes(a * TWO_16, b * TWO_8);
    OrDisjoint(c, a * TWO_8 + b, 8);
    OrCommutes(a * TWO_16 + b * TWO_8, c);
  }

  /** CMD_PRINT sits above any 24-bit payload, so OR-ing it in adds it. */
  lemma CommandAbove(payload: u32)
    requires payload < Pow2(24)
    ensures Or32(CMD_PRINT, payload) == CMD_PRINT + payload
  {
    Pow2Values();
    OrDisjoint(payload, 1, 24);
    OrCommutes(CMD_PRINT, payload);
  }

  /**
   * The switch's ORs add: every character lands in its own byte lane, so
   * the word it builds is CMD_PRINT plus the characters at bits 16, 8 and 0.
   */
  lemma SwitchMessageAdds(chunk: seq<u8>)
    requires 1 <= |chunk| <= 3
    ensures SwitchMessage(chunk) == Message(chunk)
  {
    var a, b, c := CharAt(chunk, 0), CharAt(chunk, 1), CharAt(chunk, 2);
    PackedBytes(a, b, c);
    var payload := a * TWO_16 + b * TWO_8 + c;
    assert payload < Pow2(24) by { Pow2Values(); }
    CommandAbove(payload);
    if |chunk| == 2 {
      assert c == 0;
    } else if |chunk| == 1 {
      assert b == 0 && c == 0;
      CommandAbove(a * TWO_16);
    }
  }

  /** The lanes of a message are the chunk's characters, and 0 where it has none. */
  lemma MessageLanes(chunk: seq<u8>)
    requires 1 <= |chunk| <= 3
    ensures Lanes(Message(chunk)) == chunk + seq(3 - |chunk|, _ => 0)
  {
    var a, b, c := CharAt(chunk, 0), CharAt(chunk, 1), CharAt(chunk, 2);
    LanesOf(a, b, c);
    assert [a, b, c] == chunk + seq(3 - |chunk|, _ => 0);
  }

  /** The lanes of CMD_PRINT + a*2^16 + b*2^8 + c are a, b and c. */
  lemma LanesOf(a: u8, b: u8, c: u8)
    ensures CMD_PRINT + a * TWO_16 + b * TWO_8 + c < TWO_32
    ensures Lanes(CMD_PRINT + a * TWO_16 + b * TWO_8 + c) == [a, b, c]
  {
    var m := CMD_PRINT + a * TWO_16 + b * TWO_8 + c;
    var hi := 0x100 + a;
    var mid := 0x10000 + a * TWO_8 + b;
    assert m == TWO_16 * hi + (b * TWO_8 + c);
    DivModUnique(m, TWO_16, hi, b * TWO_8 + c);
    DivModUnique(hi, TWO_8, 1, a);
    assert m == TWO_8 * mid + c;
    DivModUnique(m, TWO_8, mid, c);
    assert mid == TWO_8 * hi + b;
    DivModUnique(mid, TWO_8, hi, b);
  }

  /** `drcWriteChar`'s message is the one-character chunk's, and carries exactly its character. */
  lemma CharMessageCarries(c: u8)
    requires c != 0
    ensures CharMessage(c) == Message([c]) && Carried(CharMessage(c)) == [c]
  {
    SwitchMessageAdds([c]);
    MessageLanes([c]);
    assert Lanes(Message([c])) == [c, 0, 0];
  }

  /** A string of n characters needs ceil(n/3) messages; none for an empty one. */
  lemma {:induction false} MessagesCount(t: seq<u8>)
    ensures |Messages(t)| == (|t| + 2) / 3
    decreases |t|
  {
    if |t| >= 3 {
      MessagesCount(t[3..]);
    }
  }

  /**
   * The round trip: reading the characters back out of the messages, in
   * order, gives the string exactly, for any string without a NUL.
   */
  lemma {:induction false} MessagesDecode(t: seq<u8>)
    requires 0 !in t
    ensures Decode(Messages(t)) == t
    decreases |t|
  {
    if t != [] {
      var n := if |t| >= 3 then 3 else |t|;
      var chunk := t[..n];
      MessageLanes(chunk);
      assert Lanes(Message(chunk)) == chunk + seq(3 - n, _ => 0);
      Output.CStrUnique(Lanes(Message(chunk)), n);
      assert Lanes(Message(chunk))[..n] == chunk;
      if |t| >= 3 {
        MessagesDecode(t[3..]);
        assert t == chunk + t[3..];
      } else {
        assert chunk == t;
      }
    }
  }

  /** One turn of `drcWriteStr`'s loop peels the next chunk off the rest of the string. */
  lemma MessagesStep(t: seq<u8>, pos: nat, n: nat)
    requires pos < |t| && n == (if |t| - pos >= 3 then 3 else |t| - pos)
    ensures Messages(t[pos..]) == [Message(t[pos..pos + n])] + Messages(t[pos + n..])
  {
    assert t[pos..][..n] == t[pos..pos + n];
    if n == 3 {
      assert t[pos..][3..] == t[pos + 3..];
    } else {
      assert t[pos..] == t[pos..pos + n];
      assert t[pos + n..] == [];
    }
  }

  /** The doorbell registers, the messages posted so far and `drcDrv.state`. */
  class DrcConsole {
    var ppcmsg: u32
    var ppcctrl: u32
    var state: Drivers.DriverState

    constructor ()
      ensures state == Drivers.NotReady && ppcmsg == 0 && ppcctrl == 0
    {
      ppcmsg, ppcctrl := 0, 0;
      state := Drivers.NotReady;
    }

    /**
     * Post one message and wait for the ARM side to clear X1. `ctrl(k)` is
     * the k-th PPCCTRL read after the doorbell; `answered` is a read that
     * shows X1 clear, so the wait ends. Returns the reads that still saw X1.
     */
    method Post(msg: u32, ctrl: nat -> u32, answered: nat) returns (busy: nat)
      requires X1Clear(ctrl(answered))
      modifies this
      ensures ppcmsg == msg && state == old(state)
      ensures busy <= answered && ppcctrl == ctrl(busy) && X1Clear(ppcctrl)
      ensures forall k :: 0 <= k < busy ==> !X1Clear(ctrl(k))
    {
      ppcmsg := msg;
      ppcctrl := HW_IPC_PPCCTRL_X1;
      busy := 0;
      ppcctrl := ctrl(0);
      while And32(ppcctrl, HW_IPC_PPCCTRL_X1) != 0
        invariant busy <= answered && ppcctrl == ctrl(busy) && ppcmsg == msg && state == old(state)
        invariant forall k :: 0 <= k < busy ==> !X1Clear(ctrl(k))
        decreases answered - busy
      {
        busy := busy + 1;
        ppcctrl := ctrl(busy);
      }
    }

    /** `drcWriteChar`: a single-character message. */
    method WriteChar(c: u8, ctrl: nat -> u32, answered: nat) returns (msg: u32)
      requires X1Clear(ctrl(answered))
      modifies this
      ensures msg == CharMessage(c) && ppcmsg == msg && X1Clear(ppcctrl) && state == old(state)
    {
      msg := CharMessage(c);
      var _ := Post(msg, ctrl, answered);
    }

    /**
     * `drcWriteStr`: the string before its NUL in chunks of three. `ctrl(j)`
     * and `answered(j)` are the PPCCTRL reads for the j-th message. Returns
     * the messages posted, in order.
     */
    method WriteStr(s: seq<u8>, ctrl: nat -> nat -> u32, answered: nat -> nat) returns (msgs: seq<u32>)
      requires forall j :: 0 <= j < |s| ==> X1Clear(ctrl(j)(answered(j)))
      modifies this
      ensures msgs == Messages(Output.CStr(s)) && state == old(state)
      ensures msgs != [] ==> ppcmsg == msgs[|msgs| - 1]
      ensures msgs == [] ==> ppcmsg == old(ppcmsg) && ppcctrl == old(ppcctrl)
    {
      var t := Output.CStr(s);
      var len := |t|;
      var pos := 0;
      msgs := [];
      while len != 0
        invariant 0 <= len && pos + len == |t| && |msgs| <= pos
        invariant msgs + Messages(t[pos..]) == Messages(t) && state == old(state)
        invariant msgs != [] ==> ppcmsg == msgs[|msgs| - 1]
        invariant msgs == [] ==> ppcmsg == old(ppcmsg) && ppcctrl == old(ppcctrl)
        decreases len
      {
        var n := if len >= 3 then 3 else len;
        var msg := PostChunk(t, pos, n, ctrl(|msgs|), answered(|msgs|));
        ghost var rest := Messages(t[pos + n..]);
        assert msgs + ([msg] + rest) == (msgs + [msg]) + rest;
        msgs := msgs + [msg];
        len := len - n;
        pos := pos + n;
      }
      assert t[pos..] == [];
    }

    /** One turn of `drcWriteStr`'s loop: post the chunk of n characters at pos. */
    method PostChunk(t: seq<u8>, pos: nat, n: nat, ctrl: nat -> u32, answered: nat) returns (msg: u32)
      requires pos < |t| && n == (if |t| - pos >= 3 then 3 else |t| - pos)
      requires X1Clear(ctrl(answered))
      modifies this
      ensures Messages(t[pos..]) == [msg] + Messages(t[pos + n..])
      ensures ppcmsg == msg && state == old(state)
    {
      msg := SwitchMessage(t[pos..pos + n]);
      SwitchMessageAdds(t[pos..pos + n]);
      MessagesStep(t, pos, n);
      var _ := Post(msg, ctrl, answered);
    }

    /** `drcInit`: READY first, then the banner, then the output device. */
    method Init(out: Output.OutputTable, ctrl: nat -> nat -> u32, answered: nat -> nat)
      returns (msgs: seq<u32>, panicked: bool)
      requires out.Valid()
      requires forall j :: 0 <= j < |Banner()| ==> X1Clear(ctrl(j)(answered(j)))
      modifies this, out, out.devices
      ensures out.Valid() && out.devices == old(out.devices)
      ensures state == Drivers.Ready
      ensures msgs == Messages(Output.CStr(Banner()))
      ensures panicked <==> old(out.numDevices) >= Output.MAX_DEV
      ensures !panicked ==> out.Registered() == old(out.Registered()) + [DRC_DEVICE]
    {
      state := Drivers.Ready;
      msgs := WriteStr(Banner(), ctrl, answered);
      panicked := out.AddDevice(DRC_DEVICE);
    }
  }
}
