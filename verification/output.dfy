/**
 * The output-device registry (src/output.c) and the `putchar`/`puts`
 * fan-out over it (src/libc/output.c).
 */
module Output {
  import opened Types

  const MAX_DEV: nat := 16

  /**
   * An `outputDevice` descriptor. `id` stands for its `writeChar`/`writeStr`
   * pair; `named` says whether it has a name, which only the log line uses.
   */
  datatype Device = Device(id: nat, isGraphical: bool, named: bool)

  /** One call the fan-out makes into a device. */
  datatype Call = WriteChar(dev: nat, c: u8) | WriteStr(dev: nat, s: seq<u8>)

  /** The characters of a C string: everything before the first NUL. */
  function CStr(s: seq<u8>): (r: seq<u8>)
    ensures r <= s && 0 !in r
    ensures |r| < |s| ==> s[|r|] == 0
  {
    if s == [] || s[0] == 0 then [] else [s[0]] + CStr(s[1..])
  }

  /** A NUL-free prefix ended by a NUL or by the end of `s` is the C string. */
  lemma CStrUnique(s: seq<u8>, i: nat)
    requires i <= |s| && 0 !in s[..i] && (i < |s| ==> s[i] == 0)
    ensures CStr(s) == s[..i]
  {
  }

  /** A byte string without a NUL is its own C string. */
  lemma CStrAll(s: seq<u8>)
    requires 0 !in s
    ensures CStr(s) == s
  {
    CStrUnique(s, |s|);
  }

  /** A string literal as bytes: each character's code, taken modulo 256. */
  function Text(s: string): (r: seq<u8>)
    ensures |r| == |s| && forall i :: 0 <= i < |s| ==> r[i] == (s[i] as int) % TWO_8
  {
    seq(|s|, i requires 0 <= i < |s| => (s[i] as int) % TWO_8)
  }

  /** `(char)c`: the low byte of an int. */
  function Byte(c: int): u8 { c % TWO_8 }

  /** Whether the fan-out passes over `d`. */
  predicate Skipped(d: Device, noGraphics: bool) { noGraphics && d.isGraphical }

  /** The devices `putchar` and `puts` reach, in table order. */
  function Targets(devs: seq<Device>, noGraphics: bool): seq<Device>
  {
    if devs == [] then []
    else
      var last := devs[|devs| - 1];
      Targets(devs[..|devs| - 1], noGraphics) + (if Skipped(last, noGraphics) then [] else [last])
  }

  /** A device is reached iff it is registered and not skipped. */
  lemma {:induction false} TargetsMembers(devs: seq<Device>, noGraphics: bool, d: Device)
    ensures d in Targets(devs, noGraphics) <==> d in devs && !Skipped(d, noGraphics)
  {
    if devs != [] {
      TargetsMembers(devs[..|devs| - 1], noGraphics, d);
      assert devs == devs[..|devs| - 1] + [devs[|devs| - 1]];
    }
  }

  /** The fan-out keeps table order: targets of a concatenation concatenate. */
  lemma {:induction false} TargetsConcat(a: seq<Device>, b: seq<Device>, noGraphics: bool)
    ensures Targets(a + b, noGraphics) == Targets(a, noGraphics) + Targets(b, noGraphics)
  {
    if b != [] {
      TargetsConcat(a, b[..|b| - 1], noGraphics);
      assert (a + b)[..|a + b| - 1] == a + b[..|b| - 1];
    } else {
      assert a + b == a;
    }
  }

  /** Without `__putcharNoGraphics` every device is reached; with no device, none. */
  lemma {:induction false} TargetsAll(devs: seq<Device>, noGraphics: bool)
    ensures !noGraphics ==> Targets(devs, noGraphics) == devs
    ensures |Targets(devs, noGraphics)| <= |devs|
  {
    if devs != [] {
      TargetsAll(devs[..|devs| - 1], noGraphics);
      assert devs == devs[..|devs| - 1] + [devs[|devs| - 1]];
    }
  }

  /** The calls of `putchar`: one `writeChar` per reached device. */
  function CharCalls(ts: seq<Device>, c: u8): (r: seq<Call>)
    ensures |r| == |ts|
  {
    if ts == [] then [] else CharCalls(ts[..|ts| - 1], c) + [WriteChar(ts[|ts| - 1].id, c)]
  }

  /** The calls of `puts`: `writeStr`, then '\r' and '\n', per reached device. */
  function StrCalls(ts: seq<Device>, s: seq<u8>): (r: seq<Call>)
  {
    if ts == [] then []
    else
      var id := ts[|ts| - 1].id;
      StrCalls(ts[..|ts| - 1], s) + [WriteStr(id, s), WriteChar(id, 13), WriteChar(id, 10)]
  }

  /** The i-th `putchar` call goes to the i-th reached device with the character. */
  lemma {:induction false} CharCallsAt(ts: seq<Device>, c: u8, i: nat)
    requires i < |ts|
    ensures CharCalls(ts, c)[i] == WriteChar(ts[i].id, c)
  {
    if i < |ts| - 1 {
      CharCallsAt(ts[..|ts| - 1], c, i);
    }
  }

  /** `puts` makes three calls per reached device, string first, then CR, LF. */
  lemma {:induction false} StrCallsAt(ts: seq<Device>, s: seq<u8>, i: nat)
    requires i < |ts|
    ensures |StrCalls(ts, s)| == 3 * |ts|
    ensures StrCalls(ts, s)[3 * i] == WriteStr(ts[i].id, s)
    ensures StrCalls(ts, s)[3 * i + 1] == WriteChar(ts[i].id, 13)
    ensures StrCalls(ts, s)[3 * i + 2] == WriteChar(ts[i].id, 10)
  {
    StrCallsLength(ts[..|ts| - 1], s);
    if i < |ts| - 1 {
      StrCallsAt(ts[..|ts| - 1], s, i);
    }
  }

  lemma {:induction false} StrCallsLength(ts: seq<Device>, s: seq<u8>)
    ensures |StrCalls(ts, s)| == 3 * |ts|
  {
    if ts != [] {
      StrCallsLength(ts[..|ts| - 1], s);
    }
  }

  /** `O_Devices[]` and `O_NumDevices`, with the `__putcharNoGraphics` flag. */
  class OutputTable {
    var devices: array<Device>
    var numDevices: nat
    var noGraphics: bool

    ghost predicate Valid()
      reads this
    {
      devices.Length == MAX_DEV && numDevices <= MAX_DEV
    }

    /** The registered devices, in registration order. */
    function Registered(): seq<Device>
      requires Valid()
      reads this, devices
    {
      devices[..numDevices]
    }

    constructor ()
      ensures Valid() && fresh(devices) && Registered() == [] && !noGraphics
    {
      devices := new Device[MAX_DEV](_ => Device(0, false, false));
      numDevices := 0;
      noGraphics := false;
    }

    /** `O_AddDevice`; `panicked` when 16 devices are already registered. */
    method AddDevice(dev: Device) returns (panicked: bool)
      requires Valid()
      modifies this, devices
      ensures Valid() && devices == old(devices) && noGraphics == old(noGraphics)
      ensures panicked <==> old(numDevices) >= MAX_DEV
      ensures panicked ==> numDevices == old(numDevices) && devices[..] == old(devices[..])
      ensures !panicked ==>
        numDevices == old(numDevices) + 1 &&
        devices[..] == old(devices[..])[old(numDevices) := dev] &&
        Registered() == old(Registered()) + [dev]
    {
      if numDevices >= MAX_DEV {
        return true;
      }
      devices[numDevices] := dev;
      numDevices := numDevices + 1;
      return false;
    }

    /** `putchar`: one `writeChar((char)c)` per reached device, in table order; returns c. */
    method PutChar(c: int) returns (r: int, calls: seq<Call>)
      requires Valid()
      ensures r == c
      ensures calls == CharCalls(Targets(Registered(), noGraphics), Byte(c))
    {
      calls := [];
      var i := 0;
      while i < numDevices
        invariant 0 <= i <= numDevices
        invariant calls == CharCalls(Targets(devices[..i], noGraphics), Byte(c))
      {
        var d := devices[i];
        assert devices[..i + 1] == devices[..i] + [d];
        TargetsConcat(devices[..i], [d], noGraphics);
        TargetsOne(d, noGraphics);
        assert Targets(devices[..i + 1], noGraphics) ==
          Targets(devices[..i], noGraphics) + if Skipped(d, noGraphics) then [] else [d];
        if !(noGraphics && d.isGraphical) {
          calls := calls + [WriteChar(d.id, Byte(c))];
          CharCallsSnoc(Targets(devices[..i], noGraphics), d, Byte(c));
        } else {
          assert Targets(devices[..i + 1], noGraphics) == Targets(devices[..i], noGraphics);
        }
        i := i + 1;
      }
      return c, calls;
    }

    /** `puts`: `writeStr(str)`, '\r', '\n' per reached device, in table order; returns 0. */
    method Puts(s: seq<u8>) returns (r: int, calls: seq<Call>)
      requires Valid()
      ensures r == 0
      ensures calls == StrCalls(Targets(Registered(), noGraphics), s)
    {
      calls := [];
      var i := 0;
      while i < numDevices
        invariant 0 <= i <= numDevices
        invariant calls == StrCalls(Targets(devices[..i], noGraphics), s)
      {
        var d := devices[i];
        assert devices[..i + 1] == devices[..i] + [d];
        TargetsConcat(devices[..i], [d], noGraphics);
        TargetsOne(d, noGraphics);
        assert Targets(devices[..i + 1], noGraphics) ==
          Targets(devices[..i], noGraphics) + if Skipped(d, noGraphics) then [] else [d];
        if !(noGraphics && d.isGraphical) {
          calls := calls + [WriteStr(d.id, s), WriteChar(d.id, 13), WriteChar(d.id, 10)];
          StrCallsSnoc(Targets(devices[..i], noGraphics), d, s);
        } else {
          assert Targets(devices[..i + 1], noGraphics) == Targets(devices[..i], noGraphics);
        }
        i := i + 1;
      }
      return 0, calls;
    }
  }

  lemma TargetsOne(d: Device, noGraphics: bool)
    ensures Targets([d], noGraphics) == if Skipped(d, noGraphics) then [] else [d]
  {
    assert [d][..0] == [];
  }

  lemma CharCallsSnoc(ts: seq<Device>, d: Device, c: u8)
    ensures CharCalls(ts + [d], c) == CharCalls(ts, c) + [WriteChar(d.id, c)]
  {
    assert (ts + [d])[..|ts + [d]| - 1] == ts;
  }

  lemma StrCallsSnoc(ts: seq<Device>, d: Device, s: seq<u8>)
    ensures StrCalls(ts + [d], s) == StrCalls(ts, s) + [WriteStr(d.id, s), WriteChar(d.id, 13), WriteChar(d.id, 10)]
  {
    assert (ts + [d])[..|ts + [d]| - 1] == ts;
  }
}
