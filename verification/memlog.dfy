/**
 * The in-memory logger (src/memlog.c): characters are stored one after
 * another from 0x81500000 and silently dropped once the write pointer
 * reaches 0x81700000.
 */
module Memlog {
  import opened Types
  import Drivers
  import Output

  const MEMLOG_START: u32 := 0x8150_0000
  const MEMLOG_LIMIT: u32 := 0x8170_0000

  /** `memlogCallback`, as a non-NULL entry of the callback table. */
  const MEMLOG_CALLBACK: nat := 2

  /** The memlog `outputDevice`: not graphical and without a name. */
  const MEMLOG_DEVICE: Output.Device := Output.Device(1, false, false)

  /** The banner written once the callback is in place. */
  function Banner(): seq<u8>
  {
    Output.Text("In-Memory logger is now active\r\n")
  }

  /** `memlogWriteChar` on the memory map and the write pointer. */
  function Put(mem: map<u32, u8>, next: u32, c: u8): (map<u32, u8>, u32)
  {
    if next >= MEMLOG_LIMIT then (mem, next) else (mem[next := c], next + 1)
  }

  /** `memlogWriteChar` applied to each character of `text` in turn. */
  function PutAll(mem: map<u32, u8>, next: u32, text: seq<u8>): (map<u32, u8>, u32)
  {
    if text == [] then (mem, next)
    else
      var (m, n) := PutAll(mem, next, text[..|text| - 1]);
      Put(m, n, text[|text| - 1])
  }

  function Min(a: int, b: int): int { if a < b then a else b }

  /**
   * The pointer advances by one per character until it meets the limit,
   * and never passes it.
   */
  lemma {:induction false} PutAllAdvance(mem: map<u32, u8>, next: u32, text: seq<u8>)
    requires next <= MEMLOG_LIMIT
    ensures PutAll(mem, next, text).1 == Min(next + |text|, MEMLOG_LIMIT)
  {
    if text != [] {
      PutAllAdvance(mem, next, text[..|text| - 1]);
    }
  }

  /**
   * After writing `text`, the bytes from the old pointer to the new one are
   * the leading characters of `text`, in order, and no other address changes.
   */
  lemma {:induction false} PutAllStores(mem: map<u32, u8>, next: u32, text: seq<u8>, a: u32)
    requires next <= MEMLOG_LIMIT
    ensures var (m, n) := PutAll(mem, next, text);
      (next <= a < n ==> a - next < |text| && a in m && m[a] == text[a - next]) &&
      (!(next <= a < n) ==> (a in m <==> a in mem) && (a in mem ==> m[a] == mem[a]))
  {
    if text != [] {
      var init := text[..|text| - 1];
      PutAllStores(mem, next, init, a);
      PutAllAdvance(mem, next, init);
      PutAllAdvance(mem, next, text);
    }
  }

  /** `memlogNext` and the memory it writes through. */
  class MemLog {
    var next: u32
    var mem: map<u32, u8>

    /** The pointer starts at 0x81500000 and never passes 0x81700000. */
    ghost predicate Valid()
      reads this
    {
      MEMLOG_START <= next <= MEMLOG_LIMIT
    }

    constructor (initial: map<u32, u8>)
      ensures Valid() && next == MEMLOG_START && mem == initial
    {
      next := MEMLOG_START;
      mem := initial;
    }

    /** `memlogWriteChar`. */
    method WriteChar(c: u8)
      requires Valid()
      modifies this
      ensures Valid() && (mem, next) == Put(old(mem), old(next), c)
    {
      if next >= MEMLOG_LIMIT {
        return;
      }
      mem := mem[next := c];
      next := next + 1;
    }

    /** `memlogWriteStr`: the characters before the NUL, in order, up to the limit. */
    method WriteStr(s: seq<u8>)
      requires Valid()
      modifies this
      ensures Valid() && (mem, next) == PutAll(old(mem), old(next), Output.CStr(s))
    {
      var i := 0;
      while i < |s| && s[i] != 0
        invariant 0 <= i <= |s| && 0 !in s[..i]
        invariant Valid() && (mem, next) == PutAll(old(mem), old(next), s[..i])
      {
        assert s[..i + 1][..i] == s[..i];
        WriteChar(s[i]);
        i := i + 1;
      }
      Output.CStrUnique(s, i);
    }

    /** `O_MemlogInit`: callback first, then the banner, then the output device. */
    method Init(reg: Drivers.Registry, out: Output.OutputTable) returns (panicked: bool)
      requires Valid() && reg.Valid() && out.Valid()
      modifies this, reg.callbacks, out, out.devices
      ensures Valid() && out.Valid() && out.devices == old(out.devices)
      ensures var added := Drivers.AddCallback(old(reg.callbacks[..]), MEMLOG_CALLBACK);
        if added.None? then panicked && unchanged(this) && unchanged(out, out.devices)
        else
          reg.callbacks[..] == added.value &&
          (mem, next) == PutAll(old(mem), old(next), Output.CStr(Banner())) &&
          (panicked <==> old(out.numDevices) >= Output.MAX_DEV) &&
          (!panicked ==> out.Registered() == old(out.Registered()) + [MEMLOG_DEVICE])
    {
      panicked := reg.AddCb(MEMLOG_CALLBACK);
      if panicked {
        return;
      }
      WriteStr(Banner());
      panicked := out.AddDevice(MEMLOG_DEVICE);
    }

    /** `memlogCleanup`. */
    method Cleanup(reg: Drivers.Registry)
      requires reg.Valid()
      modifies reg.callbacks
      ensures reg.callbacks[..] == Drivers.RemoveCallback(old(reg.callbacks[..]), MEMLOG_CALLBACK)
    {
      reg.RemoveCb(MEMLOG_CALLBACK);
    }
  }
}
