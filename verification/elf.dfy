/**
 * Checking and loading a 32-bit big-endian PowerPC ELF executable held in
 * memory. The header layout follows the ELF specification (TIS ELF 1.2,
 * Book I, "ELF Header" and "Program Header"); the loader runs on a
 * big-endian CPU, so every multi-byte field is read big-endian. The image
 * is a byte sequence; RAM is a map from (cached) address to byte that the
 * loader updates in place.
 */
module Elf {
  import opened Types
  import Utils

  const EHDR_SIZE: nat := 52
  const PHDR_SIZE: nat := 32

  /** `ELFMAG`, compared over `SELFMAG` = 4 bytes. */
  const ELFMAG: seq<u8> := [0x7f, 0x45, 0x4c, 0x46]
  const SELFMAG: nat := 4
  const EI_CLASS: nat := 4
  const EI_DATA: nat := 5
  const ELFCLASS32: u8 := 1
  const ELFDATA2MSB: u8 := 2
  const ET_EXEC: u16 := 2
  const EM_PPC: u16 := 20
  const PT_LOAD: u32 := 1

  const ERR_WRONG_MAGIC: int := -1
  const ERR_INVALID_EXEC: int := -2

  // -------------------------------------------------------------- fields

  /** A big-endian halfword at `at`. */
  function Be16(img: seq<u8>, at: nat): u16
    requires at + 2 <= |img|
  {
    img[at] as int * 0x100 + img[at + 1] as int
  }

  /** A big-endian word at `at`. */
  function Be32(img: seq<u8>, at: nat): u32
    requires at + 4 <= |img|
  {
    Be16(img, at) * 0x1_0000 + Be16(img, at + 2)
  }

  /** The four bytes of `v`, most significant first. */
  function Be32Bytes(v: u32): (b: seq<u8>)
    ensures |b| == 4
  {
    [v / 0x100_0000, (v / 0x1_0000) % 0x100, (v / 0x100) % 0x100, v % 0x100]
  }

  /** Reading back the bytes of a word gives the word. */
  lemma Be32RoundTrip(v: u32)
    ensures Be32(Be32Bytes(v), 0) == v
  {
    var b := Be32Bytes(v);
    assert Be16(b, 0) == v / 0x1_0000 by {
      DivModUnique(v / 0x1_0000, 0x100, v / 0x100_0000, (v / 0x1_0000) % 0x100);
    }
    assert Be16(b, 2) == v % 0x1_0000 by {
      DivModUnique(v % 0x1_0000, 0x100, (v / 0x100) % 0x100, v % 0x100);
    }
  }

  /** The ELF header fields the loader looks at. */
  datatype Ehdr = Ehdr(elfClass: u8, encoding: u8, etype: u16, machine: u16, entry: u32, phoff: u32, phentsize: u16, phnum: u16)

  function ParseEhdr(img: seq<u8>): Ehdr
    requires |img| >= EHDR_SIZE
  {
    Ehdr(img[EI_CLASS], img[EI_DATA], Be16(img, 16), Be16(img, 18), Be32(img, 24), Be32(img, 28), Be16(img, 42), Be16(img, 44))
  }

  /** The program header fields the loader looks at. */
  datatype Phdr = Phdr(ptype: u32, offset: u32, vaddr: u32, paddr: u32, filesz: u32, memsz: u32)

  function ParsePhdr(img: seq<u8>, at: nat): Phdr
    requires at + PHDR_SIZE <= |img|
  {
    Phdr(Be32(img, at), Be32(img, at + 4), Be32(img, at + 8), Be32(img, at + 12), Be32(img, at + 16), Be32(img, at + 20))
  }

  // ---------------------------------------------------------- validation

  /** An ELF image the loader is meant for: 32-bit, big-endian, an executable, for PowerPC. */
  predicate IsPpcExecutable(h: Ehdr)
  {
    h.elfClass == ELFCLASS32 && h.encoding == ELFDATA2MSB && h.etype == ET_EXEC && h.machine == EM_PPC
  }

  /** `ELF_CheckValid`: -1 for a wrong magic, -2 for the first failing header check, else 0. */
  function CheckValid(img: seq<u8>): (r: int)
    requires |img| >= EHDR_SIZE
    ensures r == ERR_WRONG_MAGIC <==> img[..SELFMAG] != ELFMAG
    ensures r == 0 <==> img[..SELFMAG] == ELFMAG && IsPpcExecutable(ParseEhdr(img))
    ensures r == ERR_INVALID_EXEC <==> img[..SELFMAG] == ELFMAG && !IsPpcExecutable(ParseEhdr(img))
  {
    var h := ParseEhdr(img);
    if img[..SELFMAG] != ELFMAG then ERR_WRONG_MAGIC
    else if h.elfClass != ELFCLASS32 then ERR_INVALID_EXEC
    else if h.encoding != ELFDATA2MSB then ERR_INVALID_EXEC
    else if h.etype != ET_EXEC then ERR_INVALID_EXEC
    else if h.machine != EM_PPC then ERR_INVALID_EXEC
    else 0
  }

  // ------------------------------------------------------------ segments

  /** What the loop body does with one program header: skip it, or copy `size` bytes from `offset` to `dest`. */
  datatype Step = Skip | Copy(dest: u32, offset: u32, size: u32)

  /**
   * Headers that are not `PT_LOAD`, that have neither a physical nor a
   * virtual address, or that have nothing to copy are skipped; otherwise
   * the smaller of the file and memory sizes is copied to the cached view
   * of the physical address (the virtual one when there is none).
   */
  function Examine(p: Phdr): (s: Step)
    ensures s.Copy? <==> p.ptype == PT_LOAD && (p.paddr != 0 || p.vaddr != 0) && p.filesz != 0 && p.memsz != 0
    ensures s.Copy? ==> 0 < s.size && s.size <= p.filesz && s.size <= p.memsz && (s.size == p.filesz || s.size == p.memsz)
    ensures s.Copy? ==> s.offset == p.offset && s.dest == Utils.PhysToCached(if p.paddr != 0 then p.paddr else p.vaddr)
  {
    if p.ptype != PT_LOAD then Skip
    else
      var addr := if p.paddr != 0 then p.paddr else p.vaddr;
      if addr == 0 then Skip
      else if p.filesz == 0 || p.memsz == 0 then Skip
      else
        var size := if p.filesz > p.memsz then p.memsz else p.filesz;
        Copy(Utils.PhysToCached(addr), p.offset, size)
  }

  /** Where the `k`-th program header starts: `e_phoff` plus `k` strides of `e_phentsize`. */
  function HeaderAt(h: Ehdr, k: nat): nat
  {
    h.phoff + k * h.phentsize
  }

  /** The step for the `k`-th program header. */
  function StepAt(img: seq<u8>, k: nat): Step
    requires |img| >= EHDR_SIZE && HeaderAt(ParseEhdr(img), k) + PHDR_SIZE <= |img|
  {
    Examine(ParsePhdr(img, HeaderAt(ParseEhdr(img), k)))
  }

  /**
   * The image holds its ELF header, all `e_phnum` program headers, and the
   * file bytes of every segment that would be copied. The loader reads these
   * without checking, so its callers provide them.
   */
  predicate Holds(img: seq<u8>)
  {
    |img| >= EHDR_SIZE &&
    forall k :: 0 <= k < ParseEhdr(img).phnum ==>
      HeaderAt(ParseEhdr(img), k) + PHDR_SIZE <= |img| &&
      (StepAt(img, k).Copy? ==> StepAt(img, k).offset + StepAt(img, k).size <= |img|)
  }

  // ---------------------------------------------------------------- RAM

  /** `memcpy(dest, src, |src|)` on a RAM image: the copied bytes replace the old ones, the rest stays. */
  function Stored(cells: map<nat, u8>, dest: nat, src: seq<u8>): map<nat, u8>
  {
    map a | a in cells.Keys + Span(dest, |src|) :: if dest <= a < dest + |src| then src[a - dest] else cells[a]
  }

  /** The copied bytes land at `dest` onwards. */
  lemma StoredCopies(cells: map<nat, u8>, dest: nat, src: seq<u8>, j: nat)
    requires j < |src|
    ensures dest + j in Stored(cells, dest, src) && Stored(cells, dest, src)[dest + j] == src[j]
  {
  }

  /** Addresses outside the copied range keep their bytes. */
  lemma StoredKeeps(cells: map<nat, u8>, dest: nat, src: seq<u8>, a: nat)
    requires a in cells && !(dest <= a < dest + |src|)
    ensures a in Stored(cells, dest, src) && Stored(cells, dest, src)[a] == cells[a]
  {
  }

  /** The addresses `dest` to `dest + n - 1`. */
  function Span(dest: nat, n: nat): (r: set<nat>)
    ensures forall a :: a in r <==> dest <= a < dest + n
    decreases n
  {
    if n == 0 then {} else {dest} + Span(dest + 1, n - 1)
  }

  /** RAM as the loader sees it through the cached view. */
  class Ram {
    var cells: map<nat, u8>

    constructor(cells: map<nat, u8>)
      ensures this.cells == cells
    {
      this.cells := cells;
    }

    /** `memcpy` into RAM. */
    method Copy(dest: nat, src: seq<u8>)
      modifies this
      ensures cells == Stored(old(cells), dest, src)
    {
      cells := Stored(cells, dest, src);
    }
  }

  // -------------------------------------------------------------- loading

  /** `ELF_LoadMem` either refuses a segment (-2) or jumps to the physical entry point and never returns. */
  datatype Outcome = Invalid | Enter(entry: u32)

  datatype Loaded = Loaded(outcome: Outcome, cells: map<nat, u8>)

  /** The steps for the `e_phnum` program headers, in table order. */
  function Steps(img: seq<u8>): (steps: seq<Step>)
    requires Holds(img)
    ensures |steps| == ParseEhdr(img).phnum
    ensures forall k :: 0 <= k < |steps| ==> steps[k] == StepAt(img, k)
    ensures InImage(img, steps)
  {
    seq(ParseEhdr(img).phnum, k requires 0 <= k < ParseEhdr(img).phnum => StepAt(img, k))
  }

  /** Every copy reads file bytes inside the image. */
  predicate InImage(img: seq<u8>, steps: seq<Step>)
  {
    forall k :: 0 <= k < |steps| && steps[k].Copy? ==> steps[k].offset + steps[k].size <= |img|
  }

  /** The RAM after one step, or `None` when the step copies to an address that is not valid RAM on console `c`. */
  function Advance(c: Console, img: seq<u8>, s: Step, cells: map<nat, u8>): Option<map<nat, u8>>
    requires s.Copy? ==> s.offset + s.size <= |img|
  {
    match s
    case Skip => Some(cells)
    case Copy(dest, offset, size) =>
      if Utils.AddrIsValidCached(c, dest) then Some(Stored(cells, dest, img[offset..offset + size])) else None
  }

  /**
   * Loading with one header per iteration: steps `k` onwards are taken in
   * turn, starting from RAM `cells`; at the end the loader enters `entry`.
   */
  function LoadFrom(c: Console, img: seq<u8>, steps: seq<Step>, entry: u32, k: nat, cells: map<nat, u8>): Loaded
    requires InImage(img, steps) && k <= |steps|
    decreases |steps| - k
  {
    if k == |steps| then Loaded(Enter(entry), cells)
    else
      match Advance(c, img, steps[k], cells)
      case None => Loaded(Invalid, cells)
      case Some(next) => LoadFrom(c, img, steps, entry, k + 1, next)
  }

  /** `ELF_LoadMem` with the header cursor advanced on every iteration, skipped headers included. */
  function Load(c: Console, img: seq<u8>, cells: map<nat, u8>): Loaded
    requires Holds(img)
  {
    LoadFrom(c, img, Steps(img), Utils.VirtToPhys(ParseEhdr(img).entry), 0, cells)
  }

  /**
   * Loading as written: iteration `i` examines the header under the cursor
   * `cur`, and the cursor moves on only after a copy, so once a header is
   * skipped every later iteration examines that same header again.
   */
  function LoadAsWrittenFrom(c: Console, img: seq<u8>, steps: seq<Step>, entry: u32, i: nat, cur: nat, cells: map<nat, u8>): Loaded
    requires InImage(img, steps) && cur <= i <= |steps|
    decreases |steps| - i
  {
    if i == |steps| then Loaded(Enter(entry), cells)
    else
      match Advance(c, img, steps[cur], cells)
      case None => Loaded(Invalid, cells)
      case Some(next) => LoadAsWrittenFrom(c, img, steps, entry, i + 1, if steps[cur].Copy? then cur + 1 else cur, next)
  }

  /** `ELF_LoadMem` as written. */
  function LoadAsWritten(c: Console, img: seq<u8>, cells: map<nat, u8>): Loaded
    requires Holds(img)
  {
    LoadAsWrittenFrom(c, img, Steps(img), Utils.VirtToPhys(ParseEhdr(img).entry), 0, 0, cells)
  }

  /** The loader, with the header cursor following the loop index. */
  method LoadMem(c: Console, img: seq<u8>, ram: Ram) returns (r: Outcome)
    requires Holds(img)
    modifies ram
    ensures Loaded(r, ram.cells) == Load(c, img, old(ram.cells))
  {
    var h := ParseEhdr(img);
    ghost var steps := Steps(img);
    ghost var entry := Utils.VirtToPhys(h.entry);
    var i := 0;
    while i < h.phnum
      invariant 0 <= i <= h.phnum == |steps|
      invariant LoadFrom(c, img, steps, entry, i, ram.cells) == Load(c, img, old(ram.cells))
    {
      ghost var before := ram.cells;
      var ok := LoadSegment(c, img, StepAt(img, i), ram);
      LoadFromStep(c, img, steps, entry, i, before);
      if !ok {
        return Invalid;
      }
      i := i + 1;
    }
    r := Enter(Utils.VirtToPhys(h.entry));
  }

  /**
   * One iteration, given the step for its program header: a skipped header
   * changes nothing, an invalid destination is refused, else the segment is
   * copied.
   */
  method LoadSegment(c: Console, img: seq<u8>, step: Step, ram: Ram) returns (ok: bool)
    requires step.Copy? ==> step.offset + step.size <= |img|
    modifies ram
    ensures ok <==> Advance(c, img, step, old(ram.cells)).Some?
    ensures ok ==> ram.cells == Advance(c, img, step, old(ram.cells)).value
    ensures !ok ==> ram.cells == old(ram.cells)
  {
    ok := true;
    if step.Copy? {
      if !Utils.AddrIsValidCached(c, step.dest) {
        return false;
      }
      ram.Copy(step.dest, img[step.offset..step.offset + step.size]);
    }
  }

  /** Loading from step `k` is taking step `k` and loading the rest, or stopping when it is refused. */
  lemma LoadFromStep(c: Console, img: seq<u8>, steps: seq<Step>, entry: u32, k: nat, cells: map<nat, u8>)
    requires InImage(img, steps) && k < |steps|
    ensures Advance(c, img, steps[k], cells).None? ==> LoadFrom(c, img, steps, entry, k, cells) == Loaded(Invalid, cells)
    ensures Advance(c, img, steps[k], cells).Some? ==>
      LoadFrom(c, img, steps, entry, k, cells) == LoadFrom(c, img, steps, entry, k + 1, Advance(c, img, steps[k], cells).value)
  {
  }

  // ------------------------------------------------------------ properties

  /**
   * Loading from step `k` fails exactly when some later step copies to an
   * address that is not valid RAM on console `c`; otherwise it enters `entry`.
   */
  lemma {:induction false} LoadOutcome(c: Console, img: seq<u8>, steps: seq<Step>, entry: u32, k: nat, cells: map<nat, u8>)
    requires InImage(img, steps) && k <= |steps|
    ensures LoadFrom(c, img, steps, entry, k, cells).outcome == Invalid <==>
      exists j :: k <= j < |steps| && Advance(c, img, steps[j], map[]).None?
    ensures LoadFrom(c, img, steps, entry, k, cells).outcome != Invalid ==>
      LoadFrom(c, img, steps, entry, k, cells).outcome == Enter(entry)
    decreases |steps| - k
  {
    if k < |steps| {
      var next := Advance(c, img, steps[k], cells);
      assert next.None? <==> Advance(c, img, steps[k], map[]).None?;
      if next.Some? {
        LoadOutcome(c, img, steps, entry, k + 1, next.value);
        if exists j :: k <= j < |steps| && Advance(c, img, steps[j], map[]).None? {
          var j :| k <= j < |steps| && Advance(c, img, steps[j], map[]).None?;
          assert j != k;
        }
      }
    }
  }

  /** The destination range of a copying step holds address `a`. */
  predicate Covers(s: Step, a: nat)
  {
    s.Copy? && s.dest <= a < s.dest + s.size
  }

  /** RAM outside every later segment's destination range is left as it was. */
  lemma {:induction false} LoadKeepsOtherRam(c: Console, img: seq<u8>, steps: seq<Step>, entry: u32, k: nat, cells: map<nat, u8>, a: nat)
    requires InImage(img, steps) && k <= |steps|
    requires a in cells
    requires forall j :: k <= j < |steps| ==> !Covers(steps[j], a)
    ensures a in LoadFrom(c, img, steps, entry, k, cells).cells
    ensures LoadFrom(c, img, steps, entry, k, cells).cells[a] == cells[a]
    decreases |steps| - k
  {
    if k < |steps| {
      var next := Advance(c, img, steps[k], cells);
      if next.Some? {
        assert !Covers(steps[k], a);
        if steps[k].Copy? {
          StoredKeeps(cells, steps[k].dest, img[steps[k].offset..steps[k].offset + steps[k].size], a);
        }
        LoadKeepsOtherRam(c, img, steps, entry, k + 1, next.value, a);
      }
    }
  }

  /**
   * After a successful load, byte `j` of segment `s` sits at its destination
   * unless a later segment overwrote that address.
   */
  lemma {:induction false} LoadPlacesSegment(c: Console, img: seq<u8>, steps: seq<Step>, entry: u32, k: nat, cells: map<nat, u8>, s: nat, j: nat, a: nat)
    requires InImage(img, steps) && k <= s < |steps|
    requires LoadFrom(c, img, steps, entry, k, cells).outcome != Invalid
    requires steps[s].Copy? && j < steps[s].size && a == steps[s].dest + j
    requires forall t :: s < t < |steps| ==> !Covers(steps[t], a)
    ensures a in LoadFrom(c, img, steps, entry, k, cells).cells
    ensures LoadFrom(c, img, steps, entry, k, cells).cells[a] == img[steps[s].offset + j]
    decreases s - k
  {
    var next := Advance(c, img, steps[k], cells);
    assert next.Some?;
    if k == s {
      var step := steps[k];
      assert next.value == Stored(cells, step.dest, img[step.offset..step.offset + step.size]);
      StoredCopies(cells, step.dest, img[step.offset..step.offset + step.size], j);
      LoadKeepsOtherRam(c, img, steps, entry, k + 1, next.value, a);
    } else {
      LoadPlacesSegment(c, img, steps, entry, k + 1, next.value, s, j, a);
    }
  }

  /** As written, a skipped header under the cursor is examined again in every later iteration: nothing more is loaded. */
  lemma {:induction false} AsWrittenStuck(c: Console, img: seq<u8>, steps: seq<Step>, entry: u32, i: nat, cur: nat, cells: map<nat, u8>)
    requires InImage(img, steps) && cur <= i <= |steps|
    requires cur < |steps| && steps[cur].Skip?
    ensures LoadAsWrittenFrom(c, img, steps, entry, i, cur, cells) == Loaded(Enter(entry), cells)
    decreases |steps| - i
  {
    if i < |steps| {
      AsWrittenStuck(c, img, steps, entry, i + 1, cur, cells);
    }
  }

  /** When no header is skipped the cursor keeps pace with the loop and the two loaders agree. */
  lemma {:induction false} AsWrittenAgreesWithoutSkips(c: Console, img: seq<u8>, steps: seq<Step>, entry: u32, k: nat, cells: map<nat, u8>)
    requires InImage(img, steps) && k <= |steps|
    requires forall j :: k <= j < |steps| ==> steps[j].Copy?
    ensures LoadAsWrittenFrom(c, img, steps, entry, k, k, cells) == LoadFrom(c, img, steps, entry, k, cells)
    decreases |steps| - k
  {
    if k < |steps| {
      var next := Advance(c, img, steps[k], cells);
      if next.Some? {
        AsWrittenAgreesWithoutSkips(c, img, steps, entry, k + 1, next.value);
      }
    }
  }

  /**
   * Two program headers, a skipped one first: as written the second segment
   * is never examined and RAM is untouched, while the corrected loader
   * copies it.
   */
  lemma SkipThenLoad(c: Console, img: seq<u8>, cells: map<nat, u8>)
    requires Holds(img) && ParseEhdr(img).phnum == 2
    requires StepAt(img, 0).Skip? && StepAt(img, 1).Copy? && Utils.AddrIsValidCached(c, StepAt(img, 1).dest)
    ensures LoadAsWritten(c, img, cells).cells == cells
    ensures Load(c, img, cells).cells ==
      Stored(cells, StepAt(img, 1).dest, img[StepAt(img, 1).offset..StepAt(img, 1).offset + StepAt(img, 1).size])
  {
    var steps, entry := Steps(img), Utils.VirtToPhys(ParseEhdr(img).entry);
    AsWrittenStuck(c, img, steps, entry, 0, 0, cells);
    TwoSteps(c, img, steps, entry, cells);
  }

  lemma TwoSteps(c: Console, img: seq<u8>, steps: seq<Step>, entry: u32, cells: map<nat, u8>)
    requires InImage(img, steps) && |steps| == 2
    requires steps[0].Skip? && steps[1].Copy? && Utils.AddrIsValidCached(c, steps[1].dest)
    ensures LoadFrom(c, img, steps, entry, 0, cells).cells ==
      Stored(cells, steps[1].dest, img[steps[1].offset..steps[1].offset + steps[1].size])
  {
    var m := Stored(cells, steps[1].dest, img[steps[1].offset..steps[1].offset + steps[1].size]);
    assert LoadFrom(c, img, steps, entry, 0, cells) == LoadFrom(c, img, steps, entry, 1, cells);
    assert LoadFrom(c, img, steps, entry, 1, cells) == LoadFrom(c, img, steps, entry, 2, m);
  }

  /** The ELF header of a PowerPC executable entered at 0x8000_3000 with two program headers at offset 52. */
  const NOTE_EHDR_HEAD: seq<u8> := [
    0x7f, 0x45, 0x4c, 0x46, 0x01, 0x02, 0x01, 0x00, 0x00, 0x00, 0x00, 0x00, 0x00, 0x00, 0x00, 0x00,
    0x00, 0x02, 0x00, 0x14, 0x00, 0x00, 0x00, 0x01, 0x80, 0x00, 0x30, 0x00, 0x00, 0x00, 0x00, 0x34
  ]
  const NOTE_EHDR_TAIL: seq<u8> := [
    0x00, 0x00, 0x00, 0x00, 0x00, 0x00, 0x00, 0x00, 0x00, 0x34, 0x00, 0x20, 0x00, 0x02, 0x00, 0x00,
    0x00, 0x00, 0x00, 0x00
  ]
  /** A `PT_NOTE` program header. */
  const NOTE_PHDR: seq<u8> := [
    0x00, 0x00, 0x00, 0x04, 0x00, 0x00, 0x00, 0x00, 0x00, 0x00, 0x00, 0x00, 0x00, 0x00, 0x00, 0x00,
    0x00, 0x00, 0x00, 0x00, 0x00, 0x00, 0x00, 0x00, 0x00, 0x00, 0x00, 0x00, 0x00, 0x00, 0x00, 0x00
  ]
  /** A `PT_LOAD` program header: 4 bytes at file offset 116 for physical address 0x3000. */
  const LOAD_PHDR: seq<u8> := [
    0x00, 0x00, 0x00, 0x01, 0x00, 0x00, 0x00, 0x74, 0x80, 0x00, 0x30, 0x00, 0x00, 0x00, 0x30, 0x00,
    0x00, 0x00, 0x00, 0x04, 0x00, 0x00, 0x00, 0x04, 0x00, 0x00, 0x00, 0x05, 0x00, 0x00, 0x00, 0x04
  ]
  /** The segment: one branch instruction. */
  const SEGMENT: seq<u8> := [0x48, 0x00, 0x00, 0x00]

  /** An executable with a `PT_NOTE` header followed by one `PT_LOAD` segment. */
  const NOTE_THEN_LOAD: seq<u8> := NOTE_EHDR_HEAD + NOTE_EHDR_TAIL + NOTE_PHDR + LOAD_PHDR + SEGMENT

  /** A program header is read from its own 32 bytes. */
  lemma ParsePhdrSlice(img: seq<u8>, at: nat)
    requires at + PHDR_SIZE <= |img|
    ensures ParsePhdr(img, at) == ParsePhdr(img[at..at + PHDR_SIZE], 0)
  {
    var p := img[at..at + PHDR_SIZE];
    assert forall j :: 0 <= j < PHDR_SIZE ==> p[j] == img[at + j];
  }

  /** The ELF header of the image. */
  lemma NoteHeader()
    ensures |NOTE_THEN_LOAD| == 120
    ensures ParseEhdr(NOTE_THEN_LOAD) == Ehdr(ELFCLASS32, ELFDATA2MSB, ET_EXEC, EM_PPC, 0x8000_3000, 52, 32, 2)
    ensures NOTE_THEN_LOAD[52..84] == NOTE_PHDR && NOTE_THEN_LOAD[84..116] == LOAD_PHDR
    ensures NOTE_THEN_LOAD[116..120] == SEGMENT
  {
    var head := NOTE_EHDR_HEAD + NOTE_EHDR_TAIL;
    NoteLayout(head);
    assert ParseEhdr(NOTE_THEN_LOAD) == ParseEhdr(head) by { NoteHeaderPrefix(head); }
    NoteEhdr(head);
  }

  lemma NoteLayout(head: seq<u8>)
    requires head == NOTE_EHDR_HEAD + NOTE_EHDR_TAIL
    ensures |head| == 52 && NOTE_THEN_LOAD == head + NOTE_PHDR + LOAD_PHDR + SEGMENT
    ensures |NOTE_THEN_LOAD| == 120
    ensures NOTE_THEN_LOAD[52..84] == NOTE_PHDR && NOTE_THEN_LOAD[84..116] == LOAD_PHDR
    ensures NOTE_THEN_LOAD[116..120] == SEGMENT
  {
  }

  lemma NoteHeaderPrefix(head: seq<u8>)
    requires |head| == 52 && NOTE_THEN_LOAD == head + NOTE_PHDR + LOAD_PHDR + SEGMENT
    ensures |NOTE_THEN_LOAD| >= EHDR_SIZE && ParseEhdr(NOTE_THEN_LOAD) == ParseEhdr(head)
  {
    var img := NOTE_THEN_LOAD;
    assert forall j :: 0 <= j < 52 ==> img[j] == head[j];
  }

  lemma NoteEhdr(head: seq<u8>)
    requires head == NOTE_EHDR_HEAD + NOTE_EHDR_TAIL
    ensures |head| == 52 && ParseEhdr(head) == Ehdr(ELFCLASS32, ELFDATA2MSB, ET_EXEC, EM_PPC, 0x8000_3000, 52, 32, 2)
  {
  }

  /** Its two program headers: a note, then a loadable segment. */
  lemma NoteSteps()
    ensures |NOTE_THEN_LOAD| == 120 && ParseEhdr(NOTE_THEN_LOAD).phnum == 2
    ensures Holds(NOTE_THEN_LOAD)
    ensures StepAt(NOTE_THEN_LOAD, 0) == Skip && StepAt(NOTE_THEN_LOAD, 1) == Copy(0x8000_3000, 116, 4)
  {
    NoteHeader();
    NotePhdrs(NOTE_THEN_LOAD);
    StepsOfNoteThenLoad(NOTE_THEN_LOAD);
  }

  lemma StepsOfNoteThenLoad(img: seq<u8>)
    requires |img| == 120 && ParseEhdr(img) == Ehdr(ELFCLASS32, ELFDATA2MSB, ET_EXEC, EM_PPC, 0x8000_3000, 52, 32, 2)
    requires ParsePhdr(img, 52).ptype == 4
    requires ParsePhdr(img, 84) == Phdr(PT_LOAD, 116, 0x8000_3000, 0x3000, 4, 4)
    ensures Holds(img)
    ensures StepAt(img, 0) == Skip && StepAt(img, 1) == Copy(0x8000_3000, 116, 4)
  {
    assert StepAt(img, 0) == Skip;
    assert StepAt(img, 1) == Copy(0x8000_3000, 116, 4) by {
      assert Utils.PhysToCached(0x3000) == 0x8000_3000;
    }
    HoldsOfTwo(img);
  }

  /** An image with two in-bounds headers whose copies stay in bounds holds them. */
  lemma HoldsOfTwo(img: seq<u8>)
    requires |img| >= EHDR_SIZE && ParseEhdr(img).phnum == 2
    requires HeaderAt(ParseEhdr(img), 1) + PHDR_SIZE <= |img| && ParseEhdr(img).phentsize > 0
    requires StepAt(img, 0).Copy? ==> StepAt(img, 0).offset + StepAt(img, 0).size <= |img|
    requires StepAt(img, 1).Copy? ==> StepAt(img, 1).offset + StepAt(img, 1).size <= |img|
    ensures Holds(img)
  {
    forall k | 0 <= k < 2
      ensures HeaderAt(ParseEhdr(img), k) + PHDR_SIZE <= |img|
      ensures StepAt(img, k).Copy? ==> StepAt(img, k).offset + StepAt(img, k).size <= |img|
    {
      assert k == 0 || k == 1;
    }
  }

  lemma NotePhdrs(img: seq<u8>)
    requires |img| == 120 && img[52..84] == NOTE_PHDR && img[84..116] == LOAD_PHDR
    ensures ParsePhdr(img, 52).ptype == 4
    ensures ParsePhdr(img, 84) == Phdr(PT_LOAD, 116, 0x8000_3000, 0x3000, 4, 4)
  {
    ParsePhdrSlice(img, 52);
    ParsePhdrSlice(img, 84);
    NotePhdrFields();
  }

  lemma NotePhdrFields()
    ensures |NOTE_PHDR| == PHDR_SIZE && ParsePhdr(NOTE_PHDR, 0).ptype == 4
    ensures |LOAD_PHDR| == PHDR_SIZE && ParsePhdr(LOAD_PHDR, 0) == Phdr(PT_LOAD, 116, 0x8000_3000, 0x3000, 4, 4)
  {
  }

  /**
   * On that executable the loop as written examines the note header twice and
   * never copies the segment, while the corrected loader places its first
   * byte at 0x8000_3000 on every console.
   */
  lemma NoteHidesSegment(c: Console, cells: map<nat, u8>)
    ensures Holds(NOTE_THEN_LOAD)
    ensures LoadAsWritten(c, NOTE_THEN_LOAD, cells).cells == cells
    ensures 0x8000_3000 in Load(c, NOTE_THEN_LOAD, cells).cells && Load(c, NOTE_THEN_LOAD, cells).cells[0x8000_3000] == 0x48
  {
    NoteSteps();
    NoteHeader();
    var img := NOTE_THEN_LOAD;
    assert Utils.AddrIsValidCached(c, 0x8000_3000);
    SkipThenLoad(c, img, cells);
    StoredCopies(cells, 0x8000_3000, img[116..120], 0);
  }
}
