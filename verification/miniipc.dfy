/**
 * The MINI IPC rings (src/wii/mini_ipc.c): the PowerPC posts requests into
 * the in ring and reads replies from the out ring, each index mirrored into
 * one 16-bit half of the PPCMSG register, with bounded polling and tag
 * matching on replies.
 */
module MiniIpc {
  import opened Types
  import Utils

  const IPC_MINI_CODE_SLWPING: u32 := 0x0000_0000
  const IPC_MINI_CODE_PING: u32 := 0x0100_0000
  const IPC_MINI_CODE_GETVERS: u32 := 0x0000_0002

  const HW_IPC_PPCCTRL_X1: u32 := 1
  /** Polls after which Starlet is declared stuck. */
  const POLL_LIMIT: nat := 10000
  /** `struct ipc_request_mini` carries six argument words. */
  const NUM_ARGS: nat := 6
  const IPC_MAGIC: seq<u8> := [0x49, 0x50, 0x43]

  datatype Request = Request(code: u32, tag: u32, args: seq<u32>)

  const ZERO_REQUEST: Request := Request(0, 0, [0, 0, 0, 0, 0, 0])

  /** `struct infohdr` as MINI leaves it in MEM2. */
  datatype InfoHdr = InfoHdr(magic: seq<u8>, version: u8, mem2Boundary: u32,
                             ipcIn: u32, ipcInSize: u32, ipcOut: u32, ipcOutSize: u32)

  /**
   * The ring part of `struct mini_state` together with the PPCMSG register
   * and the in-ring memory, indexed by every value a u16 tail can take.
   */
  datatype Rings = Rings(inTail: u16, outHead: u16, inSize: u32, outSize: u32,
                         curTag: u32, ppcmsg: u32, inQueue: seq<Request>)

  predicate WellFormed(s: Rings)
  {
    |s.inQueue| == TWO_16 && forall j :: 0 <= j < |s.inQueue| ==> |s.inQueue[j].args| == NUM_ARGS
  }

  // ------------------------------------------------------ register halves

  /** `val & 0xffff`: ARM's out tail in ARMMSG, our in tail in PPCMSG (see `MaskForms`). */
  function PeekLow(val: u32): u16
  {
    val % TWO_16
  }

  /** `val >> 16`: ARM's in head in ARMMSG, our out head in PPCMSG. */
  function PeekHigh(val: u32): u16
  {
    val / TWO_16
  }

  /** The word whose high and low halves are `hi` and `lo`. */
  function Halves(hi: u16, lo: u16): (r: u32)
    ensures PeekHigh(r) == hi && PeekLow(r) == lo
  {
    assert hi * TWO_16 <= (TWO_16 - 1) * TWO_16;
    DivModUnique(hi * TWO_16 + lo, TWO_16, hi, lo);
    hi * TWO_16 + lo
  }

  lemma HalvesMeaning(val: u32)
    ensures val == PeekHigh(val) * TWO_16 + PeekLow(val)
  {
  }

  /** `poke_intail`: `(ppcmsg & 0xffff0000) | tail`, the low half becomes the tail. */
  function PokeInTail(ppcmsg: u32, inTail: u16): u32
  {
    Halves(PeekHigh(ppcmsg), inTail)
  }

  /** `poke_outhead`: `(ppcmsg & 0xffff) | (head << 16)`, the high half becomes the head. */
  function PokeOutHead(ppcmsg: u32, outHead: u16): u32
  {
    Halves(outHead, PeekLow(ppcmsg))
  }

  /** Writing the in tail rewrites only the low half of PPCMSG. */
  lemma PokeInTailHalves(ppcmsg: u32, t: u16)
    ensures PeekLow(PokeInTail(ppcmsg, t)) == t
    ensures PeekHigh(PokeInTail(ppcmsg, t)) == PeekHigh(ppcmsg)
  {
  }

  /** Writing the out head rewrites only the high half of PPCMSG. */
  lemma PokeOutHeadHalves(ppcmsg: u32, h: u16)
    ensures PeekHigh(PokeOutHead(ppcmsg, h)) == h
    ensures PeekLow(PokeOutHead(ppcmsg, h)) == PeekLow(ppcmsg)
  {
  }

  /** The four helpers are the masks and shifts of the C code. */
  lemma MaskForms(val: u32, t: u16, h: u16)
    ensures And32(val, 0xffff) == PeekLow(val) && Shr(val, 16) == PeekHigh(val)
    ensures Or32(And32(val, 0xffff_0000), t) == PokeInTail(val, t)
    ensures Or32(And32(val, 0x0000_ffff), Shl32(h, 16)) == PokeOutHead(val, h)
  {
    Pow2Values();
    AndLowMask(val, 16);
    var hi, lo := val / TWO_16, val % TWO_16;
    AndHighMask(val, 32, 16);
    assert And32(val, 0xffff_0000) == hi * TWO_16;
    OrCommutes(hi * TWO_16, t);
    OrDisjoint(t, hi, 16);
    DivModUnique(h * TWO_16, TWO_32, 0, h * TWO_16);
    assert Shl32(h, 16) == h * TWO_16;
    OrDisjoint(lo, h, 16);
  }

  // ------------------------------------------------------------ ring indices

  /** `(idx + 1) & (size - 1)` in the int arithmetic of the source. */
  function Successor(idx: u16, size: u32): u32
  {
    And32(idx + 1, Sub32(size, 1))
  }

  /** The successor stored back into a u16 index. */
  function Advance(idx: u16, size: u32): u16
  {
    Successor(idx, size) % TWO_16
  }

  /** `inqueue_full`: ARM's in head, read from ARMMSG, sits one past our tail. */
  predicate InQueueFull(armmsg: u32, inTail: u16, inSize: u32)
  {
    PeekHigh(armmsg) == Successor(inTail, inSize)
  }

  /** The out ring is empty while ARM's out tail equals our head. */
  predicate OutQueueEmpty(armmsg: u32, outHead: u16)
  {
    PeekLow(armmsg) == outHead
  }

  /** For a power-of-two ring of at most 65536 slots the mask is `mod size`. */
  lemma AdvanceIsModulo(idx: u16, size: u32, k: nat, armmsg: u32)
    requires k <= 16 && size == Pow2(k)
    ensures Successor(idx, size) == (idx + 1) % size
    ensures Advance(idx, size) == (idx + 1) % size
    ensures InQueueFull(armmsg, idx, size) <==> PeekHigh(armmsg) == (idx + 1) % size
    ensures idx < size ==> Advance(idx, size) < size
  {
    Pow2Values();
    Pow2Monotone(k, 16);
    assert Sub32(size, 1) == Pow2(k) - 1;
    AndLowMask(idx + 1, k);
    DivModUnique((idx + 1) % size, TWO_16, 0, (idx + 1) % size);
  }

  // ----------------------------------------------------------------- posting

  /** The first n ARMMSG samples all show the in ring full. */
  predicate FullFor(arm: nat -> u32, inTail: u16, inSize: u32, n: nat)
  {
    n == 0 || (InQueueFull(arm(n - 1), inTail, inSize) && FullFor(arm, inTail, inSize, n - 1))
  }

  lemma {:induction false} FullForMeaning(arm: nat -> u32, inTail: u16, inSize: u32, n: nat)
    ensures FullFor(arm, inTail, inSize, n) <==> forall k :: 0 <= k < n ==> InQueueFull(arm(k), inTail, inSize)
  {
    if n > 0 {
      FullForMeaning(arm, inTail, inSize, n - 1);
    }
  }

  /** `MINI_IPCVpost` gives up when every one of its 10002 samples reads full. */
  predicate PostTimesOut(s: Rings, arm: nat -> u32)
  {
    FullFor(arm, s.inTail, s.inSize, POLL_LIMIT + 2)
  }

  /** The slot after code, tag and the first |args| argument words are stored. */
  function WriteSlot(slot: Request, code: u32, tag: u32, args: seq<u32>): Request
    requires |args| <= |slot.args|
  {
    Request(code, tag, args + slot.args[|args|..])
  }

  /** A post that found room: slot written, tail advanced and mirrored. */
  function Posted(s: Rings, code: u32, tag: u32, args: seq<u32>): (r: Rings)
    requires WellFormed(s) && |args| <= NUM_ARGS
    ensures WellFormed(r)
  {
    var t := Advance(s.inTail, s.inSize);
    s.(inQueue := s.inQueue[s.inTail := WriteSlot(s.inQueue[s.inTail], code, tag, args)],
       inTail := t, ppcmsg := PokeInTail(s.ppcmsg, t))
  }

  /**
   * A successful post puts code, tag and args into the slot at the old
   * tail, keeps every other slot, and moves only the low half of PPCMSG.
   */
  lemma PostedWritesSlot(s: Rings, code: u32, tag: u32, args: seq<u32>, j: nat)
    requires WellFormed(s) && |args| <= NUM_ARGS && j < TWO_16
    ensures var r := Posted(s, code, tag, args);
      r.inQueue[s.inTail].code == code && r.inQueue[s.inTail].tag == tag &&
      r.inQueue[s.inTail].args[..|args|] == args
    ensures var r := Posted(s, code, tag, args);
      j != s.inTail ==> r.inQueue[j] == s.inQueue[j]
    ensures var r := Posted(s, code, tag, args);
      r.inTail == PeekLow(r.ppcmsg) && PeekHigh(r.ppcmsg) == PeekHigh(s.ppcmsg)
    ensures var r := Posted(s, code, tag, args);
      r.outHead == s.outHead && r.curTag == s.curTag && r.inSize == s.inSize && r.outSize == s.outSize
  {
    var t := Advance(s.inTail, s.inSize);
    PokeInTailHalves(s.ppcmsg, t);
    var slot := WriteSlot(s.inQueue[s.inTail], code, tag, args);
    assert slot.args[..|args|] == args;
  }

  // --------------------------------------------------------------- receiving

  /**
   * How many empty samples `MINI_IPCRecv` takes before it gives up: more
   * than 10000 polls, or more than max_attempts when that is above 1.
   */
  function RecvBudget(maxAttempts: int): nat
  {
    if 1 < maxAttempts <= POLL_LIMIT then maxAttempts + 1 else POLL_LIMIT + 1
  }

  /** The first n ARMMSG samples all show the out ring empty. */
  predicate EmptyFor(arm: nat -> u32, outHead: u16, n: nat)
  {
    n == 0 || (OutQueueEmpty(arm(n - 1), outHead) && EmptyFor(arm, outHead, n - 1))
  }

  lemma {:induction false} EmptyForMeaning(arm: nat -> u32, outHead: u16, n: nat)
    ensures EmptyFor(arm, outHead, n) <==> forall k :: 0 <= k < n ==> OutQueueEmpty(arm(k), outHead)
  {
    if n > 0 {
      EmptyForMeaning(arm, outHead, n - 1);
    }
  }

  predicate RecvTimesOut(s: Rings, maxAttempts: int, arm: nat -> u32)
  {
    EmptyFor(arm, s.outHead, RecvBudget(maxAttempts))
  }

  /** The outcome of one receive: the error code, the caller's buffer and the rings. */
  datatype RecvResult = RecvResult(err: int, req: Request, s: Rings)

  /** A receive that found a reply: copy it, advance the head and mirror it. */
  function Received(s: Rings, outQueue: u16 -> Request): RecvResult
  {
    var h := Advance(s.outHead, s.outSize);
    RecvResult(0, outQueue(s.outHead), s.(outHead := h, ppcmsg := PokeOutHead(s.ppcmsg, h)))
  }

  /** `MINI_IPCRecv`; `arm` is the k-th ARMMSG sample, `outQueue` the out ring's memory. */
  function Receive(s: Rings, maxAttempts: int, arm: nat -> u32, outQueue: u16 -> Request): RecvResult
  {
    if RecvTimesOut(s, maxAttempts, arm) then RecvResult(-1, ZERO_REQUEST, s)
    else Received(s, outQueue)
  }

  /**
   * A receive either times out, zeroing the buffer and changing nothing, or
   * hands back the reply at the old head, advances the head and rewrites
   * only the high half of PPCMSG; the in side is never touched.
   */
  lemma ReceiveOutcome(s: Rings, maxAttempts: int, arm: nat -> u32, outQueue: u16 -> Request)
    ensures var r := Receive(s, maxAttempts, arm, outQueue);
      r.err == -1 <==> RecvTimesOut(s, maxAttempts, arm)
    ensures var r := Receive(s, maxAttempts, arm, outQueue);
      r.err == -1 ==> r.req == ZERO_REQUEST && r.s == s
    ensures var r := Receive(s, maxAttempts, arm, outQueue);
      r.err == 0 ==> (r.req == outQueue(s.outHead) && r.s.outHead == Advance(s.outHead, s.outSize) &&
                      PeekHigh(r.s.ppcmsg) == r.s.outHead)
    ensures var r := Receive(s, maxAttempts, arm, outQueue);
      r.err == 0 || r.err == -1
    ensures var r := Receive(s, maxAttempts, arm, outQueue);
      r.s.inTail == s.inTail && r.s.inQueue == s.inQueue && r.s.curTag == s.curTag &&
      r.s.inSize == s.inSize && r.s.outSize == s.outSize && PeekLow(r.s.ppcmsg) == PeekLow(s.ppcmsg)
  {
    PokeOutHeadHalves(s.ppcmsg, Advance(s.outHead, s.outSize));
  }

  /** A limit of 1 or less does not shorten the wait: only the 10000-poll bound applies. */
  lemma SmallLimitWaitsFully(maxAttempts: int)
    ensures maxAttempts <= 1 ==> RecvBudget(maxAttempts) == POLL_LIMIT + 1
    ensures RecvBudget(maxAttempts) <= POLL_LIMIT + 1
    ensures 1 < maxAttempts ==> RecvBudget(maxAttempts) == Min(maxAttempts, POLL_LIMIT) + 1
  {
  }

  function Min(a: int, b: int): int { if a <= b then a else b }

  predicate Matches(req: Request, code: u32, tag: u32)
  {
    req.code == code && req.tag == tag
  }

  /**
   * The mismatch loop of `MINI_IPCRecvTagged`, entered after receive j-1
   * succeeded into r; the result also counts the receives made in all.
   */
  function TaggedFrom(r: RecvResult, code: u32, tag: u32, maxRecv: int, attempts: int,
                      arm: nat -> nat -> u32, outQueue: u16 -> Request, j: nat): (RecvResult, nat)
    decreases attempts
  {
    if Matches(r.req, code, tag) then (r, j)
    else if attempts - 1 <= 0 then (r.(err := -1), j)
    else
      var next := Receive(r.s, maxRecv, arm(j), outQueue);
      if next.err != 0 then (next, j + 1)
      else TaggedFrom(next, code, tag, maxRecv, attempts - 1, arm, outQueue, j + 1)
  }

  /** `MINI_IPCRecvTagged`; receive j polls with the samples `arm(j)`. */
  function ReceiveTagged(s: Rings, code: u32, tag: u32, maxRecv: int, maxAttempts: int,
                         arm: nat -> nat -> u32, outQueue: u16 -> Request): (RecvResult, nat)
  {
    var first := Receive(s, maxRecv, arm(0), outQueue);
    if first.err != 0 then (first, 1)
    else TaggedFrom(first, code, tag, maxRecv, maxAttempts, arm, outQueue, 1)
  }

  /** What every receive keeps: the in side of the rings and the tag counter. */
  predicate KeepsInSide(s: Rings, t: Rings)
  {
    t.inTail == s.inTail && t.inQueue == s.inQueue && t.curTag == s.curTag &&
    t.inSize == s.inSize && t.outSize == s.outSize && PeekLow(t.ppcmsg) == PeekLow(s.ppcmsg)
  }

  lemma {:induction false} TaggedFromFacts(s: Rings, r: RecvResult, code: u32, tag: u32, maxRecv: int,
                                           attempts: int, arm: nat -> nat -> u32,
                                           outQueue: u16 -> Request, j: nat)
    requires r.err == 0 && KeepsInSide(s, r.s)
    ensures TaggedFrom(r, code, tag, maxRecv, attempts, arm, outQueue, j).0.err == 0 ==>
      Matches(TaggedFrom(r, code, tag, maxRecv, attempts, arm, outQueue, j).0.req, code, tag)
    ensures TaggedFrom(r, code, tag, maxRecv, attempts, arm, outQueue, j).0.err in {0, -1}
    ensures j <= TaggedFrom(r, code, tag, maxRecv, attempts, arm, outQueue, j).1 <=
      j + (if attempts <= 1 then 0 else attempts - 1)
    ensures KeepsInSide(s, TaggedFrom(r, code, tag, maxRecv, attempts, arm, outQueue, j).0.s)
    decreases attempts
  {
    var res := TaggedFrom(r, code, tag, maxRecv, attempts, arm, outQueue, j);
    if Matches(r.req, code, tag) {
      assert res == (r, j);
    } else if attempts - 1 <= 0 {
      assert res == (r.(err := -1), j);
    } else {
      var next := Receive(r.s, maxRecv, arm(j), outQueue);
      ReceiveOutcome(r.s, maxRecv, arm(j), outQueue);
      assert KeepsInSide(s, next.s);
      if next.err == 0 {
        TaggedFromFacts(s, next, code, tag, maxRecv, attempts - 1, arm, outQueue, j + 1);
        assert res == TaggedFrom(next, code, tag, maxRecv, attempts - 1, arm, outQueue, j + 1);
      } else {
        assert res == (next, j + 1);
      }
    }
  }

  /**
   * `MINI_IPCRecvTagged` returns 0 only with a reply of the requested code
   * and tag in hand, makes at most max(1, max_attempts) receives (so it
   * discards at most max_attempts - 1 mismatched replies), and never
   * touches the in side of the rings.
   */
  lemma ReceiveTaggedFacts(s: Rings, code: u32, tag: u32, maxRecv: int, maxAttempts: int,
                           arm: nat -> nat -> u32, outQueue: u16 -> Request)
    ensures var (res, n) := ReceiveTagged(s, code, tag, maxRecv, maxAttempts, arm, outQueue);
      (res.err == 0 ==> Matches(res.req, code, tag)) && (res.err == 0 || res.err == -1)
    ensures var (res, n) := ReceiveTagged(s, code, tag, maxRecv, maxAttempts, arm, outQueue);
      1 <= n && (maxAttempts <= 1 ==> n == 1) && (maxAttempts > 1 ==> n <= maxAttempts)
    ensures KeepsInSide(s, ReceiveTagged(s, code, tag, maxRecv, maxAttempts, arm, outQueue).0.s)
  {
    var first := Receive(s, maxRecv, arm(0), outQueue);
    ReceiveOutcome(s, maxRecv, arm(0), outQueue);
    if first.err == 0 {
      TaggedFromFacts(s, first, code, tag, maxRecv, maxAttempts, arm, outQueue, 1);
    }
  }

  // --------------------------------------------------------------- exchange

  /**
   * `MINI_IPCExchange`: post under the current tag, wait for the reply with
   * that code and tag, and only then move to the next tag; `req` is the
   * caller's buffer, untouched when the post itself times out.
   */
  function Exchanged(s: Rings, req: Request, code: u32, maxRecv: int, maxAttempts: int, args: seq<u32>,
                     postArm: nat -> u32, recvArm: nat -> nat -> u32, outQueue: u16 -> Request): RecvResult
    requires WellFormed(s) && |args| <= NUM_ARGS
  {
    if PostTimesOut(s, postArm) then RecvResult(-1, req, s)
    else
      var r := ReceiveTagged(Posted(s, code, s.curTag, args), code, s.curTag, maxRecv, maxAttempts, recvArm, outQueue).0;
      if r.err != 0 then r
      else r.(s := r.s.(curTag := Add32(r.s.curTag, 1)))
  }

  /**
   * The tag advances exactly when the exchange succeeds, and the successful
   * reply carries the request's code and the old tag.
   */
  lemma ExchangeTagging(s: Rings, req: Request, code: u32, maxRecv: int, maxAttempts: int, args: seq<u32>,
                        postArm: nat -> u32, recvArm: nat -> nat -> u32, outQueue: u16 -> Request)
    requires WellFormed(s) && |args| <= NUM_ARGS
    ensures var r := Exchanged(s, req, code, maxRecv, maxAttempts, args, postArm, recvArm, outQueue);
      (r.err == 0 || r.err == -1) && (r.s.curTag != s.curTag <==> r.err == 0)
    ensures var r := Exchanged(s, req, code, maxRecv, maxAttempts, args, postArm, recvArm, outQueue);
      r.err == 0 ==> Matches(r.req, code, s.curTag) && r.s.curTag == Add32(s.curTag, 1)
  {
    if !PostTimesOut(s, postArm) {
      var p := Posted(s, code, s.curTag, args);
      PostedWritesSlot(s, code, s.curTag, args, 0);
      ReceiveTaggedFacts(p, code, s.curTag, maxRecv, maxAttempts, recvArm, outQueue);
      TagIncrementMoves(s.curTag);
    }
  }

  /** A post that times out ends the exchange with -1 and nothing changed. */
  lemma ExchangeStuckPost(s: Rings, req: Request, code: u32, maxRecv: int, maxAttempts: int, args: seq<u32>,
                          postArm: nat -> u32, recvArm: nat -> nat -> u32, outQueue: u16 -> Request)
    requires WellFormed(s) && |args| <= NUM_ARGS && PostTimesOut(s, postArm)
    ensures var r := Exchanged(s, req, code, maxRecv, maxAttempts, args, postArm, recvArm, outQueue);
      r.s == s && r.req == req && r.err == -1
  {
  }

  /** A post that finds room leaves the request, under the current tag, at the old tail. */
  lemma ExchangePosting(s: Rings, req: Request, code: u32, maxRecv: int, maxAttempts: int, args: seq<u32>,
                        postArm: nat -> u32, recvArm: nat -> nat -> u32, outQueue: u16 -> Request)
    requires WellFormed(s) && |args| <= NUM_ARGS && !PostTimesOut(s, postArm)
    ensures var q := Exchanged(s, req, code, maxRecv, maxAttempts, args, postArm, recvArm, outQueue).s.inQueue;
      s.inTail < |q| && q[s.inTail].code == code && q[s.inTail].tag == s.curTag &&
      |args| <= |q[s.inTail].args| && q[s.inTail].args[..|args|] == args
  {
    ExchangeKeepsPostedRing(s, req, code, maxRecv, maxAttempts, args, postArm, recvArm, outQueue);
    PostedWritesSlot(s, code, s.curTag, args, 0);
  }

  lemma ExchangeKeepsPostedRing(s: Rings, req: Request, code: u32, maxRecv: int, maxAttempts: int, args: seq<u32>,
                                postArm: nat -> u32, recvArm: nat -> nat -> u32, outQueue: u16 -> Request)
    requires WellFormed(s) && |args| <= NUM_ARGS && !PostTimesOut(s, postArm)
    ensures Exchanged(s, req, code, maxRecv, maxAttempts, args, postArm, recvArm, outQueue).s.inQueue ==
      Posted(s, code, s.curTag, args).inQueue
  {
    ReceiveTaggedFacts(Posted(s, code, s.curTag, args), code, s.curTag, maxRecv, maxAttempts, recvArm, outQueue);
  }

  lemma TagIncrementMoves(tag: u32)
    ensures Add32(tag, 1) != tag
  {
    if tag + 1 < TWO_32 {
      DivModUnique(tag + 1, TWO_32, 0, tag + 1);
    } else {
      DivModUnique(tag + 1, TWO_32, 1, 0);
    }
  }

  // ------------------------------------------------------------------- init

  /** The three checks of `MINI_Init` that end in panic when they fail. */
  predicate InfoHdrAccepted(infohdrPtr: u32, hdr: InfoHdr)
  {
    Utils.MEM2_PHYS_BASE <= infohdrPtr < Utils.MEM2_PHYS_BASE + Utils.MEM2_SIZE_WII &&
    hdr.magic == IPC_MAGIC && hdr.version == 1
  }

  /** The stores of `MINI_IPCVpost` into the slot: code, tag, then one argument word at a time. */
  method FillSlot(slot: Request, code: u32, tag: u32, args: seq<u32>) returns (r: Request)
    requires |args| <= |slot.args|
    ensures r == WriteSlot(slot, code, tag, args)
  {
    r := slot.(code := code, tag := tag);
    var arg := 0;
    while arg < |args|
      invariant 0 <= arg <= |args|
      invariant r == Request(code, tag, args[..arg] + slot.args[arg..])
    {
      r := r.(args := r.args[arg := args[arg]]);
      arg := arg + 1;
      assert r.args == args[..arg] + slot.args[arg..];
    }
    assert args[..arg] == args;
  }

  /** `struct mini_state`, the PPCMSG/PPCCTRL registers and the in ring's memory. */
  class MiniState {
    var initialized: bool
    var infohdr: u32
    var inTail: u16
    var outHead: u16
    var inSize: u32
    var outSize: u32
    var inQueueBase: u32
    var outQueueBase: u32
    var curTag: u32
    var mem2Top: u32
    var ppcmsg: u32
    var ppcctrl: u32
    var inQueue: seq<Request>

    ghost predicate Valid()
      reads this
    {
      WellFormed(State())
    }

    ghost function State(): Rings
      reads this
    {
      Rings(inTail, outHead, inSize, outSize, curTag, ppcmsg, inQueue)
    }

    /** The state before `MINI_Init`: the register as the firmware left it. */
    constructor (hwPpcmsg: u32, inRing: seq<Request>)
      requires |inRing| == TWO_16 && forall j :: 0 <= j < |inRing| ==> |inRing[j].args| == NUM_ARGS
      ensures Valid() && !initialized && ppcmsg == hwPpcmsg && inQueue == inRing
    {
      initialized := false;
      infohdr, inTail, outHead, inSize, outSize := 0, 0, 0, 0, 0;
      inQueueBase, outQueueBase, curTag, mem2Top := 0, 0, 0, 0;
      ppcmsg, ppcctrl := hwPpcmsg, 0;
      inQueue := inRing;
    }

    /**
     * `MINI_Init` up to its self-test: `panicked` exactly when one of the
     * infohdr checks fails; otherwise the indices are taken from the two
     * halves of PPCMSG and the tag starts at 1.
     */
    method Init(infohdrPtr: u32, hdr: InfoHdr) returns (panicked: bool)
      requires Valid()
      modifies this
      ensures Valid() && ppcmsg == old(ppcmsg) && inQueue == old(inQueue)
      ensures panicked <==> !InfoHdrAccepted(infohdrPtr, hdr)
      ensures panicked ==> State() == old(State()) && initialized == old(initialized)
      ensures !panicked ==> initialized && inTail == PeekLow(ppcmsg) && outHead == PeekHigh(ppcmsg) && curTag == 1
      ensures !panicked ==> inSize == hdr.ipcInSize && outSize == hdr.ipcOutSize && mem2Top == hdr.mem2Boundary
      ensures !panicked ==> (infohdr == Utils.PhysToCached(infohdrPtr) &&
                             inQueueBase == Utils.PhysToUncached(hdr.ipcIn) &&
                             outQueueBase == Utils.PhysToUncached(hdr.ipcOut))
    {
      if infohdrPtr < Utils.MEM2_PHYS_BASE || infohdrPtr >= Utils.MEM2_PHYS_BASE + Utils.MEM2_SIZE_WII {
        return true;
      }
      infohdr := Utils.PhysToCached(infohdrPtr);
      if hdr.magic != IPC_MAGIC {
        return true;
      }
      if hdr.version != 1 {
        return true;
      }
      inSize := hdr.ipcInSize;
      outSize := hdr.ipcOutSize;
      inQueueBase := Utils.PhysToUncached(hdr.ipcIn);
      outQueueBase := Utils.PhysToUncached(hdr.ipcOut);
      inTail := PeekLow(ppcmsg);
      outHead := PeekHigh(ppcmsg);
      curTag := 1;
      initialized := true;
      mem2Top := hdr.mem2Boundary;
      return false;
    }

    /** The wait of `MINI_IPCVpost`: poll ARMMSG while the in ring reads full, at most 10000 more times. */
    method WaitForRoom(arm: nat -> u32) returns (stuck: bool)
      requires Valid()
      ensures stuck <==> PostTimesOut(State(), arm)
    {
      FullForMeaning(arm, inTail, inSize, POLL_LIMIT + 2);
      if !InQueueFull(arm(0), inTail, inSize) {
        return false;
      }
      var i := 0;
      while InQueueFull(arm(i + 1), inTail, inSize)
        invariant 0 <= i <= POLL_LIMIT
        invariant FullFor(arm, inTail, inSize, i + 1)
        decreases POLL_LIMIT - i
      {
        i := i + 1;
        if i > POLL_LIMIT {
          return true;
        }
      }
      return false;
    }

    /**
     * `MINI_IPCVpost`: wait while the in ring is full, giving up after
     * 10000 further polls, then fill the slot and ring the X1 doorbell.
     */
    method Vpost(code: u32, tag: u32, args: seq<u32>, arm: nat -> u32) returns (r: int)
      requires Valid() && initialized && |args| <= NUM_ARGS
      modifies this
      ensures Valid() && initialized
      ensures inSize == old(inSize) && outSize == old(outSize) && curTag == old(curTag)
      ensures r == -1 <==> PostTimesOut(old(State()), arm)
      ensures r == -1 ==> State() == old(State()) && ppcctrl == old(ppcctrl)
      ensures r == 0 ==> State() == Posted(old(State()), code, tag, args) && ppcctrl == HW_IPC_PPCCTRL_X1
      ensures r == 0 || r == -1
    {
      var stuck := WaitForRoom(arm);
      if stuck {
        return -1;
      }
      var slot := FillSlot(inQueue[inTail], code, tag, args);
      inQueue := inQueue[inTail := slot];
      inTail := Advance(inTail, inSize);
      ppcmsg := PokeInTail(ppcmsg, inTail);
      ppcctrl := HW_IPC_PPCCTRL_X1;
      return 0;
    }

    /**
     * `MINI_IPCRecv`: wait while the out ring is empty, then copy the reply
     * at the head and publish the advanced head.
     */
    method Recv(maxAttempts: int, arm: nat -> u32, outQueue: u16 -> Request) returns (r: int, req: Request)
      requires Valid() && initialized
      modifies this
      ensures Valid() && initialized && ppcctrl == old(ppcctrl)
      ensures RecvResult(r, req, State()) == Receive(old(State()), maxAttempts, arm, outQueue)
    {
      var i := 0;
      while PeekLow(arm(i)) == outHead
        invariant 0 <= i < RecvBudget(maxAttempts)
        invariant EmptyFor(arm, outHead, i)
        decreases POLL_LIMIT - i
      {
        i := i + 1;
        if i > POLL_LIMIT {
          return -1, ZERO_REQUEST;
        }
        if i > maxAttempts && maxAttempts > 1 {
          return -1, ZERO_REQUEST;
        }
      }
      EmptyForMeaning(arm, outHead, RecvBudget(maxAttempts));
      req := outQueue(outHead);
      outHead := Advance(outHead, outSize);
      ppcmsg := PokeOutHead(ppcmsg, outHead);
      return 0, req;
    }

    /**
     * `MINI_IPCRecvTagged`: receive, and while the reply is not the one
     * wanted, drop it and receive again until the attempts run out.
     */
    method RecvTagged(code: u32, tag: u32, maxRecv: int, maxAttempts: int,
                      arm: nat -> nat -> u32, outQueue: u16 -> Request) returns (error: int, req: Request)
      requires Valid() && initialized
      modifies this
      ensures Valid() && initialized && ppcctrl == old(ppcctrl)
      ensures RecvResult(error, req, State()) ==
        ReceiveTagged(old(State()), code, tag, maxRecv, maxAttempts, arm, outQueue).0
    {
      error, req := Recv(maxRecv, arm(0), outQueue);
      if error != 0 {
        return;
      }
      error, req := DropMismatches(req, code, tag, maxRecv, maxAttempts, arm, outQueue);
    }

    /** The mismatch loop of `MINI_IPCRecvTagged`, entered with the first reply in `req0`. */
    method DropMismatches(req0: Request, code: u32, tag: u32, maxRecv: int, maxAttempts: int,
                          arm: nat -> nat -> u32, outQueue: u16 -> Request) returns (error: int, req: Request)
      requires Valid() && initialized
      modifies this
      ensures Valid() && initialized && ppcctrl == old(ppcctrl)
      ensures RecvResult(error, req, State()) ==
        TaggedFrom(RecvResult(0, req0, old(State())), code, tag, maxRecv, maxAttempts, arm, outQueue, 1).0
    {
      ghost var goal := TaggedFrom(RecvResult(0, req0, State()), code, tag, maxRecv, maxAttempts, arm, outQueue, 1).0;
      error, req := 0, req0;
      var attempts := maxAttempts;
      var j := 1;
      while req.code != code || req.tag != tag
        invariant Valid() && initialized && ppcctrl == old(ppcctrl) && error == 0
        invariant TaggedFrom(RecvResult(0, req, State()), code, tag, maxRecv, attempts, arm, outQueue, j).0 == goal
        decreases attempts
      {
        error := -1;
        attempts := attempts - 1;
        if attempts <= 0 {
          return;
        }
        error, req := Recv(maxRecv, arm(j), outQueue);
        j := j + 1;
        if error != 0 {
          return;
        }
      }
    }

    /**
     * `MINI_IPCExchange`: post under the current tag, wait for the matching
     * reply and only then advance the tag.
     */
    method Exchange(req0: Request, code: u32, maxRecv: int, maxAttempts: int, args: seq<u32>,
                    postArm: nat -> u32, recvArm: nat -> nat -> u32, outQueue: u16 -> Request)
      returns (error: int, req: Request)
      requires Valid() && initialized && |args| <= NUM_ARGS
      modifies this
      ensures Valid() && initialized
      ensures RecvResult(error, req, State()) ==
        Exchanged(old(State()), req0, code, maxRecv, maxAttempts, args, postArm, recvArm, outQueue)
    {
      req := req0;
      error := Vpost(code, curTag, args, postArm);
      if error != 0 {
        return;
      }
      error, req := RecvTagged(code, curTag, maxRecv, maxAttempts, recvArm, outQueue);
      if error != 0 {
        return;
      }
      curTag := Add32(curTag, 1);
      return 0, req;
    }
  }
}
