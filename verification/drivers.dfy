/**
 * The driver stager and the main-loop callback table.
 *
 * Driver descriptors live in a linker-collected table; `D_Init` makes one
 * pass per driver type, from CRITICAL to OTHER, and in each pass calls the
 * `init` of every descriptor that is not settled, is allowed on this
 * platform and whose type is at most the pass's type. What an `init` does
 * is an input of the model: a function from the descriptor's index and
 * the whole table, as it stands at the call, to the descriptor's new state.
 *
 * Callbacks are function pointers; here they are naturals, with 0 for NULL.
 */
module Drivers {
  import opened Types

  datatype DriverState = NotReady | Initializing | Faulted | NoHardware | NeedDep | Ready

  /** enum driverType: CRITICAL, BLOCK, FS, GFX, INPUT, OTHER. */
  type DriverType = t: int | 0 <= t <= 5
  const DRIVER_TYPE_CRITICAL: DriverType := 0
  const DRIVER_TYPE_OTHER: DriverType := 5

  const DRIVER_ALLOW_GAMECUBE: u8 := 1
  const DRIVER_ALLOW_WII: u8 := 2
  const DRIVER_ALLOW_WIIU: u8 := 4

  datatype Driver = Driver(mask: u8, state: DriverState, dtype: DriverType)

  /** The effect of a descriptor's `init`: its new state, given its index and the current table. */
  type InitBehaviour = (nat, seq<Driver>) -> DriverState

  const MAX_CALLBACKS: nat := 64
  const NULL: nat := 0

  // ------------------------------------------------------------ D_Init

  /** How many times x occurs in a call log. */
  function Count(c: seq<nat>, x: nat): nat
  {
    if c == [] then 0 else Count(c[..|c| - 1], x) + (if c[|c| - 1] == x then 1 else 0)
  }

  lemma {:induction false} CountAppend(a: seq<nat>, b: seq<nat>, x: nat)
    ensures Count(a + b, x) == Count(a, x) + Count(b, x)
  {
    if b != [] {
      CountAppend(a, b[..|b| - 1], x);
      assert (a + b)[..|a + b| - 1] == a + b[..|b| - 1];
    } else {
      assert a + b == a;
    }
  }

  /** Ready, no hardware, faulted or still initialising: the stager leaves it alone. */
  predicate Settled(s: DriverState)
  {
    s == Ready || s == NoHardware || s == Faulted || s == Initializing
  }

  predicate Allowed(d: Driver, driverMask: u8)
  {
    BitAnd(d.mask, driverMask) != 0
  }

  /** Whether the pass for `curType` calls this descriptor's `init`. */
  predicate WillInit(d: Driver, driverMask: u8, curType: int)
  {
    !Settled(d.state) && Allowed(d, driverMask) && d.dtype <= curType
  }

  /** Visiting descriptor i: the new table and the indices whose `init` ran. */
  function Visit(tbl: seq<Driver>, driverMask: u8, curType: int, i: nat, init: InitBehaviour): (seq<Driver>, seq<nat>)
    requires i < |tbl|
  {
    if WillInit(tbl[i], driverMask, curType) then
      (tbl[i := tbl[i].(state := init(i, tbl))], [i])
    else (tbl, [])
  }

  /** One pass over descriptors 0 .. n-1, in table order. */
  function PassUpTo(tbl: seq<Driver>, driverMask: u8, curType: int, n: nat, init: InitBehaviour): (r: (seq<Driver>, seq<nat>))
    requires n <= |tbl|
    ensures |r.0| == |tbl|
  {
    if n == 0 then (tbl, [])
    else
      var prev := PassUpTo(tbl, driverMask, curType, n - 1, init);
      var next := Visit(prev.0, driverMask, curType, n - 1, init);
      (next.0, prev.1 + next.1)
  }

  function Pass(tbl: seq<Driver>, driverMask: u8, curType: int, init: InitBehaviour): (r: (seq<Driver>, seq<nat>))
    ensures |r.0| == |tbl|
  {
    PassUpTo(tbl, driverMask, curType, |tbl|, init)
  }

  /** The passes for types 0 .. n-1. */
  function StagesUpTo(tbl: seq<Driver>, driverMask: u8, n: nat, init: InitBehaviour): (r: (seq<Driver>, seq<nat>))
    ensures |r.0| == |tbl|
  {
    if n == 0 then (tbl, [])
    else
      var prev := StagesUpTo(tbl, driverMask, n - 1, init);
      var next := Pass(prev.0, driverMask, n - 1, init);
      (next.0, prev.1 + next.1)
  }

  /** `D_Init`: the final table and every `init` call, in order. */
  function DInit(tbl: seq<Driver>, driverMask: u8, init: InitBehaviour): (r: (seq<Driver>, seq<nat>))
    ensures |r.0| == |tbl|
  {
    StagesUpTo(tbl, driverMask, DRIVER_TYPE_OTHER + 1, init)
  }

  /**
   * What one pass does to descriptor m: before the pass reaches it, nothing;
   * when it reaches it, `init` runs iff `WillInit`, seeing the table as the
   * earlier descriptors left it; afterwards, nothing more.
   */
  lemma {:induction false} PassEffect(tbl: seq<Driver>, driverMask: u8, curType: int, n: nat, init: InitBehaviour, m: nat)
    requires n <= |tbl| && m < |tbl|
    ensures m >= n ==> PassUpTo(tbl, driverMask, curType, n, init).0[m] == tbl[m]
    ensures m < n ==>
      PassUpTo(tbl, driverMask, curType, n, init).0[m] ==
        (if WillInit(tbl[m], driverMask, curType)
         then tbl[m].(state := init(m, PassUpTo(tbl, driverMask, curType, m, init).0))
         else tbl[m])
    decreases n
  {
    if n > 0 {
      PassEffect(tbl, driverMask, curType, n - 1, init, m);
      var prev := PassUpTo(tbl, driverMask, curType, n - 1, init).0;
      var next := Visit(prev, driverMask, curType, n - 1, init).0;
      assert PassUpTo(tbl, driverMask, curType, n, init).0 == next;
      if m != n - 1 {
        assert next[m] == prev[m];
      } else {
        PassEffect(tbl, driverMask, curType, n - 1, init, n - 1);
        assert prev[m] == tbl[m];
      }
    }
  }

  /** One pass calls descriptor m's `init` exactly once if `WillInit` holds for it, and never otherwise. */
  lemma {:induction false} PassCalls(tbl: seq<Driver>, driverMask: u8, curType: int, n: nat, init: InitBehaviour, m: nat)
    requires n <= |tbl| && m < |tbl|
    ensures Count(PassUpTo(tbl, driverMask, curType, n, init).1, m) ==
      if m < n && WillInit(tbl[m], driverMask, curType) then 1 else 0
    decreases n
  {
    if n > 0 {
      PassCalls(tbl, driverMask, curType, n - 1, init, m);
      PassEffect(tbl, driverMask, curType, n - 1, init, n - 1);
      var prev := PassUpTo(tbl, driverMask, curType, n - 1, init);
      var next := Visit(prev.0, driverMask, curType, n - 1, init);
      var w := WillInit(tbl[n - 1], driverMask, curType);
      assert prev.0[n - 1] == tbl[n - 1];
      if w {
        assert next.1 == [n - 1];
        assert [n - 1][..0] == [];
      } else {
        assert next.1 == [];
      }
      assert Count(next.1, m) == if w && m == n - 1 then 1 else 0;
      CountAppend(prev.1, next.1, m);
    }
  }

  /** Within a pass, `init`s run in strictly ascending table order. */
  lemma {:induction false} PassInTableOrder(tbl: seq<Driver>, driverMask: u8, curType: int, n: nat, init: InitBehaviour)
    requires n <= |tbl|
    ensures forall a :: 0 <= a < |PassUpTo(tbl, driverMask, curType, n, init).1| ==>
      PassUpTo(tbl, driverMask, curType, n, init).1[a] < n
    ensures forall a, b :: 0 <= a < b < |PassUpTo(tbl, driverMask, curType, n, init).1| ==>
      PassUpTo(tbl, driverMask, curType, n, init).1[a] < PassUpTo(tbl, driverMask, curType, n, init).1[b]
    decreases n
  {
    if n > 0 {
      PassInTableOrder(tbl, driverMask, curType, n - 1, init);
      var prev := PassUpTo(tbl, driverMask, curType, n - 1, init);
      var c' := Visit(prev.0, driverMask, curType, n - 1, init).1;
      var c := PassUpTo(tbl, driverMask, curType, n, init).1;
      assert c == prev.1 + c';
      assert c' == [] || c' == [n - 1];
      forall a | 0 <= a < |c| ensures c[a] < n {
        if a >= |prev.1| {
          assert c[a] == c'[a - |prev.1|];
        } else {
          assert c[a] == prev.1[a];
          assert prev.1[a] < n - 1;
        }
      }
      forall a, b | 0 <= a < b < |c| ensures c[a] < c[b] {
        if b >= |prev.1| {
          assert c[b] == n - 1;
          if a < |prev.1| {
            assert prev.1[a] < n - 1;
          }
        } else {
          assert prev.1[a] < prev.1[b];
        }
      }
    }
  }

  /** A settled descriptor, or one not allowed on this platform, keeps its descriptor through a pass. */
  lemma PassKeepsIdle(tbl: seq<Driver>, driverMask: u8, curType: int, init: InitBehaviour, m: nat)
    requires m < |tbl|
    requires Settled(tbl[m].state) || !Allowed(tbl[m], driverMask)
    ensures Pass(tbl, driverMask, curType, init).0[m] == tbl[m]
    ensures Count(Pass(tbl, driverMask, curType, init).1, m) == 0
  {
    PassEffect(tbl, driverMask, curType, |tbl|, init, m);
    PassCalls(tbl, driverMask, curType, |tbl|, init, m);
  }

  /** Idle descriptors (settled or not allowed) are never initialised by `D_Init` and never change. */
  lemma {:induction false} StagesKeepIdle(tbl: seq<Driver>, driverMask: u8, n: nat, init: InitBehaviour, m: nat)
    requires m < |tbl|
    requires Settled(tbl[m].state) || !Allowed(tbl[m], driverMask)
    ensures StagesUpTo(tbl, driverMask, n, init).0[m] == tbl[m]
    ensures Count(StagesUpTo(tbl, driverMask, n, init).1, m) == 0
  {
    if n > 0 {
      StagesKeepIdle(tbl, driverMask, n - 1, init, m);
      StageStep(tbl, driverMask, n, init, m);
    }
  }

  /** The number of passes among 0 .. n-1 whose type admits a driver of type `ty`. */
  function PassesAdmitting(ty: DriverType, n: nat): nat
  {
    if n <= ty then 0 else n - ty
  }

  /** Pass n - 1 of `D_Init` as seen from descriptor m: at most one `init` call, and only if `WillInit`. */
  lemma StageStep(tbl: seq<Driver>, driverMask: u8, n: nat, init: InitBehaviour, m: nat)
    requires n > 0 && m < |tbl|
    ensures var t := StagesUpTo(tbl, driverMask, n - 1, init).0;
      StagesUpTo(tbl, driverMask, n, init).0[m] ==
        (if WillInit(t[m], driverMask, n - 1)
         then t[m].(state := init(m, PassUpTo(t, driverMask, n - 1, m, init).0))
         else t[m])
    ensures Count(StagesUpTo(tbl, driverMask, n, init).1, m) ==
      Count(StagesUpTo(tbl, driverMask, n - 1, init).1, m) +
      (if WillInit(StagesUpTo(tbl, driverMask, n - 1, init).0[m], driverMask, n - 1) then 1 else 0)
  {
    var prev := StagesUpTo(tbl, driverMask, n - 1, init);
    var next := Pass(prev.0, driverMask, n - 1, init);
    PassEffect(prev.0, driverMask, n - 1, |prev.0|, init, m);
    PassCalls(prev.0, driverMask, n - 1, |prev.0|, init, m);
    CountAppend(prev.1, next.1, m);
  }

  /**
   * A driver whose `init` always leaves it NOT_READY or NEED_DEP is retried in
   * every pass from its own type on: `D_Init` calls it exactly 6 - type times.
   */
  lemma {:induction false} RetryingDriverCalls(tbl: seq<Driver>, driverMask: u8, n: nat, init: InitBehaviour, m: nat)
    requires m < |tbl| && n <= 6
    requires !Settled(tbl[m].state) && Allowed(tbl[m], driverMask)
    requires forall t: seq<Driver> :: !Settled(init(m, t))
    ensures !Settled(StagesUpTo(tbl, driverMask, n, init).0[m].state)
    ensures StagesUpTo(tbl, driverMask, n, init).0[m].mask == tbl[m].mask
    ensures StagesUpTo(tbl, driverMask, n, init).0[m].dtype == tbl[m].dtype
    ensures Count(StagesUpTo(tbl, driverMask, n, init).1, m) == PassesAdmitting(tbl[m].dtype, n)
  {
    if n > 0 {
      RetryingDriverCalls(tbl, driverMask, n - 1, init, m);
      StageStep(tbl, driverMask, n, init, m);
      var d := StagesUpTo(tbl, driverMask, n - 1, init).0[m];
      assert Allowed(d, driverMask);
      assert WillInit(d, driverMask, n - 1) <==> tbl[m].dtype <= n - 1;
    }
  }

  lemma RetryingDriverCalledPerPass(tbl: seq<Driver>, driverMask: u8, init: InitBehaviour, m: nat)
    requires m < |tbl|
    requires !Settled(tbl[m].state) && Allowed(tbl[m], driverMask)
    requires forall t: seq<Driver> :: !Settled(init(m, t))
    ensures Count(DInit(tbl, driverMask, init).1, m) == 6 - tbl[m].dtype
  {
    RetryingDriverCalls(tbl, driverMask, 6, init, m);
  }

  /** A driver whose `init` settles it is called exactly once, in the pass for its own type. */
  lemma {:induction false} SettlingDriverCalls(tbl: seq<Driver>, driverMask: u8, n: nat, init: InitBehaviour, m: nat)
    requires m < |tbl| && n <= 6
    requires !Settled(tbl[m].state) && Allowed(tbl[m], driverMask)
    requires forall t: seq<Driver> :: Settled(init(m, t))
    ensures n <= tbl[m].dtype ==>
      StagesUpTo(tbl, driverMask, n, init).0[m] == tbl[m] &&
      Count(StagesUpTo(tbl, driverMask, n, init).1, m) == 0
    ensures n > tbl[m].dtype ==>
      Settled(StagesUpTo(tbl, driverMask, n, init).0[m].state) &&
      Count(StagesUpTo(tbl, driverMask, n, init).1, m) == 1
  {
    if n > 0 {
      SettlingDriverCalls(tbl, driverMask, n - 1, init, m);
      StageStep(tbl, driverMask, n, init, m);
      var d := StagesUpTo(tbl, driverMask, n - 1, init).0[m];
      if n - 1 < tbl[m].dtype {
        assert !WillInit(d, driverMask, n - 1);
      } else if n - 1 == tbl[m].dtype {
        assert d == tbl[m];
        assert WillInit(d, driverMask, n - 1);
      } else {
        assert !WillInit(d, driverMask, n - 1);
      }
    }
  }

  lemma SettlingDriverCalledOnce(tbl: seq<Driver>, driverMask: u8, init: InitBehaviour, m: nat)
    requires m < |tbl|
    requires !Settled(tbl[m].state) && Allowed(tbl[m], driverMask)
    requires forall t: seq<Driver> :: Settled(init(m, t))
    ensures Count(DInit(tbl, driverMask, init).1, m) == 1
    ensures Settled(DInit(tbl, driverMask, init).0[m].state)
  {
    SettlingDriverCalls(tbl, driverMask, 6, init, m);
  }

  /** A settled descriptor at the start of pass a is still the same after pass b - 1. */
  lemma {:induction false} SettledPersists(tbl: seq<Driver>, driverMask: u8, a: nat, b: nat, init: InitBehaviour, m: nat)
    requires a <= b && m < |tbl|
    requires Settled(StagesUpTo(tbl, driverMask, a, init).0[m].state)
    ensures StagesUpTo(tbl, driverMask, b, init).0[m] == StagesUpTo(tbl, driverMask, a, init).0[m]
    decreases b
  {
    if a < b {
      SettledPersists(tbl, driverMask, a, b - 1, init, m);
      StageStep(tbl, driverMask, b, init, m);
    }
  }

  /** `init` of m only ever yields NEED_DEP or READY, so m is never FAULTED, NO_HARDWARE or INITIALIZING. */
  lemma {:induction false} DependentStaysPending(tbl: seq<Driver>, driverMask: u8, n: nat, init: InitBehaviour, m: nat)
    requires m < |tbl|
    requires !Settled(tbl[m].state)
    requires forall t: seq<Driver> :: init(m, t) == NeedDep || init(m, t) == Ready
    ensures !Settled(StagesUpTo(tbl, driverMask, n, init).0[m].state) ||
      StagesUpTo(tbl, driverMask, n, init).0[m].state == Ready
    ensures StagesUpTo(tbl, driverMask, n, init).0[m].dtype == tbl[m].dtype
    ensures StagesUpTo(tbl, driverMask, n, init).0[m].mask == tbl[m].mask
  {
    if n > 0 {
      DependentStaysPending(tbl, driverMask, n - 1, init, m);
      StageStep(tbl, driverMask, n, init, m);
    }
  }

  /**
   * One pass, from the table `before`: a dependent m that is READY or due to
   * be initialised ends the pass READY when j is READY by the time the pass
   * reaches m.
   */
  lemma PassReadiesDependent(before: seq<Driver>, driverMask: u8, u: int, init: InitBehaviour, m: nat, j: nat)
    requires m < |before| && j < |before|
    requires before[m].state == Ready || WillInit(before[m], driverMask, u)
    requires forall s: seq<Driver> :: init(m, s) == if j < |s| && s[j].state == Ready then Ready else NeedDep
    requires PassUpTo(before, driverMask, u, m, init).0[j].state == Ready
    ensures Pass(before, driverMask, u, init).0[m].state == Ready
  {
    if before[m].state == Ready {
      PassKeepsIdle(before, driverMask, u, init, m);
    } else {
      var seen := PassUpTo(before, driverMask, u, m, init).0;
      assert init(m, seen) == Ready;
      PassEffect(before, driverMask, u, |before|, init, m);
    }
  }

  /**
   * NEED_DEP retry: a driver that reports NEED_DEP until descriptor j is
   * READY ends READY whenever j is READY by the end of any pass but the last.
   */
  lemma DependencyResolves(tbl: seq<Driver>, driverMask: u8, init: InitBehaviour, m: nat, j: nat, t: nat)
    requires m < |tbl| && j < |tbl| && m != j && t < 5
    requires !Settled(tbl[m].state) && Allowed(tbl[m], driverMask)
    requires forall s: seq<Driver> :: init(m, s) == if j < |s| && s[j].state == Ready then Ready else NeedDep
    requires StagesUpTo(tbl, driverMask, t + 1, init).0[j].state == Ready
    ensures DInit(tbl, driverMask, init).0[m].state == Ready
  {
    var u := if tbl[m].dtype <= t + 1 then t + 1 else tbl[m].dtype;
    var before := StagesUpTo(tbl, driverMask, u, init).0;
    SettledPersists(tbl, driverMask, t + 1, u, init, j);
    assert before[j].state == Ready && !WillInit(before[j], driverMask, u);
    DependentStaysPending(tbl, driverMask, u, init, m);
    assert before[m].state == Ready || WillInit(before[m], driverMask, u);
    PassEffect(before, driverMask, u, m, init, j);
    PassReadiesDependent(before, driverMask, u, init, m, j);
    assert StagesUpTo(tbl, driverMask, u + 1, init).0 == Pass(before, driverMask, u, init).0;
    SettledPersists(tbl, driverMask, u + 1, 6, init, m);
  }

  /**
   * NEED_DEP within one pass: when j comes before m in the table and turns
   * READY in a pass that m's type admits, the last pass included, m sees it
   * later in that same pass and ends READY. (When j comes after m and only
   * turns READY in the last pass, no pass is left to retry m.)
   */
  lemma DependencyResolvesInPass(tbl: seq<Driver>, driverMask: u8, init: InitBehaviour, m: nat, j: nat, p: nat)
    requires m < |tbl| && j < m && tbl[m].dtype <= p <= 5
    requires !Settled(tbl[m].state) && Allowed(tbl[m], driverMask)
    requires forall s: seq<Driver> :: init(m, s) == if j < |s| && s[j].state == Ready then Ready else NeedDep
    requires StagesUpTo(tbl, driverMask, p + 1, init).0[j].state == Ready
    ensures DInit(tbl, driverMask, init).0[m].state == Ready
  {
    var before := StagesUpTo(tbl, driverMask, p, init).0;
    DependentStaysPending(tbl, driverMask, p, init, m);
    assert before[m].state == Ready || WillInit(before[m], driverMask, p);
    PassEffect(before, driverMask, p, m, init, j);
    PassEffect(before, driverMask, p, |before|, init, j);
    PassReadiesDependent(before, driverMask, p, init, m, j);
    assert StagesUpTo(tbl, driverMask, p + 1, init).0 == Pass(before, driverMask, p, init).0;
    SettledPersists(tbl, driverMask, p + 1, 6, init, m);
  }

  // --------------------------------------------------------- callbacks

  /** The lowest index at or after i holding x. */
  function FindFrom(s: seq<nat>, x: nat, i: nat): (r: Option<nat>)
    decreases |s| - i
    ensures r.Some? ==> i <= r.value < |s| && s[r.value] == x && forall k :: i <= k < r.value ==> s[k] != x
    ensures r.None? ==> forall k :: i <= k < |s| ==> s[k] != x
  {
    if i >= |s| then None
    else if s[i] == x then Some(i)
    else FindFrom(s, x, i + 1)
  }

  /** `D_AddCallback`: the lowest empty slot receives cb; None when every slot is taken (panic). */
  function AddCallback(s: seq<nat>, cb: nat): (r: Option<seq<nat>>)
    ensures r.None? <==> NULL !in s
    ensures r.Some? ==> |r.value| == |s|
    ensures r.Some? ==>
      exists k :: (0 <= k < |s| && s[k] == NULL && r.value == s[k := cb] && forall i :: 0 <= i < k ==> s[i] != NULL)
  {
    match FindFrom(s, NULL, 0)
    case None => None
    case Some(k) => Some(s[k := cb])
  }

  /** `D_RemoveCallback`: the lowest slot equal to cb becomes NULL; no match changes nothing. */
  function RemoveCallback(s: seq<nat>, cb: nat): (r: seq<nat>)
    ensures cb !in s ==> r == s
    ensures cb in s ==>
      exists k :: (0 <= k < |s| && s[k] == cb && r == s[k := NULL] && forall i :: 0 <= i < k ==> s[i] != cb)
  {
    match FindFrom(s, cb, 0)
    case None => s
    case Some(k) => s[k := NULL]
  }

  /** `D_RunCallbacks`: the non-NULL slots, in ascending slot order. */
  function RunOrder(s: seq<nat>): seq<nat>
  {
    if s == [] then []
    else if s[0] != NULL then [s[0]] + RunOrder(s[1..])
    else RunOrder(s[1..])
  }

  /** Every non-empty slot is called once per run and nothing else is called. */
  lemma {:induction false} RunCallsEachSlotOnce(s: seq<nat>, x: nat)
    ensures multiset(RunOrder(s))[x] == if x == NULL then 0 else multiset(s)[x]
  {
    if s != [] {
      RunCallsEachSlotOnce(s[1..], x);
      assert s == [s[0]] + s[1..];
    }
  }

  /** Adding a fresh callback and removing it again restores the table. */
  lemma AddThenRemove(s: seq<nat>, cb: nat)
    requires cb != NULL && cb !in s && NULL in s
    ensures AddCallback(s, cb).Some? && RemoveCallback(AddCallback(s, cb).value, cb) == s
  {
    var k := FindFrom(s, NULL, 0).value;
    var s' := s[k := cb];
    assert s'[k] == cb;
    var k' := FindFrom(s', cb, 0).value;
    assert k' == k;
    assert s'[k := NULL] == s;
  }

  /** After a successful add, a run calls cb once more and everything else as often as before. */
  lemma RunAfterAdd(s: seq<nat>, cb: nat, x: nat)
    requires cb != NULL && AddCallback(s, cb).Some?
    ensures multiset(RunOrder(AddCallback(s, cb).value))[x]
         == multiset(RunOrder(s))[x] + (if x == cb then 1 else 0)
  {
    var k := FindFrom(s, NULL, 0).value;
    RunCallsEachSlotOnce(s, x);
    RunCallsEachSlotOnce(s[k := cb], x);
  }

  /** After removing a registered cb, a run calls it once less and everything else as before. */
  lemma RunAfterRemove(s: seq<nat>, cb: nat, x: nat)
    requires cb != NULL && cb in s
    ensures multiset(RunOrder(RemoveCallback(s, cb)))[x] + (if x == cb then 1 else 0)
         == multiset(RunOrder(s))[x]
  {
    var k := FindFrom(s, cb, 0).value;
    RunCallsEachSlotOnce(s, x);
    RunCallsEachSlotOnce(s[k := NULL], x);
  }

  // --------------------------------------------------------------- the code

  class Registry {
    /** The descriptors between __drivers_start and __drivers_end. */
    var table: array<Driver>
    /** D_DriverMask: the platform bit set by the console's init. */
    var driverMask: u8
    var callbacks: array<nat>

    ghost predicate Valid()
      reads this
    {
      callbacks.Length == MAX_CALLBACKS
    }

    constructor (descriptors: seq<Driver>, platform: u8)
      ensures Valid() && fresh(table) && fresh(callbacks)
      ensures table[..] == descriptors && driverMask == platform
      ensures forall i :: 0 <= i < MAX_CALLBACKS ==> callbacks[i] == NULL
    {
      table := new Driver[|descriptors|](i requires 0 <= i < |descriptors| => descriptors[i]);
      driverMask := platform;
      callbacks := new nat[MAX_CALLBACKS](_ => NULL);
    }

    /** `D_Init`; returns the indices whose `init` ran, in call order. */
    method Init(init: InitBehaviour) returns (calls: seq<nat>)
      requires Valid()
      modifies table
      ensures (table[..], calls) == DInit(old(table[..]), driverMask, init)
    {
      ghost var start := table[..];
      calls := [];
      var curType := DRIVER_TYPE_CRITICAL;
      while curType <= DRIVER_TYPE_OTHER
        invariant 0 <= curType <= DRIVER_TYPE_OTHER + 1
        invariant (table[..], calls) == StagesUpTo(start, driverMask, curType, init)
      {
        ghost var passStart := table[..];
        ghost var before := calls;
        var i := 0;
        while i < table.Length
          invariant 0 <= i <= table.Length
          invariant table[..] == PassUpTo(passStart, driverMask, curType, i, init).0
          invariant calls == before + PassUpTo(passStart, driverMask, curType, i, init).1
        {
          var d := table[i];
          if d.state == Ready || d.state == NoHardware || d.state == Faulted || d.state == Initializing {
            // already settled: skip
          } else if BitAnd(d.mask, driverMask) == 0 {
            // not valid on this platform
          } else if d.dtype <= curType {
            var s := init(i, table[..]);
            table[i] := d.(state := s);
            calls := calls + [i];
          }
          i := i + 1;
        }
        curType := curType + 1;
      }
    }

    /** `D_AddCallback`; `panicked` when every slot is taken. */
    method AddCb(cb: nat) returns (panicked: bool)
      requires Valid()
      modifies callbacks
      ensures panicked <==> AddCallback(old(callbacks[..]), cb).None?
      ensures panicked ==> callbacks[..] == old(callbacks[..])
      ensures !panicked ==> callbacks[..] == AddCallback(old(callbacks[..]), cb).value
    {
      var i := 0;
      while i < MAX_CALLBACKS
        invariant 0 <= i <= MAX_CALLBACKS
        invariant FindFrom(callbacks[..], NULL, i) == FindFrom(callbacks[..], NULL, 0)
      {
        if callbacks[i] == NULL {
          callbacks[i] := cb;
          return false;
        }
        i := i + 1;
      }
      return true;
    }

    /** `D_RemoveCallback`. */
    method RemoveCb(cb: nat)
      requires Valid()
      modifies callbacks
      ensures callbacks[..] == RemoveCallback(old(callbacks[..]), cb)
    {
      var i := 0;
      while i < MAX_CALLBACKS
        invariant 0 <= i <= MAX_CALLBACKS
        invariant FindFrom(callbacks[..], cb, i) == FindFrom(callbacks[..], cb, 0)
      {
        if callbacks[i] == cb {
          callbacks[i] := NULL;
          return;
        }
        i := i + 1;
      }
    }

    /** `D_RunCallbacks`: the callbacks invoked, in order. */
    method RunCbs() returns (called: seq<nat>)
      requires Valid()
      ensures called == RunOrder(callbacks[..])
    {
      called := [];
      var i := 0;
      while i < MAX_CALLBACKS
        invariant 0 <= i <= MAX_CALLBACKS
        invariant called + RunOrder(callbacks[i..]) == RunOrder(callbacks[..])
      {
        assert callbacks[i..] == [callbacks[i]] + callbacks[i + 1..];
        if callbacks[i] != NULL {
          called := called + [callbacks[i]];
        }
        i := i + 1;
      }
    }
  }
}
