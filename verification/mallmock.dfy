/**
 * The allocation fault injector of `mallmock.c` as a pure state machine.
 *
 * The spin lock is left out: each hooked call is one atomic step. The libc
 * allocator is a parameter (`libc`, the value the libc routine would
 * hand back), so a decision never depends on it.
 */
module MallMock {
  import opened Optional

  /** A pointer value as the C code sees it. */
  datatype Ptr = Null | Addr(a: nat)

  /**
   * The four globals: `g_mallmock_any_alloc_calls`,
   * `g_mallmock_any_alloc_prefail_successes`, `g_mallmock_fail_return` and
   * `g_hook_active`. The counter is unbounded: `size_t` wrap-around is not
   * modelled.
   */
  datatype MockState = MockState(calls: nat, prefailSuccesses: nat, failReturn: Ptr, hookActive: bool)

  /** The static initialisers: disarmed, nothing counted. */
  const Initial: MockState := MockState(0, 0, Null, false)

  /** What a hooked call does once the decision is taken. */
  datatype Decision = Delegate | Fail(rval: Ptr)

  /** The three intercepted entry points and their arguments. */
  datatype Request = Malloc(size: nat) | Calloc(count: nat, size: nat) | Realloc(ptr: Ptr, newSize: nat)

  /**
   * The decision step shared by `malloc`, `calloc` and `realloc`: when
   * armed, the counter is post-incremented on every call and the call whose
   * old counter value equals the configured ordinal fails.
   */
  function Decide(st: MockState): (r: (MockState, Decision))
    ensures !st.hookActive ==> r == (st, Delegate)
    ensures st.hookActive ==> r.0 == st.(calls := st.calls + 1)
    ensures r.1.Fail? <==> st.hookActive && st.calls == st.prefailSuccesses
    ensures r.1.Fail? ==> r.1.rval == st.failReturn
  {
    if st.hookActive then
      (st.(calls := st.calls + 1), if st.calls == st.prefailSuccesses then Fail(st.failReturn) else Delegate)
    else
      (st, Delegate)
  }

  /**
   * One hooked call: `libc` is what the libc routine would return for
   * `req`. Returns the next state and the value handed to the caller.
   */
  function Intercept(st: MockState, req: Request, libc: Ptr): (r: (MockState, Ptr))
    ensures r.0 == Decide(st).0
    ensures Decide(st).1 == Delegate ==> r.1 == libc
    ensures Decide(st).1 != Delegate ==> r.1 == st.failReturn
  {
    var (st', d) := Decide(st);
    match d
    case Delegate => (st', libc)
    case Fail(rval) => (st', rval)
  }

  /** `mallmock_unhook`: clear the active flag and nothing else. */
  function Unhook(st: MockState): (r: MockState)
    ensures !r.hookActive
    ensures r.calls == st.calls && r.prefailSuccesses == st.prefailSuccesses && r.failReturn == st.failReturn
  {
    st.(hookActive := false)
  }

  /** `mallmock_reset`: the same as unhooking; in particular the counter is left alone. */
  function Reset(st: MockState): (r: MockState)
    ensures !r.hookActive
    ensures r.calls == st.calls && r.prefailSuccesses == st.prefailSuccesses && r.failReturn == st.failReturn
    ensures Unhook(r) == r
  {
    Unhook(st)
  }

  /**
   * `mallmock_set_any_alloc_return(rval, k)`: restart the count and arm the
   * hook so that the call with zero-based ordinal `k` returns `rval`.
   */
  function Arm(st: MockState, rval: Ptr, k: nat): (r: MockState)
    ensures r.hookActive && r.calls == 0
    ensures r.prefailSuccesses == k && r.failReturn == rval
  {
    MockState(0, k, rval, true)
  }

  /** `n` hooked calls in a row: the final state and the decision taken for each call. */
  function Run(st: MockState, n: nat): (r: (MockState, seq<Decision>))
    ensures |r.1| == n
    decreases n
  {
    if n == 0 then (st, [])
    else
      var step := Decide(st);
      var rest := Run(step.0, n - 1);
      (rest.0, [step.1] + rest.1)
  }

  /**
   * The number of further calls that succeed before the injected failure,
   * or `None` when no call will fail any more.
   */
  function PendingFailure(st: MockState): (r: Option<nat>)
    ensures r.Some? <==> st.hookActive && st.calls <= st.prefailSuccesses
    ensures r.Some? ==> r.value == st.prefailSuccesses - st.calls
  {
    if st.hookActive && st.calls <= st.prefailSuccesses then Some(st.prefailSuccesses - st.calls) else None
  }

  // ---------------------------------------------------------------------------
  // Properties of runs.
  // ---------------------------------------------------------------------------

  /**
   * While armed, the `i`-th of `n` calls fails exactly when the counter
   * reaches the configured ordinal, and the counter advances by `n`.
   */
  lemma {:induction false} ArmedRun(st: MockState, n: nat)
    requires st.hookActive
    ensures Run(st, n).0 == st.(calls := st.calls + n)
    ensures forall i :: 0 <= i < n ==>
              Run(st, n).1[i] == (if st.calls + i == st.prefailSuccesses then Fail(st.failReturn) else Delegate)
    decreases n
  {
    if n > 0 {
      var st1 := st.(calls := st.calls + 1);
      ArmedRun(st1, n - 1);
      assert Run(st, n).1 == [Decide(st).1] + Run(st1, n - 1).1;
    }
  }

  /** While disarmed, every call is delegated and the state never changes. */
  lemma {:induction false} DisarmedRun(st: MockState, n: nat)
    requires !st.hookActive
    ensures Run(st, n).0 == st
    ensures forall i :: 0 <= i < n ==> Run(st, n).1[i] == Delegate
    decreases n
  {
    if n > 0 {
      DisarmedRun(st, n - 1);
      assert Run(st, n).1 == [Delegate] + Run(st, n - 1).1;
    }
  }

  /**
   * After `Arm(st, rval, k)` the calls `0 .. k-1` are delegated, call `k`
   * returns `rval`, and every later call is delegated again; the earlier
   * history of `st` plays no part.
   */
  lemma ArmedSchedule(st: MockState, rval: Ptr, k: nat, n: nat)
    ensures forall i :: 0 <= i < n ==> Run(Arm(st, rval, k), n).1[i] == (if i == k then Fail(rval) else Delegate)
    ensures Run(Arm(st, rval, k), n).0 == MockState(n, k, rval, true)
  {
    ArmedRun(Arm(st, rval, k), n);
  }

  /** At most one call of any run fails, whatever state the run starts in. */
  lemma AtMostOneFailure(st: MockState, n: nat)
    ensures forall i, j :: 0 <= i < n && 0 <= j < n && Run(st, n).1[i].Fail? && Run(st, n).1[j].Fail? ==> i == j
  {
    if st.hookActive {
      ArmedRun(st, n);
    } else {
      DisarmedRun(st, n);
    }
  }

  /**
   * `PendingFailure` predicts a run: some call among the next `n` fails
   * exactly when a failure is pending within `n` calls, and then it is the
   * call with that ordinal.
   */
  lemma RunFailsAt(st: MockState, n: nat)
    ensures (exists i :: 0 <= i < n && Run(st, n).1[i].Fail?) <==>
              PendingFailure(st).Some? && PendingFailure(st).value < n
    ensures forall i :: 0 <= i < n && Run(st, n).1[i].Fail? ==> PendingFailure(st) == Some(i)
  {
    if st.hookActive {
      ArmedRun(st, n);
      if PendingFailure(st).Some? && PendingFailure(st).value < n {
        assert Run(st, n).1[PendingFailure(st).value].Fail?;
      }
    } else {
      DisarmedRun(st, n);
    }
  }

  /**
   * After a reset no call fails, and the state stays as the reset left it,
   * counter included.
   */
  lemma ResetDisarms(st: MockState, n: nat)
    ensures forall i :: 0 <= i < n ==> Run(Reset(st), n).1[i] == Delegate
    ensures Run(Reset(st), n).0 == Reset(st)
    ensures Reset(st).calls == st.calls
  {
    DisarmedRun(Reset(st), n);
  }

  /**
   * The three entry points share one counter: which routine is called
   * makes no difference to the next state or to whether the call fails.
   */
  lemma SharedCounter(st: MockState, req1: Request, req2: Request, libc: Ptr)
    ensures Intercept(st, req1, libc) == Intercept(st, req2, libc)
  {
  }

  /** A failing call never consults the libc allocator. */
  lemma FailureIgnoresReal(st: MockState, req: Request, libc1: Ptr, libc2: Ptr)
    requires Decide(st).1.Fail?
    ensures Intercept(st, req, libc1) == Intercept(st, req, libc2)
    ensures Intercept(st, req, libc1).1 == st.failReturn
  {
  }

  /** Arming forgets everything about the state it starts from. */
  lemma ArmForgets(st1: MockState, st2: MockState, rval: Ptr, k: nat)
    ensures Arm(st1, rval, k) == Arm(st2, rval, k)
  {
  }

  /** Runs compose: `m` calls and then `n` more are `m + n` calls. */
  lemma {:induction false} RunSplit(st: MockState, m: nat, n: nat)
    ensures Run(Run(st, m).0, n).0 == Run(st, m + n).0
    ensures Run(st, m).1 + Run(Run(st, m).0, n).1 == Run(st, m + n).1
    decreases m
  {
    if m > 0 {
      RunSplit(Decide(st).0, m - 1, n);
      assert Run(st, m + n).1 == [Decide(st).1] + Run(Decide(st).0, m - 1 + n).1;
    }
  }

  /**
   * `PendingFailure` counts down: the next call fails exactly when the
   * count is zero, and a call that is delegated lowers it by one.
   */
  lemma PendingStep(st: MockState)
    ensures Decide(st).1.Fail? <==> PendingFailure(st) == Some(0)
    ensures Decide(st).1 == Delegate ==>
              PendingFailure(Decide(st).0) == (if PendingFailure(st).Some? then Some(PendingFailure(st).value - 1) else None)
  {
  }
}
