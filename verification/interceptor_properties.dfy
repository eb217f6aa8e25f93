/** Properties of the interceptor that relate several requests or hold
    across all of them: the bookkeeping invariant, the dispatch-table
    invariant relative to the boot-time table, the intercept/release round
    trips, the exit purge, and module teardown. */
module InterceptorProperties {
  import opened InterceptorState
  import opened PidList
  import opened Interceptor

  /** A change confined to one admissible slot and its dispatch entry keeps
      the bookkeeping invariant when that slot keeps its own. */
  lemma InvAfterSlotUpdate(cfg: Config, st: State, st2: State, s: int)
    requires Inv(cfg, st) && WellFormed(cfg, st2) && cfg.ValidSyscall(s)
    requires forall i :: 0 <= i < |st.slots| && i != s ==> st2.slots[i] == st.slots[i] && st2.live[i] == st.live[i]
    requires SlotInv(st2.slots[s]) && (st2.slots[s].intercepted <==> st2.live[s] == Interceptor)
    ensures Inv(cfg, st2)
  {
    assert st2.slots[cfg.customSyscall] == st.slots[cfg.customSyscall];
  }

  /** Intercept and release keep the bookkeeping invariant. */
  lemma InterceptPreservesInv(cfg: Config, st: State, caller: Caller, cmd: int, syscall: int)
    requires Inv(cfg, st)
    ensures Inv(cfg, InterceptHandler(cfg, st, caller, cmd, syscall).st)
  {
    var r := InterceptHandler(cfg, st, caller, cmd, syscall);
    if r.code == 0 {
      assert SlotInv(st.slots[syscall]);
      InvAfterSlotUpdate(cfg, st, r.st, syscall);
    }
  }

  /** Start and stop keep the bookkeeping invariant. */
  lemma MonitorPreservesInv(cfg: Config, env: Env, st: State, caller: Caller, cmd: int,
                            syscall: int, pid: int, allocFails: bool)
    requires Inv(cfg, st)
    ensures Inv(cfg, MonitorHandler(cfg, env, st, caller, cmd, syscall, pid, allocFails).st)
  {
    var r := MonitorHandler(cfg, env, st, caller, cmd, syscall, pid, allocFails);
    if r.code == 0 {
      var sl := st.slots[syscall];
      var sl' := r.st.slots[syscall];
      assert SlotInv(sl);
      if cmd == REQUEST_START_MONITORING {
        NoDupCons(pid, sl.pids);
      } else {
        assert |multiset(sl'.pids)| == |multiset(sl.pids)| - 1;
        assert SlotInv(DelPidSysc(sl, pid).slot);
      }
      InvAfterSlotUpdate(cfg, st, r.st, syscall);
    }
  }

  /** Every control request keeps the bookkeeping invariant. */
  lemma RequestPreservesInv(cfg: Config, env: Env, st: State, caller: Caller, cmd: int,
                            syscall: int, pid: int, allocFails: bool)
    requires Inv(cfg, st)
    ensures Inv(cfg, MySyscallRequest(cfg, env, st, caller, cmd, syscall, pid, allocFails).st)
  {
    if cmd == REQUEST_SYSCALL_INTERCEPT || cmd == REQUEST_SYSCALL_RELEASE {
      InterceptPreservesInv(cfg, st, caller, cmd, syscall);
    } else if cmd == REQUEST_START_MONITORING || cmd == REQUEST_STOP_MONITORING {
      MonitorPreservesInv(cfg, env, st, caller, cmd, syscall, pid, allocFails);
    }
  }

  /** Every control request keeps the dispatch table faithful to the table
      found at load time. */
  lemma RequestPreservesFaithful(cfg: Config, boot: seq<Handler>, env: Env, st: State, caller: Caller,
                                 cmd: int, syscall: int, pid: int, allocFails: bool)
    requires Faithful(cfg, boot, st)
    ensures Faithful(cfg, boot, MySyscallRequest(cfg, env, st, caller, cmd, syscall, pid, allocFails).st)
  {
    var r := MySyscallRequest(cfg, env, st, caller, cmd, syscall, pid, allocFails);
    if r.code == 0 && (cmd == REQUEST_SYSCALL_INTERCEPT || cmd == REQUEST_SYSCALL_RELEASE) {
      forall s | 0 <= s < |r.st.slots|
        ensures if r.st.slots[s].intercepted
                then r.st.live[s] == Interceptor && r.st.slots[s].f == Installed(cfg, boot)[s]
                else r.st.live[s] == Installed(cfg, boot)[s]
      {
        if s != syscall { assert r.st.slots[s] == st.slots[s] && r.st.live[s] == st.live[s]; }
      }
    }
  }

  /** The purge's effect on each scanned slot: its list loses every copy of
      the pid, and mode 1 drops to 0 exactly when the list empties. */
  lemma ExitGroupPurgeSlots(cfg: Config, st: State, pid: int, status: int)
    requires Inv(cfg, st)
    ensures var r := MyExitGroupCall(cfg, st, pid, status);
      forall i :: 1 <= i < cfg.nrSyscalls ==>
        && r.st.slots[i].pids == Without(st.slots[i].pids, pid)
        && r.st.slots[i].monitored ==
             (if st.slots[i].monitored == SOME_PIDS && r.st.slots[i].pids == []
              then NOT_MONITORED else st.slots[i].monitored)
  {
    var r := MyExitGroupCall(cfg, st, pid, status);
    forall i | 1 <= i < cfg.nrSyscalls
      ensures r.st.slots[i].pids == Without(st.slots[i].pids, pid)
      ensures r.st.slots[i].monitored ==
                 (if st.slots[i].monitored == SOME_PIDS && r.st.slots[i].pids == []
                  then NOT_MONITORED else st.slots[i].monitored)
    {
      assert SlotInv(st.slots[i]);
      assert r.st.slots[i] == PurgeSlot(st.slots[i], pid).slot;
    }
  }

  /** The purge touches neither the dispatch table nor any slot's saved
      handler or flag, so the table stays faithful to the boot table. */
  lemma ExitGroupKeepsFaithful(cfg: Config, boot: seq<Handler>, st: State, pid: int, status: int)
    requires Faithful(cfg, boot, st)
    ensures Faithful(cfg, boot, MyExitGroupCall(cfg, st, pid, status).st)
  {
    var r := MyExitGroupCall(cfg, st, pid, status);
    forall i | 0 <= i < |r.st.slots|
      ensures r.st.slots[i].intercepted == st.slots[i].intercepted && r.st.slots[i].f == st.slots[i].f
    {
    }
  }

  /** The exit purge keeps both invariants; in every slot it scans it leaves
      the list without the pid, and it turns mode 1 off exactly when it
      empties the list, leaving modes 0 and 2 alone. */
  lemma ExitGroupPurge(cfg: Config, boot: seq<Handler>, st: State, pid: int, status: int)
    requires Inv(cfg, st)
    ensures var r := MyExitGroupCall(cfg, st, pid, status);
      && Inv(cfg, r.st)
      && (Faithful(cfg, boot, st) ==> Faithful(cfg, boot, r.st))
      && (forall i :: 1 <= i < cfg.nrSyscalls ==>
            && r.st.slots[i].pids == Without(st.slots[i].pids, pid)
            && r.st.slots[i].monitored ==
                 (if st.slots[i].monitored == SOME_PIDS && r.st.slots[i].pids == []
                  then NOT_MONITORED else st.slots[i].monitored))
  {
    var r := MyExitGroupCall(cfg, st, pid, status);
    var d := DelPid(cfg, st.slots, pid);
    assert r.st.slots == d.slots;
    forall i | 0 <= i < |r.st.slots| ensures SlotInv(r.st.slots[i]) {
      if 1 <= i < cfg.nrSyscalls {
        assert SlotInv(st.slots[i]);
        assert r.st.slots[i] == PurgeSlot(st.slots[i], pid).slot;
      }
    }
    ExitGroupPurgeSlots(cfg, st, pid, status);
    if Faithful(cfg, boot, st) {
      ExitGroupKeepsFaithful(cfg, boot, st, pid, status);
    }
    assert r.st.slots[cfg.customSyscall].pids == [] by {
      if 1 <= cfg.customSyscall {
        assert r.st.slots[cfg.customSyscall] == PurgeSlot(st.slots[cfg.customSyscall], pid).slot;
      }
    }
  }

  /** When the control syscall is number 0, the only list the exit purge
      can miss is that of slot NR_syscalls: slot 0 never holds a pid. */
  lemma ExitGroupMissesOnlyLastSlot(cfg: Config, st: State, pid: int, status: int)
    requires Inv(cfg, st) && cfg.customSyscall == 0
    ensures var r := MyExitGroupCall(cfg, st, pid, status);
      forall i :: 0 <= i < cfg.nrSyscalls ==> pid !in r.st.slots[i].pids
  {
    var r := MyExitGroupCall(cfg, st, pid, status);
    assert r.st.slots[0] == st.slots[0];
  }

  /** A pid still listed in slot NR_syscalls survives its own exit. The
      premise holds in the model only: in the program that slot's list head
      is never initialised, so monitoring it crashes before a pid is added. */
  lemma ExitGroupKeepsLastSlot(cfg: Config, st: State, pid: int, status: int)
    requires WellFormed(cfg, st) && pid in st.slots[cfg.nrSyscalls].pids
    ensures pid in MyExitGroupCall(cfg, st, pid, status).st.slots[cfg.nrSyscalls].pids
  {
  }

  /** In any state that keeps the table faithful to the boot table, a call
      that reaches the wrapper of an intercepted syscall returns what the
      entry installed at load time returns for the same registers, and logs
      the call once. */
  lemma WrapperForwardsToInstalled(cfg: Config, boot: seq<Handler>, st: State, pid: int,
                                   reg: Regs, call: (Handler, Regs) -> int)
    requires Faithful(cfg, boot, st)
    requires 0 <= reg.ax <= cfg.nrSyscalls && st.slots[reg.ax].intercepted
    ensures st.live[reg.ax] == Interceptor
    ensures InterceptorCall(cfg, st, pid, reg, call) == Dispatch([CallRecord(pid, reg)], call(Installed(cfg, boot)[reg.ax], reg))
  {
  }

  /** Intercept then release, both by root, puts the dispatch entry back,
      leaves the slot released and empty with the saved handler in `f`,
      and touches nothing else. */
  lemma InterceptReleaseRoundTrip(cfg: Config, env: Env, st: State, root: Caller, s: int, pid: int, alloc: bool)
    requires Inv(cfg, st) && root.IsRoot()
    requires cfg.ValidSyscall(s) && !st.slots[s].intercepted
    ensures var r1 := MySyscallRequest(cfg, env, st, root, REQUEST_SYSCALL_INTERCEPT, s, pid, alloc);
      var r2 := MySyscallRequest(cfg, env, r1.st, root, REQUEST_SYSCALL_RELEASE, s, pid, alloc);
      && r1.code == 0 && r1.st.slots[s].f == st.live[s] && r1.st.live[s] == Interceptor
      && r2.code == 0
      && r2.st.live == st.live
      && r2.st.slots[s] == Slot(st.live[s], false, NOT_MONITORED, [], 0)
      && (forall i :: 0 <= i < |st.slots| && i != s ==> r2.st.slots[i] == st.slots[i])
  {
    var r1 := MySyscallRequest(cfg, env, st, root, REQUEST_SYSCALL_INTERCEPT, s, pid, alloc);
    var r2 := MySyscallRequest(cfg, env, r1.st, root, REQUEST_SYSCALL_RELEASE, s, pid, alloc);
    assert r2.st.live == st.live by {
      forall i | 0 <= i < |st.live| ensures r2.st.live[i] == st.live[i] {
        if i != s { assert r1.st.live[i] == st.live[i]; }
      }
    }
  }

  /** Release then intercept, both by root, leaves the syscall intercepted
      with the very same saved handler. */
  lemma ReleaseInterceptRoundTrip(cfg: Config, env: Env, st: State, root: Caller, s: int, pid: int, alloc: bool)
    requires Inv(cfg, st) && root.IsRoot()
    requires cfg.ValidSyscall(s) && st.slots[s].intercepted
    ensures var r1 := MySyscallRequest(cfg, env, st, root, REQUEST_SYSCALL_RELEASE, s, pid, alloc);
      var r2 := MySyscallRequest(cfg, env, r1.st, root, REQUEST_SYSCALL_INTERCEPT, s, pid, alloc);
      && r1.code == 0 && r2.code == 0
      && r2.st.slots[s].intercepted && r2.st.slots[s].f == st.slots[s].f
      && r2.st.live == st.live
  {
    var r1 := MySyscallRequest(cfg, env, st, root, REQUEST_SYSCALL_RELEASE, s, pid, alloc);
    var r2 := MySyscallRequest(cfg, env, r1.st, root, REQUEST_SYSCALL_INTERCEPT, s, pid, alloc);
    assert st.live[s] == Interceptor;
    assert r2.st.live == st.live by {
      forall i | 0 <= i < |st.live| ensures r2.st.live[i] == st.live[i] {
        if i != s { assert r1.st.live[i] == st.live[i]; }
      }
    }
  }

  /** A second intercept is -EBUSY and a second release is -EINVAL. */
  lemma RepeatedRequestsRefused(cfg: Config, env: Env, st: State, root: Caller, s: int, pid: int, alloc: bool)
    requires Inv(cfg, st) && root.IsRoot() && cfg.ValidSyscall(s)
    ensures var r1 := MySyscallRequest(cfg, env, st, root, REQUEST_SYSCALL_INTERCEPT, s, pid, alloc);
      !st.slots[s].intercepted ==>
        MySyscallRequest(cfg, env, r1.st, root, REQUEST_SYSCALL_INTERCEPT, s, pid, alloc).code == -EBUSY
    ensures var r1 := MySyscallRequest(cfg, env, st, root, REQUEST_SYSCALL_RELEASE, s, pid, alloc);
      st.slots[s].intercepted ==>
        MySyscallRequest(cfg, env, r1.st, root, REQUEST_SYSCALL_RELEASE, s, pid, alloc) == Reply(r1.st, -EINVAL)
  {
  }

  /** Stopping any one pid clears mode 2 too: after root starts monitoring
      all pids and a specific pid is started and then stopped, the slot is
      no longer monitored even though root never stopped pid 0. */
  lemma StopClearsAllPidsMode(cfg: Config, env: Env, st: State, root: Caller, s: int, p: int)
    requires Inv(cfg, st) && root.IsRoot()
    requires cfg.ValidSyscall(s) && st.slots[s].intercepted && st.slots[s].pids == []
    requires p > 0 && env.hasTask(p)
    ensures var r1 := MySyscallRequest(cfg, env, st, root, REQUEST_START_MONITORING, s, 0, false);
      var r2 := MySyscallRequest(cfg, env, r1.st, root, REQUEST_START_MONITORING, s, p, false);
      var r3 := MySyscallRequest(cfg, env, r2.st, root, REQUEST_STOP_MONITORING, s, p, false);
      && r1.code == 0 && r1.st.slots[s].monitored == ALL_PIDS
      && r2.code == 0 && r2.st.slots[s].monitored == ALL_PIDS
      && r3.code == 0 && r3.st.slots[s].monitored == NOT_MONITORED
      && r3.st.slots[s].pids == [0]
  {
    var r1 := MySyscallRequest(cfg, env, st, root, REQUEST_START_MONITORING, s, 0, false);
    var r2 := MySyscallRequest(cfg, env, r1.st, root, REQUEST_START_MONITORING, s, p, false);
    var r3 := MySyscallRequest(cfg, env, r2.st, root, REQUEST_STOP_MONITORING, s, p, false);
    assert r2.st.slots[s].pids == [p, 0];
    assert multiset(r3.st.slots[s].pids) == multiset{0};
    assert |r3.st.slots[s].pids| == 1;
    assert r3.st.slots[s].pids[0] in multiset(r3.st.slots[s].pids);
  }

  /** Unloading a module that has released every syscall puts back exactly
      the dispatch table it found at load time. */
  lemma TeardownRestoresBootTable(cfg: Config, boot: seq<Handler>, st: State)
    requires Faithful(cfg, boot, st)
    requires forall i :: 0 <= i < |st.slots| ==> !st.slots[i].intercepted
    ensures ExitFunction(cfg, st).live == boot
  {
    var r := ExitFunction(cfg, st);
    forall i | 0 <= i < |boot| ensures r.live[i] == boot[i] {
      assert !st.slots[i].intercepted;
    }
  }

  /** Unloading while a syscall is still intercepted leaves the wrapper in
      its dispatch entry, where the boot-time table had a foreign handler. */
  lemma TeardownLeavesInterceptedEntry(cfg: Config, boot: seq<Handler>, st: State, s: int)
    requires Inv(cfg, st) && Faithful(cfg, boot, st) && forall i :: 0 <= i < |boot| ==> Foreign(boot[i])
    requires 0 <= s < |st.slots| && st.slots[s].intercepted && s != cfg.exitGroup
    ensures ExitFunction(cfg, st).live[s] == Interceptor
    ensures ExitFunction(cfg, st).live[s] != boot[s]
  {
    assert Foreign(boot[s]);
  }

  /** The wrapper logs a call whether or not the caller is being watched:
      a syscall monitored for one pid still logs the calls of another pid,
      and both get the saved handler's result. */
  lemma MonitorScenario(cfg: Config, boot: seq<Handler>, env: Env, p1: int, p2: int,
                        reg: Regs, call: (Handler, Regs) -> int)
    requires cfg.Valid() && |boot| == cfg.nrSyscalls + 1
    requires forall i :: 0 <= i < |boot| ==> Foreign(boot[i])
    requires cfg.ValidSyscall(7) && cfg.exitGroup != 7 && reg.ax == 7
    requires p1 > 0 && env.hasTask(p1) && env.uidOf(p1) != 0 && p2 != p1
    ensures var st0 := InitFunction(cfg, boot);
      var r1 := MySyscallRequest(cfg, env, st0, Caller(0, 1), REQUEST_SYSCALL_INTERCEPT, 7, 0, false);
      var r2 := MySyscallRequest(cfg, env, r1.st, Caller(env.uidOf(p1), p1), REQUEST_START_MONITORING, 7, p1, false);
      && r1.code == 0 && r2.code == 0
      && r2.st.slots[7].pids == [p1] && r2.st.slots[7].monitored == SOME_PIDS
      && InterceptorCall(cfg, r2.st, p1, reg, call) == Dispatch([CallRecord(p1, reg)], call(boot[7], reg))
      && InterceptorCall(cfg, r2.st, p2, reg, call) == Dispatch([CallRecord(p2, reg)], call(boot[7], reg))
  {
    var st0 := InitFunction(cfg, boot);
    assert st0.live[7] == boot[7];
  }
}
