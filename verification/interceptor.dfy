/** The interceptor's entry points: the custom control syscall and its two
    handlers, the logging wrapper installed for intercepted syscalls, the
    replacement `exit_group`, and module load and unload. Each request is
    one atomic transition from a `State` to a `Reply`. */
module Interceptor {
  import opened InterceptorState
  import opened PidList

  /** The authorisation rule for the monitoring commands: root may do
      anything; anyone else only for a specific pid whose task has the same
      real uid as the caller's own task. */
  predicate MayMonitor(env: Env, caller: Caller, pid: int) {
    caller.IsRoot() || (pid != 0 && env.uidOf(pid) == env.uidOf(caller.pid))
  }

  /** `intercept_handler`: any command other than INTERCEPT is a release.
      Checks run in the order range / not-intercepted release, root, busy. */
  function InterceptHandler(cfg: Config, st: State, caller: Caller, cmd: int, syscall: int): (r: Reply)
    requires WellFormed(cfg, st)
    ensures WellFormed(cfg, r.st)
    ensures r.code in {0, -EINVAL, -EPERM, -EBUSY}
    ensures r.code != 0 ==> r.st == st
    ensures r.code == -EINVAL <==>
      !cfg.ValidSyscall(syscall) || (cmd != REQUEST_SYSCALL_INTERCEPT && !st.slots[syscall].intercepted)
    ensures r.code == -EPERM <==>
      && cfg.ValidSyscall(syscall)
      && (cmd == REQUEST_SYSCALL_INTERCEPT || st.slots[syscall].intercepted)
      && !caller.IsRoot()
    ensures r.code == -EBUSY <==>
      && cfg.ValidSyscall(syscall) && caller.IsRoot()
      && cmd == REQUEST_SYSCALL_INTERCEPT && st.slots[syscall].intercepted
    // nothing outside the requested slot and its dispatch entry moves
    ensures r.code == 0 ==>
      && r.st.origCustom == st.origCustom && r.st.origExitGroup == st.origExitGroup
      && (forall i :: 0 <= i < |st.slots| && i != syscall ==>
            r.st.slots[i] == st.slots[i] && r.st.live[i] == st.live[i])
    // intercept saves the live entry and installs the wrapper
    ensures r.code == 0 && cmd == REQUEST_SYSCALL_INTERCEPT ==>
      && r.st.slots[syscall] == st.slots[syscall].(f := st.live[syscall], intercepted := true)
      && r.st.live[syscall] == Interceptor
    // release puts the saved entry back and forgets every monitored pid
    ensures r.code == 0 && cmd != REQUEST_SYSCALL_INTERCEPT ==>
      && r.st.live[syscall] == st.slots[syscall].f
      && r.st.slots[syscall] == Slot(st.slots[syscall].f, false, NOT_MONITORED, [], 0)
  {
    var intercept := cmd == REQUEST_SYSCALL_INTERCEPT;
    if !cfg.ValidSyscall(syscall) || (!intercept && !st.slots[syscall].intercepted) then
      Reply(st, -EINVAL)
    else if caller.uid != 0 then
      Reply(st, -EPERM)
    else if intercept && st.slots[syscall].intercepted then
      Reply(st, -EBUSY)
    else if intercept then
      var sl := st.slots[syscall].(f := st.live[syscall]);
      Reply(st.(slots := st.slots[syscall := sl.(intercepted := true)],
                live := st.live[syscall := Interceptor]), 0)
    else
      var sl := DestroyList(st.slots[syscall]);
      Reply(st.(slots := st.slots[syscall := sl.(intercepted := false)],
                live := st.live[syscall := sl.f]), 0)
  }

  /** `monitor_handler`: any command other than START is a stop. Checks run
      in the order validity, permission, busy, then the list update, whose
      failure is -ENOMEM (start) or -EINVAL (stop). */
  function MonitorHandler(cfg: Config, env: Env, st: State, caller: Caller, cmd: int,
                          syscall: int, pid: int, allocFails: bool): (r: Reply)
    requires WellFormed(cfg, st)
    ensures WellFormed(cfg, r.st)
    ensures r.code in {0, -EINVAL, -EPERM, -EBUSY, -ENOMEM}
    ensures r.code != 0 ==> r.st == st
    ensures r.st.live == st.live && r.st.origCustom == st.origCustom && r.st.origExitGroup == st.origExitGroup
    ensures forall i :: 0 <= i < |st.slots| && i != syscall ==> r.st.slots[i] == st.slots[i]
    // bad arguments are rejected before the caller is looked at
    ensures !MonitorArgsValid(cfg, env, st, cmd, syscall, pid) ==> r.code == -EINVAL
    ensures MonitorArgsValid(cfg, env, st, cmd, syscall, pid) ==>
          && (r.code == -EPERM <==> !MayMonitor(env, caller, pid))
          && (MayMonitor(env, caller, pid) ==>
                var sl := st.slots[syscall];
                if cmd == REQUEST_START_MONITORING then
                  && (r.code == -EBUSY <==> pid in sl.pids)
                  && (r.code == -ENOMEM <==> pid !in sl.pids && allocFails)
                  && (r.code == 0 <==> pid !in sl.pids && !allocFails)
                  && (r.code == 0 ==>
                        var sl' := r.st.slots[syscall];
                        && sl'.pids == [pid] + sl.pids
                        && sl'.listcount == sl.listcount + 1
                        && sl'.f == sl.f && sl'.intercepted == sl.intercepted
                        && (caller.IsRoot() && pid == 0 ==> sl'.monitored == ALL_PIDS)
                        && (!caller.IsRoot() ==> sl'.monitored == SOME_PIDS)
                        && (caller.IsRoot() && pid != 0 ==> sl'.monitored == sl.monitored))
                else
                  && (r.code == -EINVAL <==> pid !in sl.pids)
                  && (r.code == 0 <==> pid in sl.pids)
                  && (r.code == 0 ==>
                        var sl' := r.st.slots[syscall];
                        && multiset(sl'.pids) == multiset(sl.pids) - multiset{pid}
                        && sl'.listcount == sl.listcount - 1
                        && sl'.monitored == NOT_MONITORED
                        && sl'.f == sl.f && sl'.intercepted == sl.intercepted))
  {
    var monitor := cmd == REQUEST_START_MONITORING;
    if || !cfg.ValidSyscall(syscall)
       || pid < 0 || (pid != 0 && !env.hasTask(pid))
       || (!monitor && !st.slots[syscall].intercepted) then
      Reply(st, -EINVAL)
    else if caller.uid != 0 && (pid == 0 || CheckPidFromList(env, caller.pid, pid) != 0) then
      Reply(st, -EPERM)
    else if monitor && CheckPidMonitored(st.slots[syscall], pid) == 1 then
      Reply(st, -EBUSY)
    else if monitor then
      var a := AddPidSysc(st.slots[syscall], pid, allocFails);
      if a.code != 0 then Reply(st, -ENOMEM)
      else
        var mode :=
          if caller.uid == 0 && pid == 0 then ALL_PIDS
          else if caller.uid != 0 && pid != 0 then SOME_PIDS
          else a.slot.monitored;
        Reply(st.(slots := st.slots[syscall := a.slot.(monitored := mode)]), 0)
    else
      var d := DelPidSysc(st.slots[syscall], pid);
      if d.code != 0 then Reply(st, -EINVAL)
      else Reply(st.(slots := st.slots[syscall := d.slot.(monitored := NOT_MONITORED)]), 0)
  }

  /** The request passes the argument checks that `monitor_handler` makes
      before it looks at the caller. */
  predicate MonitorArgsValid(cfg: Config, env: Env, st: State, cmd: int, syscall: int, pid: int)
    requires WellFormed(cfg, st)
  {
    && cfg.ValidSyscall(syscall)
    && pid >= 0 && (pid != 0 ==> env.hasTask(pid))
    && (cmd == REQUEST_START_MONITORING || st.slots[syscall].intercepted)
  }

  /** `my_syscall`: routes the four commands to their handlers; any other
      command code is -EINVAL. */
  function MySyscallRequest(cfg: Config, env: Env, st: State, caller: Caller, cmd: int,
                            syscall: int, pid: int, allocFails: bool): (r: Reply)
    requires WellFormed(cfg, st)
    ensures WellFormed(cfg, r.st)
    ensures r.code != 0 ==> r.st == st
    ensures r.code in {0, -EINVAL, -EPERM, -EBUSY, -ENOMEM}
    ensures (cmd !in {REQUEST_SYSCALL_INTERCEPT, REQUEST_SYSCALL_RELEASE,
                      REQUEST_START_MONITORING, REQUEST_STOP_MONITORING}) ==> r.code == -EINVAL
    // a malformed syscall number is refused the same way for every caller
    ensures !cfg.ValidSyscall(syscall) ==> r == Reply(st, -EINVAL)
    // only the monitoring commands can run out of memory
    ensures r.code == -ENOMEM ==> cmd == REQUEST_START_MONITORING && allocFails
    // the saved originals never change while the module is loaded
    ensures r.st.origCustom == st.origCustom && r.st.origExitGroup == st.origExitGroup
  {
    if cmd == REQUEST_SYSCALL_INTERCEPT || cmd == REQUEST_SYSCALL_RELEASE then
      InterceptHandler(cfg, st, caller, cmd, syscall)
    else if cmd == REQUEST_START_MONITORING || cmd == REQUEST_STOP_MONITORING then
      MonitorHandler(cfg, env, st, caller, cmd, syscall, pid, allocFails)
    else
      Reply(st, -EINVAL)
  }

  datatype Regs = Regs(ax: int, bx: int, cx: int, dx: int, si: int, di: int, bp: int)

  /** One message to the log sink: caller pid, syscall number, six arguments. */
  datatype LogRecord = LogRecord(pid: int, syscall: int, args: seq<int>)

  /** What one wrapped call produces: the messages logged and the value returned. */
  datatype Dispatch = Dispatch(log: seq<LogRecord>, ret: int)

  function CallRecord(callerPid: int, reg: Regs): LogRecord {
    LogRecord(callerPid, reg.ax, [reg.bx, reg.cx, reg.dx, reg.si, reg.di, reg.bp])
  }

  /** `interceptor`: the wrapper installed for intercepted syscalls. The
      three branches on the monitoring mode all log, so every call is
      logged once; the saved handler's result is returned untouched.
      `call` stands for invoking a handler. */
  function InterceptorCall(cfg: Config, st: State, callerPid: int, reg: Regs,
                           call: (Handler, Regs) -> int): (r: Dispatch)
    requires WellFormed(cfg, st)
    requires 0 <= reg.ax <= cfg.nrSyscalls
    ensures r.ret == call(st.slots[reg.ax].f, reg)
    ensures r.log == [CallRecord(callerPid, reg)]
  {
    var syscall := reg.ax;
    var sl := st.slots[syscall];
    var log :=
      if sl.monitored == ALL_PIDS then [CallRecord(callerPid, reg)]
      else if sl.monitored == SOME_PIDS && CheckPidMonitored(sl, callerPid) == 1 then [CallRecord(callerPid, reg)]
      else [CallRecord(callerPid, reg)];
    Dispatch(log, call(sl.f, reg))
  }

  /** What `my_exit_group` leaves behind, and the call it hands over to. */
  datatype ExitReply = ExitReply(st: State, handler: Handler, status: int)

  /** `my_exit_group`: purges the exiting pid, then always hands the status
      to the saved original `exit_group`. */
  function MyExitGroupCall(cfg: Config, st: State, callerPid: int, status: int): (r: ExitReply)
    requires WellFormed(cfg, st)
    ensures WellFormed(cfg, r.st)
    ensures r.handler == st.origExitGroup && r.status == status
    ensures r.st.live == st.live && r.st.origCustom == st.origCustom && r.st.origExitGroup == st.origExitGroup
    ensures forall i :: 0 <= i < |st.slots| ==>
      && r.st.slots[i].f == st.slots[i].f
      && r.st.slots[i].intercepted == st.slots[i].intercepted
    ensures forall i :: 1 <= i < cfg.nrSyscalls ==> callerPid !in r.st.slots[i].pids
    ensures r.st.slots[0] == st.slots[0] && r.st.slots[cfg.nrSyscalls] == st.slots[cfg.nrSyscalls]
  {
    var d := DelPid(cfg, st.slots, callerPid);
    ExitReply(st.(slots := d.slots), st.origExitGroup, status)
  }

  /** `init_function`: every slot starts empty, the two originals are saved,
      and the control syscall and `exit_group` entries are replaced. */
  function InitFunction(cfg: Config, boot: seq<Handler>): (st: State)
    requires cfg.Valid() && |boot| == cfg.nrSyscalls + 1
    requires forall i :: 0 <= i < |boot| ==> Foreign(boot[i])
    ensures Inv(cfg, st)
    ensures Faithful(cfg, boot, st)
    ensures forall i :: 0 <= i < |st.slots| ==> st.slots[i] == EmptySlot
  {
    var st := State(seq(cfg.nrSyscalls + 1, _ => EmptySlot), Installed(cfg, boot),
                    boot[cfg.customSyscall], boot[cfg.exitGroup]);
    assert forall i :: 0 <= i < |st.live| ==> st.live[i] != Interceptor by {
      forall i | 0 <= i < |st.live| ensures st.live[i] != Interceptor {
        if i != cfg.customSyscall && i != cfg.exitGroup { assert Foreign(boot[i]); }
      }
    }
    st
  }

  /** `exit_function`: clears the lists of slots 0 .. NR_syscalls-1 and puts
      back only the control syscall and `exit_group` entries. */
  function ExitFunction(cfg: Config, st: State): (r: State)
    requires WellFormed(cfg, st)
    ensures |r.slots| == |st.slots| && |r.live| == |st.live|
    ensures forall i :: 0 <= i < cfg.nrSyscalls ==>
      r.slots[i] == Slot(st.slots[i].f, st.slots[i].intercepted, NOT_MONITORED, [], 0)
    ensures r.slots[cfg.nrSyscalls] == st.slots[cfg.nrSyscalls]
    ensures r.live[cfg.customSyscall] == st.origCustom && r.live[cfg.exitGroup] == st.origExitGroup
    ensures forall i :: 0 <= i < |st.live| && i != cfg.customSyscall && i != cfg.exitGroup ==>
      r.live[i] == st.live[i]
  {
    var slots := seq(|st.slots|, i requires 0 <= i < |st.slots| =>
      if i < cfg.nrSyscalls then DestroyList(st.slots[i]) else st.slots[i]);
    st.(slots := slots,
        live := st.live[cfg.customSyscall := st.origCustom][cfg.exitGroup := st.origExitGroup])
  }
}
