/** Bookkeeping state of the system-call interceptor: the per-syscall slot
    table, the live dispatch table it rewrites, and the invariants that the
    control commands keep. */
module InterceptorState {

  /** Linux error numbers; the control syscall returns their negation. */
  const EPERM := 1
  const ENOMEM := 12
  const EBUSY := 16
  const EINVAL := 22

  /** Command codes accepted by the custom control syscall. */
  const REQUEST_SYSCALL_INTERCEPT := 1
  const REQUEST_SYSCALL_RELEASE := 2
  const REQUEST_START_MONITORING := 3
  const REQUEST_STOP_MONITORING := 4

  /** Values of a slot's `monitored` field. */
  const NOT_MONITORED := 0
  const SOME_PIDS := 1
  const ALL_PIDS := 2

  /** An entry of the kernel's dispatch table. `Kernel` handlers are opaque
      functions the module did not write; the other three are the module's
      own entry points; `Null` is the zero pointer of a fresh slot. */
  datatype Handler = Null | Kernel(id: nat) | Interceptor | MySyscall | MyExitGroup

  /** Kernel constants: `NR_syscalls`, `MY_CUSTOM_SYSCALL`, `__NR_exit_group`. */
  datatype Config = Config(nrSyscalls: nat, customSyscall: int, exitGroup: int)
  {
    predicate Valid() {
      && 0 <= customSyscall < nrSyscalls
      && 0 <= exitGroup < nrSyscalls
      && customSyscall != exitGroup
    }

    /** The range check shared by both handlers; index `nrSyscalls` itself is
        admitted, as the slot table has `nrSyscalls + 1` entries. */
    predicate ValidSyscall(s: int) {
      0 <= s <= nrSyscalls && s != customSyscall
    }
  }

  /** Kernel task lookups: whether a pid names a live task, and the real uid
      of the task a pid names. */
  datatype Env = Env(hasTask: int -> bool, uidOf: int -> int)

  /** The process issuing a request: `current_uid()` and `current->pid`. */
  datatype Caller = Caller(uid: int, pid: int)
  {
    predicate IsRoot() { uid == 0 }
  }

  /** One row of the bookkeeping table; `pids` is the monitored-pid list,
      most recently added first. */
  datatype Slot = Slot(f: Handler, intercepted: bool, monitored: int, pids: seq<int>, listcount: int)

  const EmptySlot := Slot(Null, false, NOT_MONITORED, [], 0)

  datatype State = State(
    slots: seq<Slot>,
    live: seq<Handler>,
    origCustom: Handler,
    origExitGroup: Handler)

  /** What a control request leaves behind: the new state and the returned code. */
  datatype Reply = Reply(st: State, code: int)

  /** The slot table and the modelled part of the dispatch table both have
      one entry per admissible syscall number. */
  predicate WellFormed(cfg: Config, st: State) {
    && cfg.Valid()
    && |st.slots| == cfg.nrSyscalls + 1
    && |st.live| == cfg.nrSyscalls + 1
  }

  predicate NoDup(s: seq<int>) {
    forall i, j :: 0 <= i < j < |s| ==> s[i] != s[j]
  }

  /** A slot's list agrees with its counter, holds each pid once, and mode 1
      is only ever held while some pid is listed. */
  predicate SlotInv(sl: Slot) {
    && sl.listcount == |sl.pids|
    && NOT_MONITORED <= sl.monitored <= ALL_PIDS
    && (sl.monitored == SOME_PIDS ==> |sl.pids| > 0)
    && NoDup(sl.pids)
    && (sl.intercepted ==> sl.f != Interceptor)
  }

  predicate Inv(cfg: Config, st: State) {
    && WellFormed(cfg, st)
    && (forall s :: 0 <= s < |st.slots| ==> SlotInv(st.slots[s]))
    && (forall s :: 0 <= s < |st.slots| ==> (st.slots[s].intercepted <==> st.live[s] == Interceptor))
    && !st.slots[cfg.customSyscall].intercepted
    && st.slots[cfg.customSyscall].pids == []
  }

  /** A handler the kernel had before the module was loaded. */
  predicate Foreign(h: Handler) {
    h.Null? || h.Kernel?
  }

  /** The dispatch table as the module installs it at load time. */
  function Installed(cfg: Config, boot: seq<Handler>): seq<Handler>
    requires cfg.Valid() && |boot| == cfg.nrSyscalls + 1
  {
    boot[cfg.customSyscall := MySyscall][cfg.exitGroup := MyExitGroup]
  }

  /** The table-level invariant relative to the table found at load time:
      every slot that is not intercepted shows its installed handler, every
      intercepted slot holds exactly that handler in `f`, and the two saved
      originals are the boot-time entries. */
  predicate Faithful(cfg: Config, boot: seq<Handler>, st: State) {
    && WellFormed(cfg, st)
    && |boot| == cfg.nrSyscalls + 1
    && st.origCustom == boot[cfg.customSyscall]
    && st.origExitGroup == boot[cfg.exitGroup]
    && (forall s :: 0 <= s < |st.slots| ==>
          if st.slots[s].intercepted
          then st.live[s] == Interceptor && st.slots[s].f == Installed(cfg, boot)[s]
          else st.live[s] == Installed(cfg, boot)[s])
  }
}
