/** The per-syscall lists of monitored pids and the helpers that walk them:
    adding, removing one entry, purging a pid from every list, clearing a
    list, and the membership and ownership checks. */
module PidList {
  import opened InterceptorState

  /** A list with a pid pushed on its front is duplicate-free exactly when
      the tail is and does not hold that pid. */
  lemma NoDupCons(a: int, s: seq<int>)
    ensures NoDup([a] + s) <==> a !in s && NoDup(s)
  {
    var t := [a] + s;
    if a !in s && NoDup(s) {
      forall i, j | 0 <= i < j < |t| ensures t[i] != t[j] {
        if i > 0 { assert t[i] == s[i - 1] && t[j] == s[j - 1]; }
        else { assert t[j] == s[j - 1]; }
      }
    }
    if NoDup(t) {
      forall i, j | 0 <= i < j < |s| ensures s[i] != s[j] {
        assert s[i] == t[i + 1] && s[j] == t[j + 1];
      }
      forall k | 0 <= k < |s| ensures s[k] != a {
        assert s[k] == t[k + 1] && t[0] == a;
      }
    }
  }

  /** The list with every occurrence of `x` dropped, order kept. */
  function Without(s: seq<int>, x: int): (r: seq<int>)
    ensures forall y :: y in r <==> y in s && y != x
    ensures |r| == |s| - multiset(s)[x]
    ensures NoDup(s) ==> NoDup(r)
  {
    if s == [] then []
    else
      assert s == [s[0]] + s[1..];
      var tail := Without(s[1..], x);
      if s[0] == x then tail
      else
        NoDupCons(s[0], s[1..]);
        NoDupCons(s[0], tail);
        [s[0]] + tail
  }

  /** The list with its first occurrence of `x` unlinked. */
  function RemoveFirst(s: seq<int>, x: int): (r: seq<int>)
    ensures multiset(r) == multiset(s) - multiset{x}
    ensures forall y :: y in r ==> y in s
    ensures x !in s ==> r == s
  {
    if s == [] then []
    else
      assert s == [s[0]] + s[1..];
      if s[0] == x then s[1..] else [s[0]] + RemoveFirst(s[1..], x)
  }

  /** On a duplicate-free list, unlinking the first occurrence removes the
      pid altogether and keeps the list duplicate-free. */
  lemma {:induction false} RemoveFirstNoDup(s: seq<int>, x: int)
    requires NoDup(s)
    ensures NoDup(RemoveFirst(s, x)) && x !in RemoveFirst(s, x)
    decreases |s|
  {
    if s != [] {
      assert s == [s[0]] + s[1..];
      NoDupCons(s[0], s[1..]);
      if s[0] != x {
        RemoveFirstNoDup(s[1..], x);
        NoDupCons(s[0], RemoveFirst(s[1..], x));
      }
    }
  }

  /** The `list_for_each` scan of `check_pid_monitored`. */
  function ScanFor(pids: seq<int>, pid: int): (r: bool)
    ensures r <==> pid in pids
  {
    if pids == [] then false
    else
      assert pids == [pids[0]] + pids[1..];
      pids[0] == pid || ScanFor(pids[1..], pid)
  }

  /** `check_pid_monitored`: 1 when the pid is on the slot's list, else 0. */
  function CheckPidMonitored(sl: Slot, pid: int): (r: int)
    ensures r == 0 || r == 1
    ensures r == 1 <==> pid in sl.pids
  {
    if ScanFor(sl.pids, pid) then 1 else 0
  }

  /** `check_pid_from_list`: -EPERM unless both pids' tasks have the same real uid. */
  function CheckPidFromList(env: Env, pid1: int, pid2: int): (r: int)
    ensures r == 0 || r == -EPERM
    ensures r == 0 <==> env.uidOf(pid1) == env.uidOf(pid2)
  {
    if env.uidOf(pid1) != env.uidOf(pid2) then -EPERM else 0
  }

  datatype SlotResult = SlotResult(slot: Slot, code: int)

  /** `add_pid_sysc`: pushes the pid on the front of the list and bumps
      `listcount`, or reports -ENOMEM when the allocation fails. */
  function AddPidSysc(sl: Slot, pid: int, allocFails: bool): (r: SlotResult)
    ensures r.code == 0 || r.code == -ENOMEM
    ensures r.code == -ENOMEM <==> allocFails
    ensures r.code != 0 ==> r.slot == sl
    ensures r.code == 0 ==> |r.slot.pids| > 0 && r.slot.pids[0] == pid && r.slot.pids[1..] == sl.pids
    ensures r.code == 0 ==>
      && r.slot.listcount == sl.listcount + 1
      && r.slot.f == sl.f && r.slot.intercepted == sl.intercepted
      && r.slot.monitored == sl.monitored
  {
    if allocFails then SlotResult(sl, -ENOMEM)
    else SlotResult(sl.(pids := [pid] + sl.pids, listcount := sl.listcount + 1), 0)
  }

  /** `del_pid_sysc`: unlinks the first entry equal to the pid; when that
      empties a mode-1 list the mode drops to 0. -EINVAL when absent. */
  function DelPidSysc(sl: Slot, pid: int): (r: SlotResult)
    ensures r.code == 0 || r.code == -EINVAL
    ensures r.code == 0 <==> pid in sl.pids
    ensures r.code != 0 ==> r.slot == sl
    ensures r.code == 0 ==>
      && multiset(r.slot.pids) == multiset(sl.pids) - multiset{pid}
      && r.slot.listcount == sl.listcount - 1
      && r.slot.f == sl.f && r.slot.intercepted == sl.intercepted
    /** The mode drops from 1 to 0 only when the unlink leaves the counter at
        0; otherwise, and always for mode 2, it is kept. */
    ensures r.code == 0 ==>
      r.slot.monitored == (if sl.listcount == 1 && sl.monitored == SOME_PIDS then NOT_MONITORED else sl.monitored)
    ensures SlotInv(sl) ==> SlotInv(r.slot) && pid !in r.slot.pids
  {
    if ScanFor(sl.pids, pid) then
      var count := sl.listcount - 1;
      var mode := if count == 0 && sl.monitored == SOME_PIDS then NOT_MONITORED else sl.monitored;
      var pids := RemoveFirst(sl.pids, pid);
      assert NoDup(sl.pids) ==> NoDup(pids) && pid !in pids by {
        if NoDup(sl.pids) { RemoveFirstNoDup(sl.pids, pid); }
      }
      assert |pids| == |sl.pids| - 1 by {
        assert |multiset(pids)| == |multiset(sl.pids)| - 1;
      }
      SlotResult(sl.(pids := pids, listcount := count, monitored := mode), 0)
    else SlotResult(sl, -EINVAL)
  }

  datatype WalkResult = WalkResult(kept: seq<int>, listcount: int, monitored: int, removed: bool)

  /** The `list_for_each_safe` loop of `del_pid` over one list: each entry
      equal to the pid is unlinked, decrementing the counter, and mode 1
      drops to 0 the moment the counter reaches 0. */
  function PurgeWalk(rest: seq<int>, pid: int, listcount: int, monitored: int): (r: WalkResult)
    ensures r.kept == Without(rest, pid)
    ensures r.removed <==> pid in rest
    ensures r.listcount == listcount - multiset(rest)[pid]
    ensures r.monitored ==
      if monitored == SOME_PIDS && 1 <= listcount <= multiset(rest)[pid] then NOT_MONITORED else monitored
  {
    if rest == [] then WalkResult([], listcount, monitored, false)
    else
      assert rest == [rest[0]] + rest[1..];
      if rest[0] == pid then
        var count := listcount - 1;
        var mode := if count == 0 && monitored == SOME_PIDS then NOT_MONITORED else monitored;
        PurgeWalk(rest[1..], pid, count, mode).(removed := true)
      else
        var w := PurgeWalk(rest[1..], pid, listcount, monitored);
        w.(kept := [rest[0]] + w.kept)
  }

  datatype PurgeResult = PurgeResult(slot: Slot, removed: bool)

  /** One slot's share of `del_pid`. */
  function PurgeSlot(sl: Slot, pid: int): (r: PurgeResult)
    ensures r.slot.f == sl.f && r.slot.intercepted == sl.intercepted
    ensures r.slot.pids == Without(sl.pids, pid)
    ensures r.removed <==> pid in sl.pids
    ensures sl.monitored == ALL_PIDS ==> r.slot.monitored == ALL_PIDS
    ensures SlotInv(sl) ==>
      && SlotInv(r.slot)
      && r.slot.monitored == (if sl.monitored == SOME_PIDS && r.slot.pids == [] then NOT_MONITORED else sl.monitored)
  {
    var w := PurgeWalk(sl.pids, pid, sl.listcount, sl.monitored);
    PurgeResult(sl.(pids := w.kept, listcount := w.listcount, monitored := w.monitored), w.removed)
  }

  datatype TableResult = TableResult(slots: seq<Slot>, found: bool)

  /** The outer loop of `del_pid` over slots `lo .. hi-1`. */
  function PurgeRange(slots: seq<Slot>, pid: int, lo: nat, hi: nat): (r: TableResult)
    requires lo <= hi <= |slots|
    decreases hi - lo
    ensures |r.slots| == |slots|
    ensures forall i :: 0 <= i < |slots| && (i < lo || hi <= i) ==> r.slots[i] == slots[i]
    ensures forall i :: lo <= i < hi ==> r.slots[i] == PurgeSlot(slots[i], pid).slot
    ensures r.found <==> exists i :: lo <= i < hi && pid in slots[i].pids
  {
    if lo == hi then TableResult(slots, false)
    else
      var p := PurgeSlot(slots[lo], pid);
      var rest := PurgeRange(slots[lo := p.slot], pid, lo + 1, hi);
      TableResult(rest.slots, p.removed || rest.found)
  }

  datatype DelPidResult = DelPidResult(slots: seq<Slot>, code: int)

  /** `del_pid`: purges the pid from the lists of slots 1 .. NR_syscalls-1
      only; returns 0 when some entry was removed, else -1. */
  function DelPid(cfg: Config, slots: seq<Slot>, pid: int): (r: DelPidResult)
    requires |slots| == cfg.nrSyscalls + 1
    ensures |r.slots| == |slots|
    ensures r.slots[0] == slots[0] && r.slots[cfg.nrSyscalls] == slots[cfg.nrSyscalls]
    ensures forall i :: 1 <= i < cfg.nrSyscalls ==> r.slots[i] == PurgeSlot(slots[i], pid).slot
    ensures r.code == 0 || r.code == -1
    ensures r.code == 0 <==> exists i :: 1 <= i < cfg.nrSyscalls && pid in slots[i].pids
  {
    if cfg.nrSyscalls == 0 then DelPidResult(slots, -1)
    else
      var t := PurgeRange(slots, pid, 1, cfg.nrSyscalls);
      DelPidResult(t.slots, if t.found then 0 else -1)
  }

  /** `destroy_list`: empties the list and resets `listcount` and `monitored`. */
  function DestroyList(sl: Slot): (r: Slot)
    ensures r.pids == [] && r.listcount == 0 && r.monitored == NOT_MONITORED
    ensures r.f == sl.f && r.intercepted == sl.intercepted
    ensures SlotInv(sl) ==> SlotInv(r)
  {
    sl.(pids := [], listcount := 0, monitored := NOT_MONITORED)
  }
}
