# Syscall interceptor, intersection lanes and OPT replacement, modelled in Dafny

This project models three small operating-systems programs as pure functions
over immutable state and proves properties of them.

* **The system-call interceptor** (`A1/interceptor.c`). This is a kernel module.
  * It keeps a bookkeeping slot per syscall number: the saved original
    handler, an intercepted flag, a monitoring mode (0 none, 1 listed pids,
    2 all pids) and a list of monitored pids with its counter.
  * It rewrites entries of the kernel's dispatch table.
  * A custom control syscall takes four commands: intercept, release, start
    monitoring and stop monitoring. Each is answered with 0 or a negated
    errno.
  * The replacement `exit_group` purges the exiting pid from the lists.
  * The wrapper installed for intercepted syscalls logs the call and then
    forwards it.

  Modules `InterceptorState` (`interceptor_state.dfy`), `PidList`
  (`pid_list.dfy`), `Interceptor` (`interceptor.dfy`) and
  `InterceptorProperties` (`interceptor_properties.dfy`) model it. Every
  request is one atomic transition from a `State` to a `Reply(state, code)`.
  The predicates `Inv` and `Faithful` are the bookkeeping invariant and the
  dispatch-table invariant. `Faithful` is stated relative to the table found
  at load time.
* **The traffic intersection** (`A2/cars.c`). Module `Cars` (`cars.dfy`)
  models:
  * the sorted quadrant path of each in/out direction pair (`compute_path`);
  * the locks a crossing car takes;
  * the circular lane buffer written by `car_arrive` and read by `car_cross`;
  * the per-direction arrival lists built by `parse_schedule`.

  The lane's FIFO meaning is given by `Contents`, the waiting cars oldest
  first.
* **The OPT (MIN) page-replacement policy** (`A3/opt.c`). Module `Opt`
  (`opt.dfy`) models:
  * the trace as a sequence of lines;
  * `next_occurrence` and `opt_init` as pure functions over it;
  * the positions file as a sequence read through a cursor by `opt_ref`;
  * `opt_evict` as a loop over the frames' stored values.

`optional.dfy` holds the `Option` type.

Parameters of the model:
* The kernel constants `NR_syscalls`, `MY_CUSTOM_SYSCALL` and
  `__NR_exit_group` form a `Config` value.
* The command codes are 1 to 4.
* The errno values are Linux's: EPERM 1, ENOMEM 12, EBUSY 16, EINVAL 22.
* The kernel's task lookups (`pid_task`/`find_vpid`, and the task's `real_cred->uid`)
  are functions in an `Env` value.
* An allocation failure is a boolean parameter.
* `PAGE_SHIFT` is a parameter.
* Invoking a handler is a function parameter `call`.

## Model

| member | source | states |
|---|---|---|
| PidList.NoDupCons | A1/interceptor.c:101-115 | Pushing a pid on a list keeps it duplicate-free exactly when the pid was not already listed. |
| PidList.Without | A1/interceptor.c:162-176 | The list with every copy of the pid unlinked holds exactly the other pids. It is shorter by the pid's multiplicity and stays duplicate-free. |
| PidList.RemoveFirst | A1/interceptor.c:126-140 | Unlinking the first entry equal to the pid removes one copy from the bag of pids. When the pid is absent the list is unchanged. |
| PidList.RemoveFirstNoDup | A1/interceptor.c:126-140 | On a duplicate-free list, the unlink leaves no copy of the pid and keeps the list duplicate-free. |
| PidList.ScanFor | A1/interceptor.c:221-234 | The list walk finds the pid exactly when the pid is listed. |
| PidList.CheckPidMonitored | A1/interceptor.c:221-234 | Returns 1 when the pid is on the slot's list and 0 otherwise. |
| PidList.CheckPidFromList | A1/interceptor.c:208-215 | Returns 0 exactly when both pids' tasks have the same real uid, otherwise -EPERM. |
| PidList.AddPidSysc | A1/interceptor.c:101-115 | Returns -ENOMEM exactly when the allocation fails, leaving the slot alone. On success the pid heads the list in front of the old list and the counter grows by one. The saved handler, the intercepted flag and the mode are kept. |
| PidList.DelPidSysc | A1/interceptor.c:121-146 | Returns 0 exactly when the pid is listed, else -EINVAL with the slot unchanged. On success one copy leaves the bag of pids and the counter drops by one. Mode 1 drops to 0 when the counter reaches 0; otherwise, and always for mode 2, the mode is kept. The slot invariant is kept and the pid removed. |
| PidList.PurgeWalk | A1/interceptor.c:162-176 | The walk over one list keeps exactly the entries other than the pid and lowers the counter by the pid's multiplicity. It reports whether anything was removed. Mode 1 becomes 0 exactly when the counter reaches zero during the walk. |
| PidList.PurgeSlot | A1/interceptor.c:158-178 | A slot's purge keeps its handler and flag and never clears mode 2. On a well-formed slot it keeps the slot invariant. It turns mode 1 off exactly when the list empties. |
| PidList.PurgeRange | A1/interceptor.c:158-178 | Purges exactly the slots of the scanned range and leaves the rest untouched. Reports found exactly when some scanned list held the pid. |
| PidList.DelPid | A1/interceptor.c:152-181 | Scans slots 1 to NR_syscalls-1 only, so slots 0 and NR_syscalls are unchanged. Returns 0 exactly when some scanned list held the pid, else -1. |
| PidList.DestroyList | A1/interceptor.c:186-200 | Empties the list and resets the counter and mode, keeping the handler and flag. It preserves the slot invariant. |
| Interceptor.InterceptHandler | A1/interceptor.c:383-433 | -EINVAL exactly for a bad syscall number or the release of a syscall that is not intercepted. Otherwise -EPERM exactly for non-root. Otherwise -EBUSY exactly for a repeated intercept. Any error leaves the state unchanged. Intercept saves the live entry and installs the wrapper. Release restores the saved entry and empties the list. Nothing else changes. |
| Interceptor.MonitorHandler | A1/interceptor.c:453-500 | An invalid syscall, a negative or non-existent pid, or a stop on a syscall that is not intercepted gives -EINVAL. Then -EPERM exactly when the caller is neither root nor the owner of a specific pid. Start: -EBUSY exactly when the pid is listed, -ENOMEM exactly on allocation failure; success prepends the pid and sets mode 2 for root with pid 0 and mode 1 for non-root, leaving the mode for root with a specific pid. Stop: -EINVAL exactly when the pid is not listed, and 0 exactly when it is; success removes one copy and sets mode 0. |
| Interceptor.MySyscallRequest | A1/interceptor.c:355-364 | An unknown command or a bad syscall number is -EINVAL with no change. Only a start can report -ENOMEM, and only when allocation fails. The saved originals never change. |
| Interceptor.InterceptorCall | A1/interceptor.c:286-304 | Every call is logged exactly once with the caller's pid, the syscall number and its six arguments, whatever the monitoring mode. The saved handler's result is returned. |
| InterceptorProperties.WrapperForwardsToInstalled | A1/interceptor.c:286-304 | In every state faithful to the boot table, a call reaching the wrapper of an intercepted syscall is logged once. It returns what the load-time entry returns for the same registers. |
| Interceptor.MyExitGroupCall | A1/interceptor.c:257-265 | The exiting pid is gone from the lists of slots 1 to NR_syscalls-1, and slots 0 and NR_syscalls are untouched. The saved `exit_group` is then called with the same status. |
| Interceptor.InitFunction | A1/interceptor.c:525-551 | Every slot starts empty and the two originals are saved. The control syscall and `exit_group` entries are replaced. The result satisfies both invariants. |
| Interceptor.ExitFunction | A1/interceptor.c:563-579 | The lists of slots 0 to NR_syscalls-1 are cleared. Only the control syscall and `exit_group` entries are restored; every other dispatch entry is left as it is. |
| InterceptorProperties.RequestPreservesInv | A1/interceptor.c:355-364 | Every control request keeps the bookkeeping invariant: counters match lists, no duplicates, mode 1 only with pids, intercepted exactly where the wrapper is installed. |
| InterceptorProperties.InterceptPreservesInv | A1/interceptor.c:383-433 | Intercept and release keep the bookkeeping invariant. |
| InterceptorProperties.MonitorPreservesInv | A1/interceptor.c:453-500 | Start and stop keep the bookkeeping invariant; in particular a start never lists a pid twice. |
| InterceptorProperties.RequestPreservesFaithful | A1/interceptor.c:410-430 | Every control request keeps each dispatch entry equal to the installed boot-time entry, or the wrapper with that entry saved. |
| InterceptorProperties.ExitGroupPurgeSlots | A1/interceptor.c:152-181 | In each slot from 1 to NR_syscalls-1, the exit purge unlinks every copy of the exiting pid. Mode 1 drops to 0 exactly when that empties the list. |
| InterceptorProperties.ExitGroupKeepsFaithful | A1/interceptor.c:257-265 | The exit purge leaves the dispatch table and every saved handler alone, so the table stays faithful to the boot table. |
| InterceptorProperties.ExitGroupPurge | A1/interceptor.c:152-181 | The exit purge keeps both invariants. In each scanned slot it leaves the list without the pid and turns mode 1 off exactly when the list empties. |
| InterceptorProperties.ExitGroupMissesOnlyLastSlot | A1/interceptor.c:158 | With the control syscall at number 0, no list of slots 0 to NR_syscalls-1 keeps the exiting pid. |
| InterceptorProperties.ExitGroupKeepsLastSlot | A1/interceptor.c:158 | A pid listed in slot NR_syscalls survives its own exit. The program itself cannot reach such a state (see Left out). |
| InterceptorProperties.InterceptReleaseRoundTrip | A1/interceptor.c:410-430 | Intercept then release by root succeed. They restore the whole dispatch table and leave the slot released and empty, with the saved handler. No other slot changes. |
| InterceptorProperties.ReleaseInterceptRoundTrip | A1/interceptor.c:410-430 | Release then intercept by root succeed. They restore the dispatch table and the same saved handler. |
| InterceptorProperties.RepeatedRequestsRefused | A1/interceptor.c:391-403 | A second intercept is -EBUSY. A second release is -EINVAL with no change. |
| InterceptorProperties.StopClearsAllPidsMode | A1/interceptor.c:491-497 | After root monitors all pids and one pid is added then stopped, the mode is 0 although pid 0 is still listed. |
| InterceptorProperties.TeardownRestoresBootTable | A1/interceptor.c:563-579 | Unloading after every syscall was released restores exactly the boot-time dispatch table. |
| InterceptorProperties.TeardownLeavesInterceptedEntry | A1/interceptor.c:563-579 | Unloading while a syscall is still intercepted leaves the wrapper in that dispatch entry, unlike the boot-time table. |
| InterceptorProperties.MonitorScenario | A1/interceptor.c:286-304 | After intercepting a syscall and monitoring one pid, calls from that pid and from another pid are both logged. Both get the saved boot-time handler's result. |
| Cars.ComputePath | A2/cars.c:207-286 | An in-direction outside 0 to 3 gives no path (NULL). Every other call yields a three-slot path. |
| Cars.ComputePathSorted | A2/cars.c:207-286 | Every path of the table is a non-empty, strictly increasing run of quadrants in 0 to 3, followed only by the filler 5. |
| Cars.PathLengthsPerLane | A2/cars.c:207-286 | From each lane the four exits cross 1, 2, 2 and 3 quadrants. |
| Cars.LocksToAcquire | A2/cars.c:163-172 | The number of locks equals the number of non-filler entries. For a sorted path the locks are exactly its quadrants, taken in strictly increasing order. |
| Cars.RingInvCongruence | A2/cars.c:113-115 | Under the lane invariant, `tail` is congruent to `head + in_buf - 1` modulo the capacity. |
| Cars.InitLane | A2/cars.c:63-86 | A fresh lane satisfies the ring invariant, holds no cars, and has all slots NULL with head 0 and tail -1. |
| Cars.Enqueue | A2/cars.c:113-116 | Adding a car to a lane with room keeps the ring invariant. It appends the car at the back of the waiting cars. |
| Cars.Dequeue | A2/cars.c:155-177 | Taking a car from a non-empty lane yields the oldest waiting car. It keeps the others in order, keeps the ring invariant and counts one more car as passed. |
| Cars.ParseSchedule | A2/cars.c:23-44 | Each direction's list is the reverse, in file order, of that direction's cars, in front of the earlier list. The direction's `inc` grows by their number. |
| Cars.ParseFromNoCars | A2/cars.c:23-44 | Parsing into empty lists leaves each direction's list as its cars in reverse file order, with `inc` equal to their number. |
| Cars.Walk | A2/cars.c:106-110 | Following `next` n times from the list head reaches list cell n. |
| Cars.ArrivalOrder | A2/cars.c:99-110 | Admitting, for `counter` from `inc` down to 1, the car reached by walking `counter - 1` steps yields the first `inc` list cells reversed. |
| Cars.ArrivalAt | A2/cars.c:104-114 | The car added while `counter` equals `inc - m` is list cell `inc - 1 - m`. |
| Cars.ArrivalIsFileOrder | A2/cars.c:99-116 | The head-pushing in `parse_schedule` and the back-to-front walk in `car_arrive` cancel. Every lane admits its cars in the order of the schedule file. |
| Cars.RunLane | A2/cars.c:99-177 | Running one lane's producer and consumer to the end, under any interleaving of their steps, crosses the cars in arrival order. It leaves the lane empty with `passed == inc`. |
| Opt.NextOccurrence | A3/opt.c:141-160 | -1 exactly when the address has no later access. Otherwise the start count plus the position, among the following non-'=' lines, of the first access to the address. |
| Opt.OptInit | A3/opt.c:87-133 | One value per access record of the trace, `=` lines skipped. Each value is -1 exactly when its address is not accessed again; otherwise it is the index of the next access to that address, minus one. |
| Opt.OptInitFrom | A3/opt.c:108-129 | One value per access line, `=` lines skipped. |
| Opt.OptInitFromNextUse | A3/opt.c:108-116 | The value of access `k` is -1 exactly when its address is not accessed again. Otherwise it is the counting base plus the index of the next access to that address, minus one. |
| Opt.OptInitNextUse | A3/opt.c:87-133 | Over a whole trace, record `k` holds -1 or (index of the next access to its address) - 1, which is at least `k`. |
| Opt.OptEvict | A3/opt.c:34-49 | When some frame holds -1, the result is the first such frame. Otherwise it is the first frame holding the largest value, which is positive. |
| Opt.OptRef | A3/opt.c:55-73 | Consumes the next stored value and writes it to the frame `p->frame >> PAGE_SHIFT` only. |
| Opt.RefRun | A3/opt.c:55-73 | A run of references advances the cursor by one per reference. |
| Opt.RefRunUntouched | A3/opt.c:55-73 | A frame that no reference in the run names keeps its value. |
| Opt.RefRunLastReference | A3/opt.c:55-73 | A frame ends the run holding the stored value read at the last reference that names it. |

## Left out

- Spinlocks around the dispatch table and the pid lists: every request is one atomic transition, so interleavings are not modelled.
- Page-table write protection of the dispatch table (`set_addr_rw`, `set_addr_ro`): table writes are plain sequence updates.
- The log sink (`log_message`): the wrapper returns the records it would log.
- The kernel handlers themselves: a foreign handler is an opaque `Kernel(id)` value, and calling one goes through the `call` parameter.
- The header `interceptor.h` is not part of this model. The command codes 1 to 4 are named constants, and `NR_syscalls`, `MY_CUSTOM_SYSCALL` and `__NR_exit_group` are configuration values.
- Interceptor.InitFunction: slot `NR_syscalls`'s list head is never initialised by `init_function`. The model starts it empty like the others.
- Interceptor.InterceptHandler: syscall `NR_syscalls` passes validation, but the kernel's `sys_call_table` has only `NR_syscalls` entries. The source reads and writes one entry past its end when intercepting or releasing it (A1/interceptor.c:412, 422-424). The model treats that index as an ordinary dispatch entry.
- Interceptor.MonitorHandler: the source walks slot `NR_syscalls`'s list, whose head was zeroed and never initialised. The first walk dereferences NULL (A1/interceptor.c:126, 191, 226-229); for example, root's start-monitoring of pid 0 on `NR_syscalls` right after load crashes at line 476. The model treats the list as empty and returns 0 with the pid added.
- Interceptor.InitFunction: the boot-time table is required to hold only foreign handlers, as the module's own entry points do not exist before it is loaded.
- Threads, mutexes and condition variables of the intersection: `RunLane` interleaves one lane's producer and consumer step by step. A producer waiting for room or a consumer waiting for a car is a step that is not enabled. When both steps are enabled, the parameter `preferCross` picks one. The other lanes and the quadrant locks do not affect the order within a lane.
- The crossing's side effects (the `out_cars` lists, `printf`, `free`) and the quadrant mutexes themselves: `LocksToAcquire` returns the quadrants in acquisition order.
- Cars.ParseSchedule: reading and tokenising the file is not modelled. The input is the sequence of parsed records with in-directions in 0 to 3; an out-of-range direction would index outside the lane array.
- Cars.ComputePath: an in-direction in 0 to 3 with an out-direction outside 0 to 3 leaves the source's array unfilled, so such calls are excluded.
- File I/O in `opt.c` (`fopen`, `fseek`, `ftell`, `fgets`, `fprintf`, `printf`): the trace is a sequence of `TraceLine`s, and the positions file is a sequence read through a cursor.
- The commented-out linked list in `opt.c` is dead code and is not modelled.
- Opt.OptRef: it requires a value to remain and the frame to exist. The source reads past the file's end and indexes the core map without checks.
- Opt.OptEvict: it requires some frame to hold -1 or a positive value; otherwise the source returns an unassigned variable.
- `opt.c` as shown has a stray `1` in the prototype of `next_occurrence` and an unmatched closing brace at the end. The model follows the evident intent: a three-argument function and no extra block.
