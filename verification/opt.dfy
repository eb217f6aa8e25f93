/** The OPT (MIN) page-replacement policy: the per-record "next use" values
    computed over a memory trace, the cursor that hands them out on each
    reference, and the victim choice over the frames' stored values. */
module Opt {

  /** One line of a trace file: a line starting with `=` carries no access;
      every other line holds an access kind and a virtual address. */
  datatype TraceLine = Marker | Access(kind: char, vaddr: int)

  /** The addresses of the access lines, in trace order. */
  function Addrs(lines: seq<TraceLine>): (a: seq<int>)
    ensures |a| <= |lines|
  {
    if lines == [] then []
    else (if lines[0].Access? then [lines[0].vaddr] else []) + Addrs(lines[1..])
  }

  /** `next_occurrence`: scans the remaining lines, skipping `=` lines
      without counting them, and returns the counter at the first access to
      `vaddr`; the counter starts at `lineNum` and goes up by one per
      non-matching access. -1 when the address does not occur again. */
  function NextOccurrence(vaddr: int, lineNum: nat, rest: seq<TraceLine>): (r: int)
    decreases |rest|
    ensures r == -1 <==> vaddr !in Addrs(rest)
    ensures r != -1 ==>
      var i := r - lineNum;
      && 0 <= i < |Addrs(rest)|
      && Addrs(rest)[i] == vaddr
      && forall j :: 0 <= j < i ==> Addrs(rest)[j] != vaddr
  {
    if rest == [] then -1
    else
      assert Addrs(rest) == (if rest[0].Access? then [rest[0].vaddr] else []) + Addrs(rest[1..]);
      match rest[0]
      case Marker => NextOccurrence(vaddr, lineNum, rest[1..])
      case Access(_, v) =>
        if v == vaddr then lineNum
        else NextOccurrence(vaddr, lineNum + 1, rest[1..])
  }

  /** The loop of `opt_init` from a given line on, with `lineNum` access
      lines already behind it: one value per access line, computed over the
      lines that follow it. */
  function OptInitFrom(lines: seq<TraceLine>, lineNum: nat): (r: seq<int>)
    decreases |lines|
    ensures |r| == |Addrs(lines)|
  {
    if lines == [] then []
    else
      match lines[0]
      case Marker => OptInitFrom(lines[1..], lineNum)
      case Access(_, v) => [NextOccurrence(v, lineNum, lines[1..])] + OptInitFrom(lines[1..], lineNum + 1)
  }

  /** `opt_init`: the values written to the positions file, in order. */
  function OptInit(trace: seq<TraceLine>): (r: seq<int>)
    ensures |r| == |Addrs(trace)|
    ensures forall k :: 0 <= k < |r| ==> IsNextUse(Addrs(trace), k, r[k], 0)
  {
    assert forall k :: 0 <= k < |Addrs(trace)| ==> IsNextUse(Addrs(trace), k, OptInitFrom(trace, 0)[k], 0) by {
      forall k | 0 <= k < |Addrs(trace)|
        ensures IsNextUse(Addrs(trace), k, OptInitFrom(trace, 0)[k], 0)
      {
        OptInitFromNextUse(trace, 0, k);
      }
    }
    OptInitFrom(trace, 0)
  }

  /** `r` is the value recorded for access `k` of the address sequence `a`
      when counting starts at `base`: -1 exactly when the address is not
      accessed again, otherwise `base` plus the index of the next access to
      the same address, minus one. */
  predicate IsNextUse(a: seq<int>, k: int, r: int, base: int)
    requires 0 <= k < |a|
  {
    && (r == -1 <==> forall j :: k < j < |a| ==> a[j] != a[k])
    && (r != -1 ==>
          && base + k <= r
          && r - base + 1 < |a|
          && a[r - base + 1] == a[k]
          && forall j :: k < j <= r - base ==> a[j] != a[k])
  }

  /** The first access of a trace: its `next_occurrence` value is its next use. */
  lemma NextOccurrenceIsNextUse(v: int, lineNum: nat, tail: seq<int>, r: int)
    requires r == -1 <==> v !in tail
    requires r != -1 ==>
      && 0 <= r - lineNum < |tail|
      && tail[r - lineNum] == v
      && forall j :: 0 <= j < r - lineNum ==> tail[j] != v
    ensures IsNextUse([v] + tail, 0, r, lineNum)
  {
    var a := [v] + tail;
    forall j | 0 < j < |a| ensures a[j] == tail[j - 1] { }
    if r == -1 {
      forall j | 0 < j < |a| ensures a[j] != a[0] {
        assert a[j] == tail[j - 1];
      }
    } else {
      assert a[r - lineNum + 1] == tail[r - lineNum];
    }
  }

  /** A later access keeps its next use when one more access is put in front
      and counting starts one earlier. */
  lemma NextUseShift(v: int, tail: seq<int>, k: int, r: int, base: int)
    requires 0 < k <= |tail|
    requires IsNextUse(tail, k - 1, r, base + 1)
    ensures IsNextUse([v] + tail, k, r, base)
  {
    var a := [v] + tail;
    assert a[k] == tail[k - 1];
    if r == -1 {
      forall j | k < j < |a| ensures a[j] != a[k] {
        assert a[j] == tail[j - 1];
      }
    } else {
      assert a[r - base + 1] == tail[r - (base + 1) + 1];
      forall j | k < j <= r - base ensures a[j] != a[k] {
        assert a[j] == tail[j - 1];
      }
    }
  }

  /** The value `opt_init` stores for the `k`-th access is its next use,
      counted from `lineNum`. */
  lemma {:induction false} OptInitFromNextUse(lines: seq<TraceLine>, lineNum: nat, k: int)
    requires 0 <= k < |Addrs(lines)|
    decreases |lines|
    ensures IsNextUse(Addrs(lines), k, OptInitFrom(lines, lineNum)[k], lineNum)
  {
    var tail := Addrs(lines[1..]);
    match lines[0]
    case Marker =>
      assert Addrs(lines) == tail;
      OptInitFromNextUse(lines[1..], lineNum, k);
    case Access(_, v) =>
      assert Addrs(lines) == [v] + tail;
      if k == 0 {
        NextOccurrenceIsNextUse(v, lineNum, tail, NextOccurrence(v, lineNum, lines[1..]));
      } else {
        OptInitFromNextUse(lines[1..], lineNum + 1, k - 1);
        NextUseShift(v, tail, k, OptInitFrom(lines[1..], lineNum + 1)[k - 1], lineNum);
      }
  }

  /** Over a whole trace: record `k` gets -1 when its address has no later
      access, and otherwise (index of the next access to it) - 1, which is
      never below `k`. */
  lemma OptInitNextUse(trace: seq<TraceLine>, k: int)
    requires 0 <= k < |Addrs(trace)|
    ensures var a, r := Addrs(trace), OptInit(trace)[k];
      && (r == -1 <==> forall j :: k < j < |a| ==> a[j] != a[k])
      && (r != -1 ==>
            && k <= r
            && r + 1 < |a|
            && a[r + 1] == a[k]
            && forall j :: k < j <= r ==> a[j] != a[k])
  {
    var r := OptInit(trace);
    assert IsNextUse(Addrs(trace), k, r[k], 0);
  }

  /** `opt_evict`: scans the frames' next-use values; the first frame whose
      page is never used again (-1) is taken at once, otherwise the first
      frame holding the largest positive value. The scan only assigns a
      frame when some value is -1 or positive, hence the precondition. */
  method OptEvict(nextPos: seq<int>) returns (frame: int)
    requires exists i :: 0 <= i < |nextPos| && (nextPos[i] == -1 || nextPos[i] > 0)
    ensures 0 <= frame < |nextPos|
    ensures (exists i :: 0 <= i < |nextPos| && nextPos[i] == -1) ==>
      && nextPos[frame] == -1
      && forall j :: 0 <= j < frame ==> nextPos[j] != -1
    ensures (forall i :: 0 <= i < |nextPos| ==> nextPos[i] != -1) ==>
      && nextPos[frame] > 0
      && (forall j :: 0 <= j < |nextPos| ==> nextPos[j] <= nextPos[frame])
      && (forall j :: 0 <= j < frame ==> nextPos[j] < nextPos[frame])
  {
    var maxNextPos := 0;
    frame := -1;
    var i := 0;
    while i < |nextPos|
      invariant 0 <= i <= |nextPos|
      invariant forall j :: 0 <= j < i ==> nextPos[j] != -1
      invariant forall j :: 0 <= j < i ==> nextPos[j] <= maxNextPos
      invariant frame == -1 ==> maxNextPos == 0
      invariant frame != -1 ==>
        && 0 <= frame < i
        && nextPos[frame] == maxNextPos > 0
        && forall j :: 0 <= j < frame ==> nextPos[j] < maxNextPos
    {
      var p := nextPos[i];
      if p == -1 {
        frame := i;
        break;
      }
      if p > maxNextPos {
        maxNextPos := p;
        frame := i;
      }
      i := i + 1;
    }
  }

  /** The frame number held in a page-table entry: its `frame` field shifted
      right by `PAGE_SHIFT`, one halving per bit. */
  function FrameOf(pteFrame: nat, pageShift: nat): nat {
    if pageShift == 0 then pteFrame else FrameOf(pteFrame / 2, pageShift - 1)
  }

  /** The frames' next-use values (`coremap[i].next_pos`), the values
      `opt_init` wrote, and how many of them have been read so far. */
  datatype OptState = OptState(nextPos: seq<int>, positions: seq<int>, cursor: nat)

  /** `opt_ref`: reads the next stored value and records it as the next use
      of the referenced page's frame. The source reads past the end of the
      file and indexes the core map without a check, so both are required. */
  function OptRef(st: OptState, pteFrame: nat, pageShift: nat): (r: OptState)
    requires st.cursor < |st.positions|
    requires FrameOf(pteFrame, pageShift) < |st.nextPos|
    ensures r.positions == st.positions && r.cursor == st.cursor + 1
    ensures |r.nextPos| == |st.nextPos|
    ensures r.nextPos[FrameOf(pteFrame, pageShift)] == st.positions[st.cursor]
    ensures forall f :: 0 <= f < |st.nextPos| && f != FrameOf(pteFrame, pageShift) ==>
      r.nextPos[f] == st.nextPos[f]
  {
    var frame := FrameOf(pteFrame, pageShift);
    st.(nextPos := st.nextPos[frame := st.positions[st.cursor]], cursor := st.cursor + 1)
  }

  /** Whether a run of references may be replayed: enough stored values
      remain and every referenced frame exists. */
  predicate RunFits(st: OptState, ptes: seq<nat>, pageShift: nat) {
    && st.cursor + |ptes| <= |st.positions|
    && forall t :: 0 <= t < |ptes| ==> FrameOf(ptes[t], pageShift) < |st.nextPos|
  }

  /** A run of `opt_ref` calls, one per referenced page-table entry. */
  function RefRun(st: OptState, ptes: seq<nat>, pageShift: nat): (r: OptState)
    requires RunFits(st, ptes, pageShift)
    decreases |ptes|
    ensures |r.nextPos| == |st.nextPos| && r.positions == st.positions
    ensures r.cursor == st.cursor + |ptes|
  {
    if ptes == [] then st
    else
      var n := |ptes| - 1;
      assert RunFits(st, ptes[..n], pageShift) by {
        forall t | 0 <= t < n ensures FrameOf(ptes[..n][t], pageShift) < |st.nextPos| {
          assert ptes[..n][t] == ptes[t];
        }
      }
      var before := RefRun(st, ptes[..n], pageShift);
      OptRef(before, ptes[n], pageShift)
  }

  /** A frame that no reference of the run names keeps its value. */
  lemma {:induction false} RefRunUntouched(st: OptState, ptes: seq<nat>, pageShift: nat, f: int)
    requires RunFits(st, ptes, pageShift) && 0 <= f < |st.nextPos|
    requires forall t :: 0 <= t < |ptes| ==> FrameOf(ptes[t], pageShift) != f
    decreases |ptes|
    ensures RefRun(st, ptes, pageShift).nextPos[f] == st.nextPos[f]
  {
    if ptes != [] {
      var n := |ptes| - 1;
      var init := ptes[..n];
      forall t | 0 <= t < n ensures init[t] == ptes[t] { }
      RefRunUntouched(st, init, pageShift, f);
    }
  }

  /** Replaying a run consumes the stored values in order: a frame ends up
      holding the value read at the last reference that names it. */
  lemma {:induction false} RefRunLastReference(st: OptState, ptes: seq<nat>, pageShift: nat, f: int, t: int)
    requires RunFits(st, ptes, pageShift) && 0 <= f < |st.nextPos|
    requires 0 <= t < |ptes| && FrameOf(ptes[t], pageShift) == f
    requires forall u :: t < u < |ptes| ==> FrameOf(ptes[u], pageShift) != f
    decreases |ptes|
    ensures RefRun(st, ptes, pageShift).nextPos[f] == st.positions[st.cursor + t]
  {
    var n := |ptes| - 1;
    if t < n {
      var init := ptes[..n];
      forall u | 0 <= u < n ensures init[u] == ptes[u] { }
      RefRunLastReference(st, init, pageShift, f, t);
    }
  }
}
