/** The traffic-intersection exercise, sequentially: the quadrant paths a car
    takes, the quadrant locks it acquires, the bounded circular buffer of a
    lane, and the arrival lists built from a schedule. */
module Cars {
  import opened Optional

  /** Filler for the unused tail of a 3-slot path. */
  const PLACEHOLDER := 5

  datatype Car = Car(id: int, inDir: int, outDir: int)

  // ---------------------------------------------------------------------
  // Paths through the intersection

  /** 1 for a slot naming a quadrant, 0 for filler. */
  function Filled(x: int): nat {
    if x != PLACEHOLDER then 1 else 0
  }

  /** The quadrant entries among the first `i` of a path's three slots. */
  function CountUpTo(p: seq<int>, i: int): nat
    requires |p| == 3
  {
    (if i > 0 then Filled(p[0]) else 0) + (if i > 1 then Filled(p[1]) else 0) + (if i > 2 then Filled(p[2]) else 0)
  }

  /** The number of real quadrants in a path (entries other than the filler). */
  function QuadrantCount(p: seq<int>): nat
    requires |p| == 3
  {
    CountUpTo(p, 3)
  }

  /** A well-formed path: three slots, a non-empty strictly increasing run of
      quadrants in 0..3, then filler only. */
  predicate SortedPath(p: seq<int>) {
    && |p| == 3
    && 1 <= QuadrantCount(p)
    && (forall i :: 0 <= i < QuadrantCount(p) ==> 0 <= p[i] < 4)
    && (forall i, j :: 0 <= i < j < QuadrantCount(p) ==> p[i] < p[j])
    && (forall i :: QuadrantCount(p) <= i < 3 ==> p[i] == PLACEHOLDER)
  }

  /** `compute_path`: the 16-entry table of sorted quadrant paths; an
      in-direction outside 0..3 yields no path (NULL). For an in-direction
      inside 0..3 the source never fills the array unless the out-direction
      is also in 0..3, hence the precondition. */
  function ComputePath(inDir: int, outDir: int): (r: Option<seq<int>>)
    requires 0 <= inDir < 4 ==> 0 <= outDir < 4
    ensures r.None? <==> !(0 <= inDir < 4)
    ensures r.Some? ==> |r.value| == 3
  {
    if inDir == 0 then
      if outDir == 0 then Some([0, 1, 5])
      else if outDir == 1 then Some([1, 2, 5])
      else if outDir == 2 then Some([1, 2, 3])
      else Some([1, 5, 5])
    else if inDir == 1 then
      if outDir == 0 then Some([0, 3, 5])
      else if outDir == 1 then Some([2, 3, 5])
      else if outDir == 2 then Some([3, 5, 5])
      else Some([0, 1, 3])
    else if inDir == 2 then
      if outDir == 0 then Some([0, 5, 5])
      else if outDir == 1 then Some([0, 1, 2])
      else if outDir == 2 then Some([0, 3, 5])
      else Some([0, 1, 5])
    else if inDir == 3 then
      if outDir == 0 then Some([0, 2, 3])
      else if outDir == 1 then Some([2, 5, 5])
      else if outDir == 2 then Some([2, 3, 5])
      else Some([1, 2, 5])
    else None
  }

  /** Every path of the table is a sorted run of quadrants padded with filler. */
  lemma ComputePathSorted(inDir: int, outDir: int)
    requires 0 <= inDir < 4 && 0 <= outDir < 4
    ensures SortedPath(ComputePath(inDir, outDir).value)
  {
  }

  /** The number of quadrants a car from `inDir` crosses towards `outDir`. */
  function PathLength(inDir: int, outDir: int): nat
    requires 0 <= inDir < 4 && 0 <= outDir < 4
  {
    QuadrantCount(ComputePath(inDir, outDir).value)
  }

  /** The lengths of the four exits from one lane, as a bag. */
  function LaneLengths(inDir: int): multiset<nat>
    requires 0 <= inDir < 4
  {
    multiset{PathLength(inDir, 0), PathLength(inDir, 1), PathLength(inDir, 2), PathLength(inDir, 3)}
  }

  /** The four lanes' path lengths, one lemma per lane: the statement is the
      same for each, split only so that each proof stays small. */
  lemma LaneLengths0()
    ensures LaneLengths(0) == multiset{1, 2, 2, 3}
  {
    assert PathLength(0, 0) == 2 && PathLength(0, 1) == 2;
    assert PathLength(0, 2) == 3 && PathLength(0, 3) == 1;
  }

  lemma LaneLengths1()
    ensures LaneLengths(1) == multiset{1, 2, 2, 3}
  {
    assert PathLength(1, 0) == 2 && PathLength(1, 1) == 2;
    assert PathLength(1, 2) == 1 && PathLength(1, 3) == 3;
  }

  lemma LaneLengths2()
    ensures LaneLengths(2) == multiset{1, 2, 2, 3}
  {
    assert PathLength(2, 0) == 1 && PathLength(2, 1) == 3;
    assert PathLength(2, 2) == 2 && PathLength(2, 3) == 2;
  }

  lemma LaneLengths3()
    ensures LaneLengths(3) == multiset{1, 2, 2, 3}
  {
    assert PathLength(3, 0) == 3 && PathLength(3, 1) == 1;
    assert PathLength(3, 2) == 2 && PathLength(3, 3) == 2;
  }

  /** From every lane, exactly one exit crosses one quadrant, exactly one
      crosses three, and the other two cross two. */
  lemma PathLengthsPerLane(inDir: int)
    requires 0 <= inDir < 4
    ensures LaneLengths(inDir) == multiset{1, 2, 2, 3}
  {
    if inDir == 0 { LaneLengths0(); }
    else if inDir == 1 { LaneLengths1(); }
    else if inDir == 2 { LaneLengths2(); }
    else { LaneLengths3(); }
  }

  /** The two loops of `car_cross` before the crossing: count the non-filler
      entries, then take that many entries from the front as the quadrant
      locks, in the order they are acquired. */
  method LocksToAcquire(path: seq<int>) returns (locks: seq<int>)
    requires |path| == 3
    ensures |locks| == QuadrantCount(path)
    ensures SortedPath(path) ==>
      && (forall q :: q in locks <==> q in path && q != PLACEHOLDER)
      && (forall i, j :: 0 <= i < j < |locks| ==> locks[i] < locks[j])
  {
    var numLock := 0;
    var i := 0;
    while i < 3
      invariant 0 <= i <= 3
      invariant numLock == CountUpTo(path, i)
    {
      if path[i] != PLACEHOLDER {
        numLock := numLock + 1;
      }
      i := i + 1;
    }
    locks := [];
    var k := 0;
    while k < numLock
      invariant 0 <= k <= numLock
      invariant locks == path[..k]
    {
      locks := locks + [path[k]];
      k := k + 1;
    }
    if SortedPath(path) {
      forall q ensures q in locks <==> q in path && q != PLACEHOLDER {
        if q in path && q != PLACEHOLDER {
          var j :| 0 <= j < 3 && path[j] == q;
          assert j < numLock;
          assert locks[j] == q;
        }
      }
    }
  }

  // ---------------------------------------------------------------------
  // The lane buffer

  /** A lane: a circular buffer of `capacity` car slots (`None` is NULL),
      read at `head`, last written at `tail`, holding `inBuf` cars; `inc`
      cars are scheduled to arrive and `passed` have crossed. */
  datatype Lane = Lane(buffer: seq<Option<Car>>, head: int, tail: int, capacity: int,
                       inBuf: int, inc: int, passed: int)

  /** `x % c` for the values an index can reach, without the division. */
  function Wrap(x: int, c: int): int {
    if x >= c then x - c else x
  }

  lemma ModIsWrap(x: int, c: int)
    requires c > 0 && 0 <= x < 2 * c
    ensures x % c == Wrap(x, c)
  {
    if x >= c {
      assert (x - c) % c == x % c;
    }
  }

  /** The ring-buffer invariant: indices in range, at most `capacity` cars,
      and `tail + 1` equal to `head + inBuf` modulo `capacity` (both sides
      lie below twice the capacity, so one subtraction reduces them). */
  predicate RingInv(l: Lane) {
    && l.capacity > 0
    && |l.buffer| == l.capacity
    && 0 <= l.inBuf <= l.capacity
    && 0 <= l.head < l.capacity
    && -1 <= l.tail < l.capacity
    && Wrap(l.tail + 1, l.capacity) == Wrap(l.head + l.inBuf, l.capacity)
  }

  lemma ModOfMultiples(c: int)
    requires c > 0
    ensures 0 % c == 0 && c % c == 0 && (-c) % c == 0
  {
  }

  /** The invariant says that `tail` is congruent to `head + inBuf - 1`. */
  lemma RingInvCongruence(l: Lane)
    requires RingInv(l)
    ensures (l.tail - (l.head + l.inBuf - 1)) % l.capacity == 0
  {
    var d := l.tail - (l.head + l.inBuf - 1);
    assert d == 0 || d == l.capacity || d == -l.capacity;
    ModOfMultiples(l.capacity);
  }

  /** The buffer slot of the `i`-th waiting car. */
  function Position(l: Lane, i: int): int {
    Wrap(l.head + i, l.capacity)
  }

  /** The cars waiting in the lane, oldest first. */
  function Contents(l: Lane): (r: seq<Option<Car>>)
    requires RingInv(l)
    ensures |r| == l.inBuf
  {
    seq(l.inBuf, i requires 0 <= i < l.inBuf => l.buffer[Position(l, i)])
  }

  /** `init_lane`'s buffer fields for one lane. */
  function InitLane(laneLength: int): (l: Lane)
    requires laneLength > 0
    ensures RingInv(l) && Contents(l) == []
    ensures l.head == 0 && l.tail == -1 && l.inBuf == 0 && l.capacity == laneLength
    ensures l.inc == 0 && l.passed == 0
    ensures forall j :: 0 <= j < |l.buffer| ==> l.buffer[j] == None
  {
    Lane(seq(laneLength, _ => None), 0, -1, laneLength, 0, 0, 0)
  }

  /** The enqueue step of `car_arrive`, taken only when the lane is not
      full: advance `tail` around the ring and store the car there. */
  function Enqueue(l: Lane, car: Car): (r: Lane)
    requires RingInv(l) && l.inBuf < l.capacity
    ensures RingInv(r)
    ensures Contents(r) == Contents(l) + [Some(car)]
    ensures r.tail == (l.tail + 1) % l.capacity && r.inBuf == l.inBuf + 1
    ensures r.head == l.head && r.capacity == l.capacity && r.inc == l.inc && r.passed == l.passed
  {
    var t := (l.tail + 1) % l.capacity;
    ModIsWrap(l.tail + 1, l.capacity);
    var r := l.(tail := t, buffer := l.buffer[t := Some(car)], inBuf := l.inBuf + 1);
    assert t == Position(l, l.inBuf);
    forall i | 0 <= i < l.inBuf ensures Contents(r)[i] == Contents(l)[i] {
      assert Position(r, i) == Position(l, i) != t;
    }
    assert Contents(r) == Contents(l) + [Some(car)];
    r
  }

  datatype Crossing = Crossing(car: Option<Car>, lane: Lane)

  /** The dequeue step of `car_cross`, taken only when the lane is not
      empty: take the car at `head`, advance `head` around the ring, and
      count the car as passed. */
  function Dequeue(l: Lane): (r: Crossing)
    requires RingInv(l) && l.inBuf > 0
    ensures RingInv(r.lane)
    ensures r.car == Contents(l)[0] && Contents(r.lane) == Contents(l)[1..]
    ensures r.lane.head == (l.head + 1) % l.capacity && r.lane.inBuf == l.inBuf - 1
    ensures r.lane.passed == l.passed + 1
    ensures r.lane.tail == l.tail && r.lane.capacity == l.capacity && r.lane.inc == l.inc
  {
    var h := (l.head + 1) % l.capacity;
    ModIsWrap(l.head + 1, l.capacity);
    var r := Crossing(l.buffer[l.head], l.(head := h, passed := l.passed + 1, inBuf := l.inBuf - 1));
    forall i | 0 <= i < l.inBuf - 1 ensures Contents(r.lane)[i] == Contents(l)[i + 1] {
      assert Position(r.lane, i) == Position(l, i + 1);
    }
    assert Contents(r.lane) == Contents(l)[1..];
    r
  }

  // ---------------------------------------------------------------------
  // Schedules and arrival order

  function Reverse<T>(s: seq<T>): (r: seq<T>)
    ensures |r| == |s|
  {
    seq(|s|, i requires 0 <= i < |s| => s[|s| - 1 - i])
  }

  /** The scheduled cars entering from one direction, in file order. */
  function OfLane(records: seq<Car>, d: int): seq<Car>
  {
    if records == [] then []
    else (if records[0].inDir == d then [records[0]] else []) + OfLane(records[1..], d)
  }

  /** Per-direction arrival lists (`in_cars`, head first) and the lanes'
      `inc` counters. */
  datatype Schedule = Schedule(inCars: seq<seq<Car>>, inc: seq<int>)

  predicate ValidDirections(records: seq<Car>) {
    forall i :: 0 <= i < |records| ==> 0 <= records[i].inDir < 4
  }

  lemma ReverseCons<T>(x: T, s: seq<T>)
    ensures Reverse([x] + s) == Reverse(s) + [x]
  {
    var l, r := Reverse([x] + s), Reverse(s) + [x];
    forall i | 0 <= i < |l| ensures l[i] == r[i] {
      if i < |s| { assert l[i] == s[|s| - 1 - i]; }
    }
  }

  /** `parse_schedule`, line by line: each car is pushed on the head of its
      in-direction's list and that lane's `inc` goes up by one. */
  function ParseSchedule(records: seq<Car>, sch: Schedule): (r: Schedule)
    requires |sch.inCars| == 4 && |sch.inc| == 4
    requires ValidDirections(records)
    decreases |records|
    ensures |r.inCars| == 4 && |r.inc| == 4
    ensures forall d :: 0 <= d < 4 ==> r.inCars[d] == Reverse(OfLane(records, d)) + sch.inCars[d]
    ensures forall d :: 0 <= d < 4 ==> r.inc[d] == sch.inc[d] + |OfLane(records, d)|
  {
    if records == [] then sch
    else
      var c := records[0];
      var next := Schedule(sch.inCars[c.inDir := [c] + sch.inCars[c.inDir]],
                           sch.inc[c.inDir := sch.inc[c.inDir] + 1]);
      var r := ParseSchedule(records[1..], next);
      assert forall d :: 0 <= d < 4 ==> r.inCars[d] == Reverse(OfLane(records, d)) + sch.inCars[d] by {
        forall d | 0 <= d < 4 ensures r.inCars[d] == Reverse(OfLane(records, d)) + sch.inCars[d] {
          var rest := OfLane(records[1..], d);
          if c.inDir == d {
            ReverseCons(c, rest);
            assert Reverse(OfLane(records, d)) == Reverse(rest) + [c];
          } else {
            assert OfLane(records, d) == rest;
          }
        }
      }
      r
  }

  const NoCars := Schedule([[], [], [], []], [0, 0, 0, 0])

  /** The pointer walk of `car_arrive`: starting at the list head, follow
      `next` `n` times. */
  function Walk(list: seq<Car>, n: nat): (c: Car)
    requires n < |list|
    ensures c == list[n]
  {
    if n == 0 then list[0] else Walk(list[1..], n - 1)
  }

  /** The order in which `car_arrive` puts cars into the lane: while
      `counter` runs from `inc` down to 1, the car reached by walking
      `counter - 1` steps from the head is added. */
  function ArrivalOrder(list: seq<Car>, inc: int): (r: seq<Car>)
    requires 0 <= inc <= |list|
    ensures |r| == inc
    ensures r == Reverse(list[..inc])
    decreases inc
  {
    if inc == 0 then []
    else
      var rest := ArrivalOrder(list, inc - 1);
      var r := [Walk(list, inc - 1)] + rest;
      assert forall k :: 0 < k < inc ==> r[k] == rest[k - 1];
      r
  }

  /** The `m`-th car admitted is list cell `inc - 1 - m`. */
  lemma ArrivalAt(list: seq<Car>, inc: int, m: int)
    requires 0 <= m < inc <= |list|
    ensures ArrivalOrder(list, inc)[m] == list[inc - 1 - m]
  {
    assert Reverse(list[..inc])[m] == list[..inc][inc - 1 - m];
  }

  lemma ReverseReverse<T>(s: seq<T>)
    ensures Reverse(Reverse(s)) == s
  {
    var rev := Reverse(s);
    forall k | 0 <= k < |s| ensures Reverse(rev)[k] == s[k] {
      assert rev[|s| - 1 - k] == s[k];
    }
  }

  /** Walking a reversed list from its back yields the original order. */
  lemma ArrivalOfReverse(lane: seq<Car>)
    ensures ArrivalOrder(Reverse(lane), |lane|) == lane
  {
    var rev := Reverse(lane);
    ReverseReverse(lane);
    assert rev[..|lane|] == rev;
  }

  /** Parsing into empty lists leaves each direction's cars in reverse file
      order, with `inc` equal to their number. */
  lemma ParseFromNoCars(records: seq<Car>, d: int)
    requires ValidDirections(records) && 0 <= d < 4
    ensures ParseSchedule(records, NoCars).inCars[d] == Reverse(OfLane(records, d))
    ensures ParseSchedule(records, NoCars).inc[d] == |OfLane(records, d)|
  {
    assert NoCars.inCars[d] == [] && NoCars.inc[d] == 0;
    assert Reverse(OfLane(records, d)) + [] == Reverse(OfLane(records, d));
  }

  /** Because `parse_schedule` pushes onto the head and `car_arrive` walks
      from position `inc-1` back to 0, every lane admits its cars in the
      order they appear in the schedule file. */
  lemma ArrivalIsFileOrder(records: seq<Car>, d: int)
    requires ValidDirections(records) && 0 <= d < 4
    ensures var sch := ParseSchedule(records, NoCars);
      && sch.inc[d] == |sch.inCars[d]|
      && ArrivalOrder(sch.inCars[d], sch.inc[d]) == OfLane(records, d)
  {
    ParseFromNoCars(records, d);
    ArrivalOfReverse(OfLane(records, d));
  }

  function Somes(cars: seq<Car>): (r: seq<Option<Car>>)
    ensures |r| == |cars|
  {
    seq(|cars|, i requires 0 <= i < |cars| => Some(cars[i]))
  }

  /** Appending the next element of `order` to a split prefix of it. */
  lemma PrefixGrows<T>(a: seq<T>, b: seq<T>, order: seq<T>, m: int)
    requires 0 <= m < |order| && a + b == order[..m]
    ensures a + (b + [order[m]]) == order[..m + 1]
  {
    assert order[..m + 1] == order[..m] + [order[m]];
  }

  /** Moving the front of the second part to the back of the first. */
  lemma ShiftSplit<T>(a: seq<T>, b: seq<T>, order: seq<T>)
    requires |b| > 0 && a + b == order
    ensures (a + [b[0]]) + b[1..] == order
  {
    assert b == [b[0]] + b[1..];
  }

  /** One lane with its producer and consumer interleaved. A step adds the
      next car when there is room and cars remain, or lets the car at the
      head cross when the buffer is not empty; when both are possible,
      `preferCross(k)` picks the crossing at step `k`. The waits on the
      lane's condition variables are exactly these enabledness conditions,
      so every schedule the two threads can follow is some `preferCross`.
      Whatever the schedule, cars cross in the order `car_arrive` adds them. */
  method RunLane(list: seq<Car>, inc: int, laneLength: int, preferCross: nat -> bool)
    returns (crossed: seq<Option<Car>>, l: Lane)
    requires laneLength > 0 && 0 <= inc <= |list|
    ensures crossed == Somes(ArrivalOrder(list, inc))
    ensures RingInv(l) && l.passed == l.inc == inc && Contents(l) == []
  {
    l := InitLane(laneLength).(inc := inc);
    var counter := l.inc;
    crossed := [];
    var order := Somes(ArrivalOrder(list, inc));
    var step: nat := 0;
    while l.passed < l.inc
      invariant RingInv(l) && l.inc == inc
      invariant 0 <= counter <= inc
      invariant l.passed == |crossed|
      invariant l.passed + l.inBuf + counter == inc
      invariant crossed + Contents(l) == order[..inc - counter]
      decreases 2 * counter + l.inBuf
    {
      var canAdd := counter > 0 && l.inBuf < l.capacity;
      if canAdd && !(l.inBuf > 0 && preferCross(step)) {
        var m := inc - counter;
        ArrivalAt(list, inc, m);
        assert order[m] == Some(list[counter - 1]);
        PrefixGrows(crossed, Contents(l), order, m);
        l := Enqueue(l, list[counter - 1]);
        counter := counter - 1;
      } else {
        var c := Dequeue(l);
        ShiftSplit(crossed, Contents(l), order[..inc - counter]);
        crossed := crossed + [c.car];
        l := c.lane;
      }
      step := step + 1;
    }
    assert order[..inc] == order;
  }
}
