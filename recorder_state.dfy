/** The traffic recorder's whole state as a value, and each of its operations as a
    function on that value. The class in module Recorder is proved to follow these
    functions; the lemmas here state what the operations mean for the samples the
    recorder retains. */
module RecorderState {
  import opened Ring

  /** One slot of the circular store: a timestamp and the bytes counted at it. */
  datatype Slot = Slot(time: int, bytes: int)

  /** mTimeArray, mBytesArray, mHeadIdx, mTailIdx, mClock, mLastTimeOfPrint and
      mAccuBytesOfPrint. The capacity mSize is the length of the two arrays. */
  datatype State = State(
    times: seq<int>,
    bytes: seq<int>,
    head: nat,
    tail: nat,
    clock: int,
    lastPrint: int,
    accu: int)

  predicate Wf(s: State)
  {
    |s.times| == |s.bytes| > 0 && s.head < |s.times| && s.tail < |s.times|
  }

  function Size(s: State): nat
  {
    |s.times|
  }

  function SlotAt(s: State, i: nat): Slot
    requires Wf(s) && i < Size(s)
  {
    Slot(s.times[i], s.bytes[i])
  }

  /** Number of live slots: the ring distance from head to tail. */
  function Count(s: State): (c: nat)
    requires Wf(s)
    ensures c < Size(s)
  {
    if s.head <= s.tail then s.tail - s.head else s.tail + Size(s) - s.head
  }

  /** Array index of the j-th slot after the head, walking forward round the ring. */
  function Pos(s: State, j: nat): (i: nat)
    requires Wf(s) && j < Size(s)
    ensures i < Size(s)
  {
    if s.head + 1 + j < Size(s) then s.head + 1 + j else s.head + 1 + j - Size(s)
  }

  /** The live samples, oldest first: the slots after head up to and including tail.
      The head slot itself is a sentinel that no read ever sums. */
  function Live(s: State): (live: seq<Slot>)
    requires Wf(s)
    ensures |live| == Count(s) < Size(s)
  {
    seq(Count(s), j requires 0 <= j < Count(s) => SlotAt(s, Pos(s, j)))
  }

  /** Total byte count of a run of samples. */
  function Sum(live: seq<Slot>): int
  {
    if live == [] then 0 else live[0].bytes + Sum(live[1..])
  }

  /** Length of the longest run at the end of live whose timestamps are all at or
      after cutoff: how far the backward walk of a read gets. */
  function Kept(live: seq<Slot>, cutoff: int): (k: nat)
    ensures k <= |live|
  {
    KeptBefore(live, |live|, cutoff)
  }

  /** Length of the run of samples at or after cutoff that ends just before index n. */
  function KeptBefore(live: seq<Slot>, n: nat, cutoff: int): (k: nat)
    requires n <= |live|
    ensures k <= n
  {
    if n == 0 || live[n - 1].time < cutoff then 0
    else 1 + KeptBefore(live, n - 1, cutoff)
  }

  /** init(): both indices back to slot 0, which is reseeded with time 0 and no
      bytes. The other slots keep whatever they held. */
  function Init(s: State): (r: State)
    requires Wf(s)
    ensures Wf(r) && Size(r) == Size(s)
    ensures r.head == r.tail == 0 && SlotAt(r, 0) == Slot(0, 0) && Live(r) == []
    ensures r.clock == s.clock && r.lastPrint == s.lastPrint && r.accu == s.accu
  {
    s.(times := s.times[0 := 0], bytes := s.bytes[0 := 0], head := 0, tail := 0)
  }

  /** The slot the read loop stands on after m steps back from the tail. */
  function WalkIndex(s: State, m: nat): (i: nat)
    requires Wf(s) && m <= Count(s)
    ensures i < Size(s)
  {
    if s.head + (Count(s) - m) < Size(s) then s.head + (Count(s) - m) else s.head + (Count(s) - m) - Size(s)
  }

  /** readBytesForLastPeriod(period): the sum over the newest live samples whose
      time is at least clock - period; the head moves to where the walk stopped,
      which drops every older sample. */
  function Read(s: State, period: int): (out: (int, State))
    requires Wf(s)
    ensures Wf(out.1) && out.1 == s.(head := out.1.head)
  {
    var live := Live(s);
    var k := Kept(live, s.clock - period);
    (Sum(live[|live| - k..]), s.(head := WalkIndex(s, k)))
  }

  /** writeBytes(bytes): coalesce into the tail slot when it carries the current
      clock, otherwise stamp the next slot; a write landing on the head slot moves
      the head on by one. */
  function Write(s: State, b: int): (r: State)
    requires Wf(s)
    ensures Wf(r) && Size(r) == Size(s)
    ensures r.times[r.tail] == s.clock
    ensures r.accu == s.accu + b
    ensures r.clock == s.clock && r.lastPrint == s.lastPrint
  {
    var coalesce := s.clock == s.times[s.tail];
    var w := if coalesce then s.tail else (s.tail + 1) % Size(s);
    var times := if coalesce then s.times else s.times[w := s.clock];
    var bytes := if coalesce then s.bytes[w := s.bytes[w] + b] else s.bytes[w := b];
    var head := if w == s.head then (s.head + 1) % Size(s) else s.head;
    s.(times := times, bytes := bytes, head := head, tail := w, accu := s.accu + b)
  }

  /** The state change of printAccuBitsForLastPeriod(period, unit): once more than
      period has passed since the last report, restart the report window and empty
      the store. */
  function Report(s: State, period: int): (r: State)
    requires Wf(s)
    ensures Wf(r) && r.clock == s.clock
    ensures s.clock - s.lastPrint > period ==>
      r.lastPrint == s.clock && r.accu == 0 && Live(r) == [] && r.head == r.tail == 0
    ensures s.clock - s.lastPrint <= period ==> r == s
  {
    if s.clock - s.lastPrint > period then Init(s.(lastPrint := s.clock, accu := 0))
    else s
  }


  // ----- positions on the ring -----

  /** The last live slot is the tail and the slot after it is (tail + 1) mod size;
      no other live position hits either. */
  lemma PosAroundTail(s: State, j: nat)
    requires Wf(s) && j <= Count(s)
    ensures Pos(s, j) == s.tail <==> j + 1 == Count(s) || (Count(s) == 0 && j + 1 == Size(s))
    ensures Pos(s, j) == (s.tail + 1) % Size(s) <==> j == Count(s)
  {
    ModOnce(s.tail + 1, Size(s));
  }

  /** The backward walk starts at the tail, reaches the head exactly after Count
      steps, visits the live samples newest first, and each step is one slot back
      round the ring. */
  lemma WalkStep(s: State, m: nat)
    requires Wf(s) && m <= Count(s)
    ensures m == 0 ==> WalkIndex(s, m) == s.tail
    ensures WalkIndex(s, m) == s.head <==> m == Count(s)
    ensures m < Count(s) ==> Live(s)[Count(s) - 1 - m] == SlotAt(s, WalkIndex(s, m))
    ensures m < Count(s) ==> (WalkIndex(s, m) + Size(s) - 1) % Size(s) == WalkIndex(s, m + 1)
  {
    var n, c := Size(s), Count(s);
    ModOnce(s.head + (c - m), n);
    if m < c {
      ModOnce(s.head + (c - m - 1), n);
      ModOnce(WalkIndex(s, m) + n - 1, n);
    }
  }

  /** Moving the head forward by d shifts every position by d. */
  lemma PosShift(s: State, d: nat, j: nat)
    requires Wf(s) && d + j < Size(s)
    ensures Wf(s.(head := (s.head + d) % Size(s)))
    ensures Pos(s.(head := (s.head + d) % Size(s)), j) == Pos(s, d + j)
  {
    var s' := s.(head := (s.head + d) % Size(s));
    ModOnce(s.head + d, Size(s));
  }

  /** Moving the head forward by d live slots drops exactly the d oldest samples. */
  lemma LiveAdvance(s: State, d: nat)
    requires Wf(s) && d <= Count(s)
    ensures Wf(s.(head := (s.head + d) % Size(s)))
    ensures Count(s.(head := (s.head + d) % Size(s))) == Count(s) - d
    ensures Live(s.(head := (s.head + d) % Size(s))) == Live(s)[d..]
  {
    var n := Size(s);
    var s' := s.(head := (s.head + d) % n);
    ModOnce(s.head + d, n);
    forall j | 0 <= j < Count(s')
      ensures Live(s')[j] == Live(s)[d + j]
    {
      PosShift(s, d, j);
    }
  }

  /** The live view depends on the arrays and the indices only. */
  lemma LiveIgnoresCounters(s: State, clock: int, lastPrint: int, accu: int)
    requires Wf(s)
    ensures Live(s.(clock := clock, lastPrint := lastPrint, accu := accu)) == Live(s)
  {
  }

  // ----- sums -----

  lemma {:induction false} SumAppend(live: seq<Slot>, x: Slot)
    ensures Sum(live + [x]) == Sum(live) + x.bytes
  {
    if live != [] {
      assert (live + [x])[1..] == live[1..] + [x];
      SumAppend(live[1..], x);
    }
  }

  // ----- reads -----

  /** The Kept newest samples are all at or after the cutoff, and the one just
      before them, if any, is older. */
  lemma {:induction false} KeptBeforeSpec(live: seq<Slot>, n: nat, cutoff: int)
    requires n <= |live|
    ensures forall j :: n - KeptBefore(live, n, cutoff) <= j < n ==> live[j].time >= cutoff
    ensures KeptBefore(live, n, cutoff) < n ==> live[n - 1 - KeptBefore(live, n, cutoff)].time < cutoff
  {
    if n > 0 && live[n - 1].time >= cutoff {
      KeptBeforeSpec(live, n - 1, cutoff);
    }
  }

  lemma KeptSpec(live: seq<Slot>, cutoff: int)
    ensures forall j :: |live| - Kept(live, cutoff) <= j < |live| ==> live[j].time >= cutoff
    ensures Kept(live, cutoff) < |live| ==> live[|live| - 1 - Kept(live, cutoff)].time < cutoff
  {
    KeptBeforeSpec(live, |live|, cutoff);
  }

  /** The walk's stopping point is determined by the two properties KeptSpec states. */
  lemma KeptUnique(live: seq<Slot>, cutoff: int, m: nat)
    requires m <= |live|
    requires forall j :: |live| - m <= j < |live| ==> live[j].time >= cutoff
    requires m < |live| ==> live[|live| - 1 - m].time < cutoff
    ensures Kept(live, cutoff) == m
  {
    KeptSpec(live, cutoff);
  }

  /** One more step of the walk adds the visited sample to the running total. */
  lemma SumStep(live: seq<Slot>, m: nat)
    requires m < |live|
    ensures Sum(live[|live| - 1 - m..]) == live[|live| - 1 - m].bytes + Sum(live[|live| - m..])
  {
    assert live[|live| - 1 - m..][1..] == live[|live| - m..];
  }

  /** The read loop's step `(i + mSize - 1) & mSizeMask` moves one slot back when
      the size is a power of two. */
  lemma MaskedStepBack(s: State, m: nat, exp: nat)
    requires Wf(s) && m < Count(s) && Size(s) == Pow2(exp)
    ensures BitAnd(WalkIndex(s, m) + Size(s) - 1, Size(s) - 1) == WalkIndex(s, m + 1)
  {
    WalkStep(s, m);
    MaskIsMod(WalkIndex(s, m) + Size(s) - 1, exp);
  }

  /** The read loop's state after m steps back from the tail: it stands on slot i,
      the m samples walked over are inside the window, and total is their sum. */
  ghost predicate Walked(s: State, period: int, m: nat, i: nat, total: int)
  {
    && Wf(s) && m <= Count(s) && i == WalkIndex(s, m)
    && (forall j :: Count(s) - m <= j < Count(s) ==> Live(s)[j].time >= s.clock - period)
    && total == Sum(Live(s)[Count(s) - m..])
  }

  /** The walk starts on the tail with nothing summed. */
  lemma WalkStart(s: State, period: int)
    requires Wf(s)
    ensures Walked(s, period, 0, s.tail, 0)
  {
    WalkStep(s, 0);
  }

  /** One step of the walk from a slot that is not the head and lies inside the
      window: the slot's bytes join the total and the walk moves one slot back
      with `(i + mSize - 1) & mSizeMask`. */
  lemma WalkOn(s: State, period: int, m: nat, i: nat, total: int, exp: nat)
    requires Walked(s, period, m, i, total) && Size(s) == Pow2(exp)
    requires i != s.head && s.times[i] >= s.clock - period
    ensures m < Count(s)
    ensures Walked(s, period, m + 1, BitAnd(i + Size(s) - 1, Size(s) - 1), total + s.bytes[i])
  {
    WalkStep(s, m);
    SumStep(Live(s), m);
    MaskedStepBack(s, m, exp);
  }

  /** Where the walk stops, on the head or on a slot older than the window, Read
      has its result: the total walked over, and the head on the stopping slot. */
  lemma WalkDone(s: State, period: int, m: nat, i: nat, total: int)
    requires Walked(s, period, m, i, total)
    requires i == s.head || s.times[i] < s.clock - period
    ensures Read(s, period) == (total, s.(head := i))
  {
    WalkStep(s, m);
    KeptUnique(Live(s), s.clock - period, m);
  }

  /** Putting the head where the walk stands after m steps keeps exactly the m
      newest samples. */
  lemma LiveAfterWalk(s: State, m: nat)
    requires Wf(s) && m <= Count(s)
    ensures Wf(s.(head := WalkIndex(s, m)))
    ensures Count(s.(head := WalkIndex(s, m))) == m
    ensures Live(s.(head := WalkIndex(s, m))) == Live(s)[Count(s) - m..]
  {
    ModOnce(s.head + (Count(s) - m), Size(s));
    LiveAdvance(s, Count(s) - m);
  }

  /** Read in terms of the live samples: it keeps the Kept newest of them and
      returns their total. */
  lemma ReadIs(s: State, period: int)
    requires Wf(s)
    ensures Live(Read(s, period).1) == Live(s)[|Live(s)| - Kept(Live(s), s.clock - period)..]
    ensures Read(s, period).0 == Sum(Live(Read(s, period).1))
  {
    var live, k := Live(s), Kept(Live(s), s.clock - period);
    var after := s.(head := WalkIndex(s, k));
    assert Read(s, period) == (Sum(live[|live| - k..]), after);
    LiveAfterWalk(s, k);
    assert Live(after) == live[|live| - k..];
  }

  /** A run of k samples all at or after cutoff is kept whole by any earlier
      cutoff. */
  lemma KeptWhole(live: seq<Slot>, k: nat, cutoff: int, earlier: int)
    requires k <= |live| && earlier <= cutoff
    requires forall j :: |live| - k <= j < |live| ==> live[j].time >= cutoff
    ensures Kept(live[|live| - k..], earlier) == k
  {
    var kept := live[|live| - k..];
    forall j | 0 <= j < k
      ensures kept[j].time >= earlier
    {
      assert kept[j] == live[|live| - k + j];
    }
    KeptUnique(kept, earlier, k);
  }

  /** A read keeps the k newest live samples, k being how far the walk gets: they
      are all at or after clock - period, the sample just before them (if any) is
      older, the total is their sum, and every older sample is dropped. */
  lemma ReadEvicts(s: State, period: int)
    requires Wf(s)
    ensures var live, k, out := Live(s), Kept(Live(s), s.clock - period), Read(s, period);
      && Live(out.1) == live[|live| - k..]
      && out.0 == Sum(live[|live| - k..])
      && (forall j :: |live| - k <= j < |live| ==> live[j].time >= s.clock - period)
      && (k < |live| ==> live[|live| - 1 - k].time < s.clock - period)
  {
    ReadIs(s, period);
    KeptSpec(Live(s), s.clock - period);
  }

  /** Reading from an empty store (head == tail, as right after init) returns 0
      and changes nothing. */
  lemma ReadEmpty(s: State, period: int)
    requires Wf(s) && s.head == s.tail
    ensures Read(s, period) == (0, s)
  {
  }

  /** With a one-slot store every read returns 0: the only slot is the sentinel. */
  lemma ReadSizeOne(s: State, period: int)
    requires Wf(s) && Size(s) == 1
    ensures Read(s, period) == (0, s)
  {
  }

  /** A read whose walk gets all the way back to the head returns the total of
      every live sample and leaves the state as it was. */
  lemma ReadKeepsAll(s: State, period: int)
    requires Wf(s) && Kept(Live(s), s.clock - period) == Count(s)
    ensures Read(s, period) == (Sum(Live(s)), s)
  {
    var live := Live(s);
    assert live[|live| - Count(s)..] == live;
    WalkStep(s, Count(s));
  }

  /** Eviction on read is destructive and monotone: after a read, any read at the
      same clock over the same or a longer period returns the same total and
      leaves the head where it is. */
  lemma ReadAgain(s: State, p1: int, p2: int)
    requires Wf(s) && p1 <= p2
    ensures var first := Read(s, p1);
      Read(first.1, p2) == first
  {
    var live, k := Live(s), Kept(Live(s), s.clock - p1);
    var s1 := Read(s, p1).1;
    ReadEvicts(s, p1);
    KeptWhole(live, k, s.clock - p1, s.clock - p2);
    assert s1.clock == s.clock && Live(s1) == live[|live| - k..];
    ReadKeepsAll(s1, p2);
  }

  /** Repeating a read is idempotent. */
  lemma ReadIdempotent(s: State, period: int)
    requires Wf(s)
    ensures Read(Read(s, period).1, period) == Read(s, period)
  {
    ReadAgain(s, period, period);
  }

  // ----- writes -----

  /** The head step of a write, `(mHeadIdx + 1) & mSizeMask`, when the size is a
      power of two. */
  lemma WriteHeadMasked(s: State, b: int, exp: nat)
    requires Wf(s) && Size(s) == Pow2(exp)
    ensures Write(s, b).head ==
      if Write(s, b).tail == s.head then BitAnd(s.head + 1, Size(s) - 1) else s.head
  {
    MaskIsMod(s.head + 1, exp);
  }

  /** A write at the clock of the newest live sample adds to that sample. */
  lemma WriteCoalesces(s: State, b: int)
    requires Wf(s) && s.times[s.tail] == s.clock && s.head != s.tail
    ensures var live, r := Live(s), Write(s, b);
      && |live| > 0 && live[|live| - 1].time == s.clock
      && r.head == s.head && r.tail == s.tail
      && Live(r) == live[..|live| - 1] + [Slot(s.clock, live[|live| - 1].bytes + b)]
      && Sum(Live(r)) == Sum(live) + b
  {
    var live, r := Live(s), Write(s, b);
    var c := |live|;
    PosAroundTail(s, c - 1);
    var expected := live[..c - 1] + [Slot(s.clock, live[c - 1].bytes + b)];
    forall j | 0 <= j < c
      ensures Live(r)[j] == expected[j]
    {
      PosAroundTail(s, j);
    }
    assert Live(r) == expected;
    assert live[..c - 1] + [live[c - 1]] == live;
    SumAppend(live[..c - 1], live[c - 1]);
    SumAppend(live[..c - 1], Slot(s.clock, live[c - 1].bytes + b));
  }

  /** A write at a new clock value with room to spare appends one sample. */
  lemma WriteAppends(s: State, b: int)
    requires Wf(s) && s.times[s.tail] != s.clock && (s.tail + 1) % Size(s) != s.head
    ensures var live, r := Live(s), Write(s, b);
      && r.head == s.head && r.tail == (s.tail + 1) % Size(s)
      && Live(r) == live + [Slot(s.clock, b)]
      && Sum(Live(r)) == Sum(live) + b
  {
    var n, live, r := Size(s), Live(s), Write(s, b);
    var c := |live|;
    ModOnce(s.tail + 1, n);
    assert Count(r) == c + 1;
    var expected := live + [Slot(s.clock, b)];
    forall j | 0 <= j <= c
      ensures Live(r)[j] == expected[j]
    {
      PosAroundTail(s, j);
    }
    assert Live(r) == expected;
    SumAppend(live, Slot(s.clock, b));
  }

  /** A write at a new clock value into a full store overwrites the oldest sample:
      the head slot becomes the newest sample and the head moves on. */
  lemma WriteOverflowDropsOldest(s: State, b: int)
    requires Wf(s) && s.times[s.tail] != s.clock && (s.tail + 1) % Size(s) == s.head
    ensures var live, r := Live(s), Write(s, b);
      && |live| == Size(s) - 1
      && r.tail == s.head && r.head == (s.head + 1) % Size(s)
      && Live(r) == (live + [Slot(s.clock, b)])[1..]
      && (|live| > 0 ==> Sum(Live(r)) == Sum(live) - live[0].bytes + b)
  {
    var n, live, r := Size(s), Live(s), Write(s, b);
    var c := |live|;
    ModOnce(s.tail + 1, n);
    assert c == n - 1;
    ModOnce(s.head + 1, n);
    assert Count(r) == c;
    var expected := (live + [Slot(s.clock, b)])[1..];
    forall j | 0 <= j < c
      ensures Live(r)[j] == expected[j]
    {
      PosShift(s, 1, j);
      PosAroundTail(s, j + 1);
    }
    assert Live(r) == expected;
    SumAppend(live, Slot(s.clock, b));
    if c > 0 {
      assert (live + [Slot(s.clock, b)])[0] == live[0];
    }
  }

  /** A write that coalesces into the tail while the tail is the head sentinel
      (an empty store whose seed slot carries the current clock) still takes the
      overflow branch: the head moves past the tail and every other slot of the
      array, whatever it holds, becomes live. */
  lemma WriteAtSentinel(s: State, b: int)
    requires Wf(s) && s.times[s.tail] == s.clock && s.head == s.tail
    ensures var r := Write(s, b);
      && Live(s) == []
      && r.tail == s.tail && r.head == (s.tail + 1) % Size(s)
      && |Live(r)| == Size(s) - 1
      && (Size(s) > 1 ==> Live(r)[Size(s) - 2] == Slot(s.clock, s.bytes[s.tail] + b))
      && (forall j :: 0 <= j < Size(s) - 2 ==> Live(r)[j] == SlotAt(s, Pos(s, j + 1)))
  {
    var n, r := Size(s), Write(s, b);
    ModOnce(s.tail + 1, n);
    assert Count(r) == n - 1;
    forall j | 0 <= j < n - 1
      ensures Live(r)[j] == if j == n - 2 then Slot(s.clock, s.bytes[s.tail] + b) else SlotAt(s, Pos(s, j + 1))
    {
      PosShift(s, 1, j);
    }
  }

  /** Two writes at one clock value act as one write of their sum: the first
      leaves the tail stamped with the clock, so the second coalesces into it.
      This holds in every state, the clock-0 write into the sentinel included. */
  lemma WriteTwiceSameClock(s: State, b1: int, b2: int)
    requires Wf(s)
    ensures Write(Write(s, b1), b2) == Write(s, b1 + b2)
  {
  }

  // ----- the clock-0 write straight after init -----

  /** After init, a write at clock 0 coalesces into the seed slot, which is the
      head: with n >= 2 slots the head ends at 1 and the tail at 0, so the n - 2
      slots that init never wrote count as live samples. */
  lemma InitThenWriteAtZero(s: State, b: int)
    requires Wf(s) && Size(s) >= 2
    ensures var r := Write(Init(s).(clock := 0), b);
      && r.head == 1 && r.tail == 0
      && |Live(r)| == Size(s) - 1
      && Live(r)[Size(s) - 2] == Slot(0, b)
      && (forall j :: 2 <= j < Size(s) ==> Live(r)[j - 2] == SlotAt(s, j))
  {
    var s0 := Init(s).(clock := 0);
    assert Size(s0) == Size(s) && s0.head == s0.tail == 0 && s0.times[0] == s0.clock;
    WriteAtSentinel(s0, b);
    var r := Write(s0, b);
    assert |Live(r)| == Size(s) - 1;
    forall j | 2 <= j < Size(s)
      ensures Live(r)[j - 2] == SlotAt(s, j)
    {
    }
  }

  /** A concrete run: four slots, the three never written holding time -5 and 9
      bytes. Writing 100 bytes at clock 0 after init and then reading a 10-unit
      window returns 118, not 100. */
  lemma StaleSlotsCounted()
    ensures Read(Write(State([0, -5, -5, -5], [0, 9, 9, 9], 0, 0, 0, 0, 0), 100), 10).0 == 118
  {
    var s := State([0, -5, -5, -5], [0, 9, 9, 9], 0, 0, 0, 0, 0);
    var r := Write(s, 100);
    assert r == State([0, -5, -5, -5], [100, 9, 9, 9], 1, 0, 0, 0, 100);
    var live := Live(r);
    assert |live| == 3;
    assert live[0] == Slot(-5, 9) && live[1] == Slot(-5, 9) && live[2] == Slot(0, 100);
    KeptUnique(live, -10, 3);
    assert live[0..] == live;
    assert live[1..][1..] == [Slot(0, 100)];
    assert Sum([Slot(0, 100)]) == 100 by {
      assert [Slot(0, 100)][1..] == [];
    }
    assert Sum(live[1..]) == 109;
    assert Sum(live) == 118;
  }

  // ----- the ordering invariant -----

  /** Strictly increasing timestamps: at most one retained sample per clock value. */
  predicate Increasing(live: seq<Slot>)
  {
    forall i, j :: 0 <= i < j < |live| ==> live[i].time < live[j].time
  }

  /** No retained sample is stamped later than the clock. */
  predicate NotAfter(live: seq<Slot>, clock: int)
  {
    forall i :: 0 <= i < |live| ==> live[i].time <= clock
  }

  /** The recorder's intended invariant: ordered samples none later than the clock;
      an empty store of two or more slots whose sentinel is older than the clock, so
      that the next write appends; and a last report time between 0 and the clock.
      The last clause is what keeps a report's reset healthy: the reset happens only
      when clock - lastPrint > period >= 0, so the clock is then above 0 and the
      reseeded slot 0 (time 0) is older than it. */
  predicate Healthy(s: State)
  {
    && Wf(s)
    && Increasing(Live(s))
    && NotAfter(Live(s), s.clock)
    && (Size(s) > 1 && s.head == s.tail ==> s.times[s.tail] < s.clock)
    && 0 <= s.lastPrint <= s.clock
  }

  /** A store that is not empty has its newest sample in the tail slot. */
  lemma LastIsTail(s: State)
    requires Wf(s) && s.head != s.tail
    ensures |Live(s)| > 0 && Live(s)[|Live(s)| - 1] == SlotAt(s, s.tail)
  {
    PosAroundTail(s, |Live(s)| - 1);
  }

  lemma IncreasingAppend(live: seq<Slot>, x: Slot)
    requires Increasing(live) && (|live| > 0 ==> live[|live| - 1].time < x.time)
    ensures Increasing(live + [x])
  {
    var l := live + [x];
    forall i, j | 0 <= i < j < |l|
      ensures l[i].time < l[j].time
    {
      if j == |live| && i < |live| - 1 {
        assert live[i].time < live[|live| - 1].time;
      }
    }
  }

  lemma SuffixKeepsOrder(live: seq<Slot>, d: nat, clock: int)
    requires d <= |live| && Increasing(live) && NotAfter(live, clock)
    ensures Increasing(live[d..]) && NotAfter(live[d..], clock)
  {
    var t := live[d..];
    forall i, j | 0 <= i < j < |t|
      ensures t[i].time < t[j].time
    {
      assert t[i] == live[d + i] && t[j] == live[d + j];
    }
    forall i | 0 <= i < |t|
      ensures t[i].time <= clock
    {
      assert t[i] == live[d + i];
    }
  }

  /** Advancing the clock keeps the store healthy. */
  lemma UpdateClockKeepsHealthy(s: State, now: int)
    requires Healthy(s) && s.clock <= now
    ensures Healthy(s.(clock := now))
  {
    LiveIgnoresCounters(s, now, s.lastPrint, s.accu);
  }

  /** In a healthy store with two or more slots the tail slot is never later than
      the clock, and when anything is live it is the newest sample. */
  lemma TailNotAfter(s: State)
    requires Healthy(s) && Size(s) > 1
    ensures s.times[s.tail] <= s.clock
    ensures |Live(s)| > 0 ==> Live(s)[|Live(s)| - 1].time == s.times[s.tail]
  {
    if s.head != s.tail {
      LastIsTail(s);
      assert Live(s)[|Live(s)| - 1].time <= s.clock;
    } else {
    }
  }

  lemma CoalesceKeepsHealthy(s: State, b: int)
    requires Healthy(s) && Size(s) > 1 && s.times[s.tail] == s.clock
    ensures Healthy(Write(s, b))
  {
    var live, r := Live(s), Write(s, b);
    WriteCoalesces(s, b);
    var c := |live|;
    forall i, j | 0 <= i < j < c
      ensures Live(r)[i].time < Live(r)[j].time
    {
      assert Live(r)[i].time == live[i].time && Live(r)[j].time == live[j].time;
    }
    forall i | 0 <= i < c
      ensures Live(r)[i].time <= r.clock
    {
      assert Live(r)[i].time == live[i].time;
    }
  }

  lemma AppendKeepsHealthy(s: State, b: int)
    requires Healthy(s) && Size(s) > 1 && s.times[s.tail] != s.clock
    requires (s.tail + 1) % Size(s) != s.head
    ensures Healthy(Write(s, b))
  {
    var live := Live(s);
    TailNotAfter(s);
    WriteAppends(s, b);
    IncreasingAppend(live, Slot(s.clock, b));
  }

  lemma OverflowKeepsHealthy(s: State, b: int)
    requires Healthy(s) && Size(s) > 1 && s.times[s.tail] != s.clock
    requires (s.tail + 1) % Size(s) == s.head
    ensures Healthy(Write(s, b))
  {
    var live, x := Live(s), Slot(s.clock, b);
    TailNotAfter(s);
    WriteOverflowDropsOldest(s, b);
    IncreasingAppend(live, x);
    SuffixKeepsOrder(live + [x], 1, s.clock);
    ModOnce(s.head + 1, Size(s));
  }

  /** A write keeps the store healthy: the sentinel condition rules out the write
      that would make stale slots live. */
  lemma WriteKeepsHealthy(s: State, b: int)
    requires Healthy(s)
    ensures Healthy(Write(s, b))
  {
    var n := Size(s);
    if n > 1 {
      if s.times[s.tail] == s.clock {
        CoalesceKeepsHealthy(s, b);
      } else if (s.tail + 1) % n != s.head {
        AppendKeepsHealthy(s, b);
      } else {
        OverflowKeepsHealthy(s, b);
      }
    }
  }

  /** A read over a non-negative period keeps the store healthy. */
  lemma ReadKeepsHealthy(s: State, period: int)
    requires Healthy(s) && period >= 0
    ensures Healthy(Read(s, period).1)
  {
    var live, out := Live(s), Read(s, period);
    ReadEvicts(s, period);
    var kept := Live(out.1);
    SuffixKeepsOrder(live, |live| - |kept|, s.clock);
    if Size(s) > 1 && out.1.head == out.1.tail {
      if s.head != s.tail {
        LastIsTail(s);
      } else {
      }
    }
  }

  /** A report keeps the store healthy; when it resets, the store is empty and
      every read returns 0. */
  lemma ReportKeepsHealthy(s: State, period: int, readPeriod: int)
    requires Healthy(s) && period >= 0
    ensures Healthy(Report(s, period))
    ensures s.clock - s.lastPrint > period ==> Read(Report(s, period), readPeriod).0 == 0
  {
    if s.clock - s.lastPrint > period {
      ReadEmpty(Report(s, period), readPeriod);
    }
  }

  /** A freshly initialised store becomes healthy as soon as the clock is advanced
      past 0; before that, the clock-0 write of InitThenWriteAtZero is possible. */
  lemma InitHealthyOnceClockAdvances(s: State, now: int)
    requires Wf(s) && now > 0
    ensures Healthy(Init(s).(clock := now, lastPrint := 0))
  {
  }

  // ----- a worked example -----

  /** Samples at times 0, 10, 20 and 30 with 5 bytes each in slots 1 to 4 of an
      eight-slot store (slot 0 is the sentinel), with the clock at 30. */
  function ExampleState(): (s: State)
    ensures Wf(s) && Live(s) == [Slot(0, 5), Slot(10, 5), Slot(20, 5), Slot(30, 5)]
  {
    var s := State([0, 0, 10, 20, 30, 0, 0, 0], [0, 5, 5, 5, 5, 0, 0, 0], 0, 4, 30, 0, 0);
    assert |Live(s)| == 4;
    assert Live(s)[0] == Slot(0, 5) && Live(s)[1] == Slot(10, 5);
    assert Live(s)[2] == Slot(20, 5) && Live(s)[3] == Slot(30, 5);
    s
  }

  /** A 15-unit window holds the samples at 20 and 30; a 100-unit window holds
      all four. Time is signed here, so the cutoff 30 - 100 is negative. */
  lemma WindowExample()
    ensures Read(ExampleState(), 15).0 == 10
    ensures Read(ExampleState(), 100).0 == 20
  {
    var live := Live(ExampleState());
    KeptUnique(live, 15, 2);
    KeptUnique(live, -70, 4);
    SumAppend([Slot(0, 5), Slot(10, 5), Slot(20, 5)], Slot(30, 5));
    SumAppend([Slot(0, 5), Slot(10, 5)], Slot(20, 5));
    SumAppend([Slot(0, 5)], Slot(10, 5));
    assert live[2..] == [Slot(20, 5), Slot(30, 5)];
    SumAppend([Slot(20, 5)], Slot(30, 5));
  }

  /** A 5-unit read keeps only the sample at 30 (its cutoff 25 evicts the sample at
      20 too), and a later 100-unit read at the same clock finds only that one.
      Time is signed here, so the cutoff 30 - 100 is negative. */
  lemma EvictionExample()
    ensures Read(ExampleState(), 5).0 == 5
    ensures Read(Read(ExampleState(), 5).1, 100).0 == 5
  {
    var live := Live(ExampleState());
    KeptUnique(live, 25, 1);
    assert live[3..] == [Slot(30, 5)];
    assert Sum([Slot(30, 5)]) == 5 by {
      assert [Slot(30, 5)][1..] == [];
    }
    ReadAgain(ExampleState(), 5, 100);
  }
}
