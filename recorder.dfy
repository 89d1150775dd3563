/** The TrafficRecorder class itself: two arrays updated in place, two indices and
    three counters. Each method is proved to act on the recorder's state as the
    matching function of module RecorderState does. */
module Recorder {
  import opened Ring
  import RecorderState

  class TrafficRecorder {
    var size: nat          // mSize, a power of two
    var sizeMask: nat      // mSizeMask
    ghost var exp: nat     // size == 2^exp
    var times: array<int>  // mTimeArray
    var bytes: array<int>  // mBytesArray
    var head: nat          // mHeadIdx, the sentinel slot
    var tail: nat          // mTailIdx, the newest slot
    var clock: int         // mClock
    var lastPrint: int     // mLastTimeOfPrint
    var accu: int          // mAccuBytesOfPrint

    ghost predicate Valid()
      reads this
    {
      && size == Pow2(exp)
      && sizeMask == size - 1
      && times.Length == size && bytes.Length == size
      && times != bytes
      && head < size && tail < size
    }

    /** The recorder's state as a value. */
    ghost function Model(): (s: RecorderState.State)
      requires Valid()
      reads this, times, bytes
      ensures RecorderState.Wf(s) && RecorderState.Size(s) == size
    {
      RecorderState.State(times[..], bytes[..], head, tail, clock, lastPrint, accu)
    }

    /** TrafficRecorder(size): the capacity is the smallest power of two at or above
        the requested size (2^32 when the request is larger still); then init().
        Only slot 0 is given a value: the other slots hold whatever the fresh
        arrays hold. */
    constructor (requested: nat)
      ensures Valid() && fresh(times) && fresh(bytes)
      ensures requested <= Pow2(32) ==> IsCeilExp(requested, exp)
      ensures requested > Pow2(32) ==> exp == 32
      ensures head == 0 && tail == 0 && times[0] == 0 && bytes[0] == 0
      ensures clock == 0 && lastPrint == 0 && accu == 0
    {
      var e := SizeExponent(requested);
      var n := Pow2(e);
      exp := e;
      size := n;
      sizeMask := n - 1;
      times := new int[n];
      bytes := new int[n];
      head, tail := 0, 0;
      clock, lastPrint, accu := 0, 0, 0;
      new;
      Init();
    }

    /** init(): empty the store by putting both indices on slot 0 and reseeding it. */
    method Init()
      requires Valid()
      modifies this`head, this`tail, times, bytes
      ensures Valid() && Model() == RecorderState.Init(old(Model()))
      ensures head == 0 && tail == 0 && times[0] == 0 && bytes[0] == 0
    {
      head := 0;
      tail := 0;
      times[0] := 0;
      bytes[0] := 0;
    }

    /** updateClock(now). */
    method UpdateClock(now: int)
      requires Valid()
      modifies this`clock
      ensures Valid() && Model() == old(Model()).(clock := now)
    {
      clock := now;
    }

    /** readBytesForLastPeriod(period): walk back from the tail while the slot is
        not the head and not older than clock - period, summing its bytes; then the
        head becomes the slot where the walk stopped. The walk takes at most as many
        steps as there are live slots. */
    method ReadBytesForLastPeriod(period: int) returns (total: int)
      requires Valid()
      modifies this`head
      ensures Valid()
      ensures (total, Model()) == RecorderState.Read(old(Model()), period)
    {
      ghost var s := Model();
      ghost var m: nat := 0;
      RecorderState.WalkStart(s, period);
      total := 0;
      var i: nat := tail;
      while i != head
        modifies {}
        invariant i < size
        invariant RecorderState.Walked(s, period, m, i, total)
        decreases RecorderState.Count(s) - m
      {
        if times[i] < clock - period {
          break;
        }
        RecorderState.WalkOn(s, period, m, i, total, exp);
        total := total + bytes[i];
        i := BitAnd(i + size - 1, sizeMask);
        m := m + 1;
      }
      RecorderState.WalkDone(s, period, m, i, total);
      head := i;
    }

    /** writeBytes(bytes): coalesce into the tail slot when it carries the current
        clock, otherwise stamp the next slot; a write that lands on the head slot
        pushes the head on by one, dropping the oldest sample. */
    method WriteBytes(b: int)
      requires Valid()
      modifies this`head, this`tail, this`accu, times, bytes
      ensures Valid() && Model() == RecorderState.Write(old(Model()), b)
    {
      ghost var s := Model();
      ghost var r := RecorderState.Write(s, b);
      RecorderState.WriteHeadMasked(s, b, exp);
      var writeIdx: nat;
      if clock == times[tail] {
        writeIdx := tail;
        bytes[writeIdx] := bytes[writeIdx] + b;
        assert r.tail == writeIdx && r.times == s.times && r.bytes == s.bytes[writeIdx := s.bytes[writeIdx] + b];
        assert times[..] == r.times && bytes[..] == r.bytes;
      } else {
        writeIdx := (tail + 1) % size;
        times[writeIdx] := clock;
        bytes[writeIdx] := b;
        assert r.tail == writeIdx && r.times == s.times[writeIdx := s.clock] && r.bytes == s.bytes[writeIdx := b];
        assert times[..] == r.times && bytes[..] == r.bytes;
      }
      var newHead := head;
      if writeIdx == head {
        newHead := BitAnd(head + 1, sizeMask);
      }
      assert newHead == r.head;
      head, tail, accu := newHead, writeIdx, accu + b;
    }

    /** printAccuBitsForLastPeriod(period, unit), without the rate it logs: once
        more than period has passed since the last report, restart the report
        window and reinitialise the store. */
    method PrintAccuBitsForLastPeriod(period: int, unit: int)
      requires Valid()
      modifies this`lastPrint, this`accu, this`head, this`tail, times, bytes
      ensures Valid() && Model() == RecorderState.Report(old(Model()), period)
    {
      var duration := clock - lastPrint;
      if duration > period {
        lastPrint := clock;
        accu := 0;
        Init();
      }
    }
  }
}
