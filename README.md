# TrafficRecorder: a verified model

`TrafficRecorder<Time, Bytes>` (media/libstagefright/rtsp/TrafficRecorder.h) keeps
a short history of how many bytes an RTSP session sent at each clock value. The
history lives in a circular store of `mSize` slots, where `mSize` is a power of two.
Each slot is a timestamp in `mTimeArray` and a byte count in `mBytesArray`. The
store is delimited by `mHeadIdx` and `mTailIdx`. The recorder also keeps a clock
set by the caller (`mClock`) and a running total for periodic reports
(`mAccuBytesOfPrint`, `mLastTimeOfPrint`).

The project has three modules:

- `Ring` (ring.dfy) covers the index arithmetic:
  - powers of two and the C++ `&` operator on unsigned values;
  - the proof that `x & (2^e - 1)` is `x % 2^e`;
  - the sized constructor's exponent loop.
- `RecorderState` (recorder_state.dfy) is the whole recorder state as a value. `Init`,
  `Write`, `Read` and `Report` are functions on it. `Live` is the view of the
  retained samples, oldest first. It holds the slots strictly after the head, up to
  and including the tail. The head slot is a sentinel that no read ever sums, so at
  most `mSize - 1` samples are retained. The lemmas say what each operation does to
  that view.
- `Recorder` (recorder.dfy) is the class itself. It has two arrays updated in place,
  the two indices and the three counters. `Init`, `ReadBytesForLastPeriod`,
  `WriteBytes` and `PrintAccuBitsForLastPeriod` are each proved to take the
  recorder's state `Model()` to the result of the matching `RecorderState`
  function. `UpdateClock` is proved to change only the clock. The constructor is
  proved to size the store and to leave the fields as `init()` does.
  `readBytesForLastPeriod` stays a `while` loop stepping with
  `(i + mSize - 1) & mSizeMask`, and its invariant ties the loop to `Read`.

Some behaviour of the code is worth knowing:

- **A read is destructive.** It moves the head to the slot where its backward walk
  stopped, which drops every older sample for good. The first read therefore
  decides what every later read at the same clock can see.
- **A write at clock 0 straight after `init()` makes stale slots live.**
  - `init()` stamps slot 0 with time 0 and leaves the clock alone.
  - With the clock at 0, the next write coalesces into slot 0. Slot 0 is also the
    head, so the "size exceeded" branch moves the head past the tail.
  - Every other slot of the array then counts as a live sample, including slots that
    were never written.
  - `InitThenWriteAtZero` and `StaleSlotsCounted` show this. In the
    `StaleSlotsCounted` run, with a signed `Time`, a 100-byte write reads back as
    118.
  - `WriteKeepsHealthy` and `InitHealthyOnceClockAdvances` show that the ordering
    invariant `Healthy` rules this out once the clock has moved past the value in
    the sentinel slot.
- **A short read also evicts samples that a longer read would have kept.** Take
  samples at 0, 10, 20 and 30 (5 bytes each) with the clock at 30, and a signed
  `Time`. A 5-unit read has cutoff 25, so it evicts the sample at 20 as well as the
  older ones. A 100-unit read that follows returns 5 (`EvictionExample`).

## Model

All source cells refer to media/libstagefright/rtsp/TrafficRecorder.h.

| member | source | states |
|---|---|---|
| Ring.SizeExponent | media/libstagefright/rtsp/TrafficRecorder.h:62-67 | The exponent loop yields the smallest `exp` with `size <= 2^exp` when `size <= 2^32`, and 32 otherwise; never more than 32. |
| Ring.CeilExpUnique | media/libstagefright/rtsp/TrafficRecorder.h:62-68 | The smallest power of two at or above a size is unique, so the capacity is determined by the requested size. |
| Ring.CapacityExamples | media/libstagefright/rtsp/TrafficRecorder.h:62-68 | Requested sizes 0, 5, 128 and 129 give capacities 1, 8, 128 and 256. |
| Ring.BitAnd | media/libstagefright/rtsp/TrafficRecorder.h:108 | The C++ `&` on unsigned values, bit by bit; the result is at most either operand. |
| Ring.MaskIsMod | media/libstagefright/rtsp/TrafficRecorder.h:68-69 | With `mSize = 2^exp` and `mSizeMask = mSize - 1`, `x & mSizeMask` equals `x % mSize` for every x. |
| Recorder.TrafficRecorder.constructor | media/libstagefright/rtsp/TrafficRecorder.h:60-76 | The capacity is the smallest power of two at or above the request (2^32 beyond that), the mask is one less, the arrays are new, and the state is that of `init()` with clock, report time and total at 0; slots other than 0 are left arbitrary. |
| Recorder.TrafficRecorder.Init | media/libstagefright/rtsp/TrafficRecorder.h:84-90 | The new state is `RecorderState.Init` of the old one: both indices 0, slot 0 holds time 0 and no bytes, nothing else changes. |
| Recorder.TrafficRecorder.UpdateClock | media/libstagefright/rtsp/TrafficRecorder.h:92-95 | Only the clock changes, to `now`. |
| Recorder.TrafficRecorder.ReadBytesForLastPeriod | media/libstagefright/rtsp/TrafficRecorder.h:97-112 | The returned total and the new state are exactly `RecorderState.Read` of the old state; only the head changes. |
| Recorder.TrafficRecorder.WriteBytes | media/libstagefright/rtsp/TrafficRecorder.h:114-134 | The new state is exactly `RecorderState.Write` of the old state, with the head step done by `& mSizeMask`. |
| Recorder.TrafficRecorder.PrintAccuBitsForLastPeriod | media/libstagefright/rtsp/TrafficRecorder.h:136-147 | The new state is exactly `RecorderState.Report` of the old state. |
| RecorderState.Init | media/libstagefright/rtsp/TrafficRecorder.h:84-90 | After init the store is empty (no live sample), both indices are 0, slot 0 is (0, 0), and clock, report time and total are unchanged. |
| RecorderState.Count | media/libstagefright/rtsp/TrafficRecorder.h:127-132 | The number of live samples is always below `mSize`: at most `mSize - 1` samples are retained. |
| RecorderState.Live | media/libstagefright/rtsp/TrafficRecorder.h:101-109 | The retained samples are the slots strictly after the head up to and including the tail, oldest first; there are Count of them, fewer than `mSize`. |
| RecorderState.Read | media/libstagefright/rtsp/TrafficRecorder.h:97-112 | A read changes only the head index; the arrays, tail, clock, report time and total are unchanged. |
| RecorderState.Write | media/libstagefright/rtsp/TrafficRecorder.h:114-134 | After a write the tail slot carries the current clock, the report total grew by the bytes written, and clock and report time are unchanged. |
| RecorderState.Report | media/libstagefright/rtsp/TrafficRecorder.h:136-147 | When more than `period` has passed since the last report, the report time becomes the clock, the total 0 and the store empty with both indices 0; otherwise the state is unchanged. |
| RecorderState.WalkStep | media/libstagefright/rtsp/TrafficRecorder.h:101-109 | The backward walk starts on the tail, visits the live samples newest first, steps one slot back round the ring, and reaches the head exactly after as many steps as there are live samples, which bounds the loop. |
| RecorderState.MaskedStepBack | media/libstagefright/rtsp/TrafficRecorder.h:108 | `(i + mSize - 1) & mSizeMask` moves the walk exactly one slot back. |
| RecorderState.WalkOn | media/libstagefright/rtsp/TrafficRecorder.h:102-108 | A step from a slot that is not the head and not older than `clock - period` adds that slot's bytes and keeps the loop invariant: the samples walked over are all in the window and the total is their sum. |
| RecorderState.WalkDone | media/libstagefright/rtsp/TrafficRecorder.h:102-111 | When the walk stops on the head or on an older slot, the total and the state with the head on the stopping slot are exactly `Read`'s result. |
| RecorderState.KeptSpec | media/libstagefright/rtsp/TrafficRecorder.h:102-106 | The run of newest samples a read keeps are all at or after the cutoff, and the sample just before the run, if any, is older: the run is maximal. |
| RecorderState.KeptUnique | media/libstagefright/rtsp/TrafficRecorder.h:102-106 | Any run length with those two properties is the one the walk finds. |
| RecorderState.ReadEvicts | media/libstagefright/rtsp/TrafficRecorder.h:97-112 | A read returns the sum of the maximal run of newest samples at or after `clock - period`, keeps exactly those live, and drops every older one. |
| RecorderState.ReadEmpty | media/libstagefright/rtsp/TrafficRecorder.h:101-111 | With head == tail (as after init) a read returns 0 and changes nothing. |
| RecorderState.ReadSizeOne | media/libstagefright/rtsp/TrafficRecorder.h:101-111 | With a one-slot store every read returns 0 and changes nothing. |
| RecorderState.ReadKeepsAll | media/libstagefright/rtsp/TrafficRecorder.h:102-110 | A read whose walk reaches the head returns the sum of all live samples and leaves the state unchanged. |
| RecorderState.ReadAgain | media/libstagefright/rtsp/TrafficRecorder.h:102-110 | After a read over p1, a read at the same clock over any p2 >= p1 returns the same total and leaves the head where it is. |
| RecorderState.ReadIdempotent | media/libstagefright/rtsp/TrafficRecorder.h:102-110 | Repeating a read gives the same total and the same state. |
| RecorderState.LiveAdvance | media/libstagefright/rtsp/TrafficRecorder.h:127-130 | Moving the head forward by d slots drops exactly the d oldest live samples and keeps the rest in order. |
| RecorderState.WriteHeadMasked | media/libstagefright/rtsp/TrafficRecorder.h:127-130 | When the written slot is the head, the head moves to `(head + 1) & mSizeMask`; otherwise it stays. |
| RecorderState.WriteCoalesces | media/libstagefright/rtsp/TrafficRecorder.h:117-119 | When the tail carries the clock and the store is not empty, the newest sample's bytes grow by b, no sample is added, and the live total grows by b. |
| RecorderState.WriteAppends | media/libstagefright/rtsp/TrafficRecorder.h:120-124 | When the tail is older than the clock and the next slot is not the head, the sample (clock, b) is appended at `(tail + 1) % mSize` and the live total grows by b. |
| RecorderState.WriteOverflowDropsOldest | media/libstagefright/rtsp/TrafficRecorder.h:120-130 | When the next slot is the head, the store holds `mSize - 1` samples; the new sample overwrites the head slot, the head moves on one, the oldest sample is dropped and its bytes leave the live total. |
| RecorderState.WriteAtSentinel | media/libstagefright/rtsp/TrafficRecorder.h:117-132 | A coalescing write while tail == head adds to the sentinel slot, moves the head past the tail, and makes every other slot of the array live, whatever it holds. |
| RecorderState.WriteTwiceSameClock | media/libstagefright/rtsp/TrafficRecorder.h:117-133 | In every state, two writes at one clock value act as one write of their sum: the first stamps the tail with the clock, so the second coalesces into it. |
| RecorderState.InitThenWriteAtZero | media/libstagefright/rtsp/TrafficRecorder.h:117-132 | After init, a write at clock 0 leaves head 1 and tail 0, so `mSize - 1` slots are live, `mSize - 2` of them never written since init. |
| RecorderState.StaleSlotsCounted | media/libstagefright/rtsp/TrafficRecorder.h:117-132 | With a signed `Time`, in a four-slot store holding stale samples, a 100-byte write at clock 0 after init reads back as 118. |
| RecorderState.Healthy | media/libstagefright/rtsp/TrafficRecorder.h:114-134 | The invariant the operations are proved to keep: live samples strictly increasing in time (one per clock value) and none later than the clock, an empty store's sentinel older than the clock, and a last report time between 0 and the clock. |
| RecorderState.LastIsTail | media/libstagefright/rtsp/TrafficRecorder.h:101 | In a non-empty store the newest live sample is the tail slot. |
| RecorderState.TailNotAfter | media/libstagefright/rtsp/TrafficRecorder.h:117 | In a healthy store of two or more slots the tail slot is not later than the clock and, when anything is live, it is the newest sample. |
| RecorderState.UpdateClockKeepsHealthy | media/libstagefright/rtsp/TrafficRecorder.h:92-95 | Moving the clock forward keeps the samples ordered and none later than the clock. |
| RecorderState.CoalesceKeepsHealthy | media/libstagefright/rtsp/TrafficRecorder.h:117-119 | Coalescing into the tail keeps the store healthy. |
| RecorderState.AppendKeepsHealthy | media/libstagefright/rtsp/TrafficRecorder.h:120-124 | Appending a new sample keeps the store healthy. |
| RecorderState.OverflowKeepsHealthy | media/libstagefright/rtsp/TrafficRecorder.h:120-130 | Overwriting the oldest sample keeps the store healthy. |
| RecorderState.WriteKeepsHealthy | media/libstagefright/rtsp/TrafficRecorder.h:114-134 | Every write keeps the samples strictly increasing in time, none later than the clock, and the sentinel older than the clock when the store is empty. |
| RecorderState.ReadKeepsHealthy | media/libstagefright/rtsp/TrafficRecorder.h:97-112 | A read over a non-negative period keeps the store healthy. |
| RecorderState.ReportKeepsHealthy | media/libstagefright/rtsp/TrafficRecorder.h:136-147 | A report keeps the store healthy, and after a reset every read returns 0. |
| RecorderState.InitHealthyOnceClockAdvances | media/libstagefright/rtsp/TrafficRecorder.h:84-90 | A freshly initialised store is healthy as soon as the clock is past 0. |
| RecorderState.WindowExample | media/libstagefright/rtsp/TrafficRecorder.h:97-112 | With a signed `Time`, samples at 0, 10, 20, 30 of 5 bytes each and the clock at 30: a 15-unit read returns 10 and a 100-unit read returns 20. |
| RecorderState.EvictionExample | media/libstagefright/rtsp/TrafficRecorder.h:97-112 | On the same samples, with a signed `Time`, a 5-unit read returns 5, and a following 100-unit read at the same clock also returns 5. |

## Left out

- `Time` and `Bytes` are unbounded integers. With an unsigned `Time`, `mClock - period` wraps when the period exceeds the clock. Sums of bytes can also overflow a fixed width. Neither is modelled.
- The requested size is an unbounded natural. A request above 2^32 gives a capacity of 2^32, as `1ul << 32` does on a 64-bit `unsigned long`. The allocation of such arrays is not modelled.
- The rate that `printAccuBitsForLastPeriod` logs is float arithmetic and is left out, and so is every log line. Only the state reset is modelled. The `unit` parameter is kept but unused, since only the logged rate uses it.
- The default constructor is left out. It builds a temporary `TrafficRecorder(128)` and leaves the object itself uninitialised.
- `RefBase` reference counting, `new[]`/`delete[]` and the destructor are left out. Dafny arrays stand in for the two buffers.
- The recorder is not thread-safe and is modelled single-threaded.
