/**
 * A timer entry (`internalEntry`, wheel.go:21-32) and what one firing does to
 * it in the drain loop of `runWork` (wheel.go:224-236).
 */
module Jobs {
  import opened Ticks

  /** Identity of a timer element (`*Element`); the entry's record is looked up by it. */
  type EntryId = nat

  /**
   * `next`: deadline tick; `count`: firings done; `number`: firings wanted,
   * 0 meaning forever; `interval`: nanoseconds between firings. The job
   * itself is not part of the model: a firing is recorded by identity.
   */
  datatype Entry = Entry(next: U32, count: U32, number: U32, interval: Int64)

  /** The entry is put back on the wheel after its latest firing (wheel.go:229). */
  predicate Continues(e: Entry)
  {
    e.number == 0 || e.count < e.number
  }

  /**
   * One pass of the drain loop over an entry (wheel.go:228-232): the count
   * goes up by one (as a `uint32`), and if the entry continues its deadline
   * is recomputed from the wake-up instant `nano`.
   */
  function Fire(e: Entry, nano: Int64, granularity: Int64): Entry
    requires granularity > 0
  {
    var counted := e.(count := Inc32(e.count));
    if Continues(counted) then counted.(next := NextTimeout(nano, e.interval, granularity))
    else counted
  }

  /** The entry after one firing at each wake-up instant of `nanos`, in order. */
  function FireSeq(e: Entry, nanos: seq<Int64>, granularity: Int64): Entry
    requires granularity > 0
    decreases |nanos|
  {
    if nanos == [] then e else FireSeq(Fire(e, nanos[0], granularity), nanos[1..], granularity)
  }

  /**
   * Firings only count: as long as the counter does not wrap, after `k`
   * firings the count is `k` higher and the repeat policy and the interval
   * are those the entry started with.
   */
  lemma {:induction false} FireSeqCounts(e: Entry, nanos: seq<Int64>, granularity: Int64)
    requires granularity > 0
    requires e.count + |nanos| < TwoTo32
    ensures FireSeq(e, nanos, granularity).count == e.count + |nanos|
    ensures FireSeq(e, nanos, granularity).number == e.number
    ensures FireSeq(e, nanos, granularity).interval == e.interval
    decreases |nanos|
  {
    if nanos != [] {
      FireSeqCounts(Fire(e, nanos[0], granularity), nanos[1..], granularity);
    }
  }

  /**
   * An entry with `number == N > 0` whose count was reset to 0 (by `Start`
   * or by creation) is put back after each of its first N - 1 firings and
   * dropped after the N-th, whatever the wake-up instants are: it runs
   * exactly N times.
   */
  lemma RunsNumberTimes(e: Entry, nanos: seq<Int64>, granularity: Int64)
    requires granularity > 0
    requires e.count == 0 && e.number > 0 && |nanos| == e.number
    ensures forall k :: 1 <= k < |nanos| ==> Continues(FireSeq(e, nanos[..k], granularity))
    ensures !Continues(FireSeq(e, nanos, granularity))
  {
    forall k | 1 <= k < |nanos|
      ensures Continues(FireSeq(e, nanos[..k], granularity))
    {
      FireSeqCounts(e, nanos[..k], granularity);
    }
    FireSeqCounts(e, nanos, granularity);
  }

  /** An entry with `number == 0` is put back after every firing, however many. */
  lemma {:induction false} PersistNeverDropped(e: Entry, nanos: seq<Int64>, granularity: Int64)
    requires granularity > 0
    requires e.number == 0
    ensures Continues(FireSeq(e, nanos, granularity))
    ensures FireSeq(e, nanos, granularity).number == 0
    decreases |nanos|
  {
    if nanos != [] {
      PersistNeverDropped(Fire(e, nanos[0], granularity), nanos[1..], granularity);
    }
  }
}
