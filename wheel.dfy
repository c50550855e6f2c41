/**
 * The timing wheel (`Wheel`, wheel.go:43-53) and its operations: building a
 * wheel, creating and adding jobs, (re)starting and deleting them, counting
 * them, placing an entry on a spoke, cascading, and the body of one wake-up
 * of the worker (advance the ticks, then fire every due entry).
 *
 * The wall clock is a parameter (`nowNano`, `nano`), and running a job is
 * recorded in the ghost log `fired`. The worker goroutine, its timer, the
 * lock and the stop channel are not part of this model.
 */
module Timing {
  import opened Ticks
  import opened Slots
  import opened Jobs
  import opened Buckets

  /** The elements of `ids` that `addTimer` puts back on spoke `s` when the wheel stands at `cur`. */
  function Returning(ids: seq<EntryId>, entries: map<EntryId, Entry>, cur: U32, s: nat): seq<EntryId>
  {
    if ids == [] then []
    else
      var last := ids[|ids| - 1];
      Returning(ids[..|ids| - 1], entries, cur, s)
        + (if last in entries && PlaceSpoke(entries[last].next, cur) == s then [last] else [])
  }

  lemma ReturningStep(ids: seq<EntryId>, k: nat, entries: map<EntryId, Entry>, cur: U32, s: nat)
    requires k < |ids|
    ensures Returning(ids[..k + 1], entries, cur, s) ==
            Returning(ids[..k], entries, cur, s) +
              (if ids[k] in entries && PlaceSpoke(entries[ids[k]].next, cur) == s then [ids[k]] else [])
  {
    assert ids[..k + 1][..k] == ids[..k];
  }

  /** `Returning` keeps exactly the elements that `addTimer` sends back to spoke `s`. */
  lemma {:induction false} ReturningMembers(ids: seq<EntryId>, entries: map<EntryId, Entry>, cur: U32, s: nat)
    ensures forall x :: x in Returning(ids, entries, cur, s) <==>
              x in ids && x in entries && PlaceSpoke(entries[x].next, cur) == s
    decreases |ids|
  {
    if ids != [] {
      var init := ids[..|ids| - 1];
      ReturningMembers(init, entries, cur, s);
      assert ids == init + [ids[|ids| - 1]];
    }
  }

  /** How many of `ids` one firing at `nano` leaves on the wheel. */
  function Survivors(ids: seq<EntryId>, entries: map<EntryId, Entry>, nano: Int64, granularity: Int64): (n: nat)
    requires granularity > 0
    ensures n <= |ids|
  {
    if ids == [] then 0
    else
      var last := ids[|ids| - 1];
      Survivors(ids[..|ids| - 1], entries, nano, granularity)
        + (if last in entries && Continues(Fire(entries[last], nano, granularity)) then 1 else 0)
  }

  /**
   * The spokes after the drain loop of `cascade` has handled the first `k`
   * entries of spoke `s`: the unhandled ones are still at the front of
   * spoke `s`, and every handled one went, in order, onto the back of the
   * spoke `addTimer` places it on (wheel.go:252).
   */
  function DrainedPart(sp: seq<seq<EntryId>>, s: nat, k: nat, entries: map<EntryId, Entry>, cur: U32): (r: seq<seq<EntryId>>)
    requires s < |sp| && k <= |sp[s]|
    ensures |r| == |sp|
  {
    seq(|sp|, p requires 0 <= p < |sp| =>
      if p == s then sp[s][k..] + Returning(sp[s][..k], entries, cur, s)
      else sp[p] + Returning(sp[s][..k], entries, cur, p))
  }

  /**
   * The spokes after one drain of spoke `s` at tick `cur` (wheel.go:251-253)
   * over the entries it holds: each goes, in order, onto the back of the
   * spoke `addTimer` places it on, so spoke `s` keeps only those placed back
   * on it.
   */
  function Drained(sp: seq<seq<EntryId>>, s: nat, entries: map<EntryId, Entry>, cur: U32): (r: seq<seq<EntryId>>)
    requires s < |sp|
    ensures |r| == |sp|
  {
    seq(|sp|, p requires 0 <= p < |sp| =>
      if p == s then Returning(sp[s], entries, cur, s)
      else sp[p] + Returning(sp[s], entries, cur, p))
  }

  lemma DrainedPartFront(sp: seq<seq<EntryId>>, s: nat, k: nat, entries: map<EntryId, Entry>, cur: U32)
    requires s < |sp| && k < |sp[s]|
    ensures DrainedPart(sp, s, k, entries, cur)[s] != []
    ensures DrainedPart(sp, s, k, entries, cur)[s][0] == sp[s][k]
  {
  }

  /** Popping the front of spoke `s` and pushing it where `addTimer` places it handles one more entry. */
  lemma DrainedPartStep(sp0: seq<seq<EntryId>>, s: nat, k: nat, entries: map<EntryId, Entry>, cur: U32, sp: seq<seq<EntryId>>)
    requires |sp0| == SpokeCount && s < SpokeCount && k < |sp0[s]| && sp0[s][k] in entries
    requires sp == DrainedPart(sp0, s, k, entries, cur)
    ensures var e := sp0[s][k];
            var p := PlaceSpoke(entries[e].next, cur);
            var popped := sp[s := sp[s][1..]];
            popped[p := popped[p] + [e]] == DrainedPart(sp0, s, k + 1, entries, cur)
  {
    var e := sp0[s][k];
    var p := PlaceSpoke(entries[e].next, cur);
    var popped := sp[s := sp[s][1..]];
    var pushed := popped[p := popped[p] + [e]];
    var next := DrainedPart(sp0, s, k + 1, entries, cur);
    forall q | 0 <= q < |sp0|
      ensures pushed[q] == next[q]
    {
      DrainedPartAt(sp0, s, k, entries, cur, q);
    }
  }

  /** Spoke `q` after one more entry of spoke `s` is handled. */
  lemma DrainedPartAt(sp0: seq<seq<EntryId>>, s: nat, k: nat, entries: map<EntryId, Entry>, cur: U32, q: nat)
    requires |sp0| == SpokeCount && s < SpokeCount && k < |sp0[s]| && sp0[s][k] in entries && q < SpokeCount
    ensures var sp := DrainedPart(sp0, s, k, entries, cur);
            var e := sp0[s][k];
            var added := if PlaceSpoke(entries[e].next, cur) == q then [e] else [];
            DrainedPart(sp0, s, k + 1, entries, cur)[q] == (if q == s then sp[q][1..] else sp[q]) + added
  {
    var orig := sp0[s];
    ReturningStep(orig, k, entries, cur, q);
    if q == s {
      assert orig[k..][1..] == orig[k + 1..];
    }
  }

  lemma DrainedPartStart(sp: seq<seq<EntryId>>, s: nat, entries: map<EntryId, Entry>, cur: U32)
    requires s < |sp|
    ensures DrainedPart(sp, s, 0, entries, cur) == sp
  {
    assert sp[s][..0] == [];
    assert sp[s][0..] == sp[s];
    var a := DrainedPart(sp, s, 0, entries, cur);
    forall q | 0 <= q < |sp|
      ensures a[q] == sp[q]
    {
    }
  }

  lemma DrainedPartDone(sp: seq<seq<EntryId>>, s: nat, entries: map<EntryId, Entry>, cur: U32)
    requires s < |sp|
    ensures DrainedPart(sp, s, |sp[s]|, entries, cur) == Drained(sp, s, entries, cur)
  {
    assert sp[s][..|sp[s]|] == sp[s];
    assert sp[s][|sp[s]|..] == [];
    var a := DrainedPart(sp, s, |sp[s]|, entries, cur);
    var b := Drained(sp, s, entries, cur);
    forall q | 0 <= q < |sp|
      ensures a[q] == b[q]
    {
    }
  }

  /**
   * The back-pointers after the drain loop of `cascade` has handled the
   * first `k` of the entries `orig` that spoke `s` held: every handled
   * entry, collected in `done`, is where `addTimer` places it; every other
   * entry is where it was before the drain.
   */
  ghost predicate Redrained(home0: map<EntryId, Home>, home: map<EntryId, Home>,
                            orig: seq<EntryId>, k: nat, done: set<EntryId>, s: nat,
                            entries: map<EntryId, Entry>, cur: U32)
  {
    k <= |orig| && home.Keys == home0.Keys &&
    (forall j :: 0 <= j < k ==>
       orig[j] in done && orig[j] in home && orig[j] in entries &&
       home[orig[j]] == InSpoke(PlaceSpoke(entries[orig[j]].next, cur))) &&
    (forall e :: e in done ==> e in home0 && home0[e] == InSpoke(s)) &&
    (forall e :: e in home0 && e !in done ==> home[e] == home0[e])
  }

  lemma RedrainedStep(home0: map<EntryId, Home>, before: map<EntryId, Home>, after: map<EntryId, Home>,
                      orig: seq<EntryId>, k: nat, done: set<EntryId>, s: nat, entries: map<EntryId, Entry>, cur: U32)
    requires Redrained(home0, before, orig, k, done, s, entries, cur)
    requires NoDup(orig) && k < |orig| && orig[k] in entries
    requires orig[k] in home0 && home0[orig[k]] == InSpoke(s)
    requires after == before[orig[k] := InSpoke(PlaceSpoke(entries[orig[k]].next, cur))]
    ensures Redrained(home0, after, orig, k + 1, done + {orig[k]}, s, entries, cur)
  {
    forall j | 0 <= j < k
      ensures orig[j] != orig[k]
    {
    }
  }

  lemma RedrainedDone(home0: map<EntryId, Home>, home: map<EntryId, Home>,
                      orig: seq<EntryId>, done: set<EntryId>, s: nat, entries: map<EntryId, Entry>, cur: U32)
    requires Redrained(home0, home, orig, |orig|, done, s, entries, cur)
    requires forall e :: e in home0 && home0[e] == InSpoke(s) ==> e in orig
    ensures home.Keys == home0.Keys
    ensures forall e :: e in home0 ==>
              if home0[e] == InSpoke(s) then home[e] == InSpoke(PlaceSpoke(entries[e].next, cur))
              else home[e] == home0[e]
  {
    forall e | e in home0 && home0[e] == InSpoke(s)
      ensures home[e] == InSpoke(PlaceSpoke(entries[e].next, cur))
    {
      var j :| 0 <= j < |orig| && orig[j] == e;
    }
  }

  /**
   * Spoke `i` is one of those that a cascade at tick `t` drains among its
   * first `upto` levels, when level `L`'s index is read at bit offset
   * `8 + L * perLevel` (`cascade` as written reads it with `perLevel == NNum`).
   */
  ghost predicate DrainedBy(t: U32, i: nat, upto: nat, perLevel: nat)
  {
    exists level :: 0 <= level < upto && level < NNum && i == CascadeSpoke(t, level, perLevel)
  }

  lemma DrainedByNext(t: U32, i: nat, level: nat)
    requires level < NNum
    ensures DrainedBy(t, i, level + 1, NNum) <==> DrainedBy(t, i, level, NNum) || i == CascadeSpoke(t, level, NNum)
  {
    if i == CascadeSpoke(t, level, NNum) {
      assert 0 <= level < level + 1 && i == CascadeSpoke(t, level, NNum);
    }
  }

  /**
   * The back-pointers after `cascade` at tick `t` has drained its first
   * `level` spokes without spinning: the entries that sat on one of them
   * are where `addTimer` places them, which is another spoke, and every
   * other entry is where it was.
   */
  ghost predicate Cascaded(home0: map<EntryId, Home>, home: map<EntryId, Home>, t: U32, level: nat,
                           entries: map<EntryId, Entry>)
  {
    home.Keys == home0.Keys && home0.Keys <= entries.Keys &&
    forall e :: e in home0 ==>
      if home0[e].InSpoke? && DrainedBy(t, home0[e].index, level, NNum)
      then home[e] == InSpoke(PlaceSpoke(entries[e].next, t)) && PlaceSpoke(entries[e].next, t) != home0[e].index
      else home[e] == home0[e]
  }

  lemma CascadedStep(home0: map<EntryId, Home>, before: map<EntryId, Home>, after: map<EntryId, Home>,
                     t: U32, level: nat, entries: map<EntryId, Entry>)
    requires level < NNum && Cascaded(home0, before, t, level, entries)
    requires after.Keys == before.Keys
    requires forall e :: e in before ==>
               if before[e] == InSpoke(CascadeSpoke(t, level, NNum)) then after[e] == InSpoke(PlaceSpoke(entries[e].next, t))
               else after[e] == before[e]
    requires forall e :: e in after ==> after[e] != InSpoke(CascadeSpoke(t, level, NNum))
    ensures Cascaded(home0, after, t, level + 1, entries)
  {
    forall e | e in home0
      ensures if home0[e].InSpoke? && DrainedBy(t, home0[e].index, level + 1, NNum)
              then after[e] == InSpoke(PlaceSpoke(entries[e].next, t)) && PlaceSpoke(entries[e].next, t) != home0[e].index
              else after[e] == home0[e]
    {
      if home0[e].InSpoke? {
        var i := home0[e].index;
        DrainedByNext(t, i, level);
        if DrainedBy(t, i, level, NNum) {
          assert before[e] == InSpoke(PlaceSpoke(entries[e].next, t));
        } else if i == CascadeSpoke(t, level, NNum) {
          assert before[e] == InSpoke(CascadeSpoke(t, level, NNum));
        } else {
          assert before[e] == home0[e];
        }
      } else {
        assert before[e] == home0[e];
      }
    }
  }

  /**
   * `Slots.CorrectedCascadeCollects` in terms of `DrainedBy`: with the level
   * offset corrected to `8 + 6 * level`, an entry that `addTimer` put on a
   * cascade level when the wheel stood at `cur` is on a spoke that the
   * cascade drains at some tick `t` after `cur` and not after the entry's
   * deadline.
   */
  lemma CascadeCollectsPlaced(next: U32, cur: U32) returns (t: U32)
    requires Sub32(next, cur) >= RSize
    ensures 0 < Sub32(t, cur) <= Sub32(next, cur) && MainIndex(t) == 0
    ensures DrainedBy(t, PlaceSpoke(next, cur), CascadeDepth(t, NBits), NBits)
  {
    t := CorrectedCascadeCollects(next, cur);
    var level := PlaceLevel(Sub32(next, cur));
    assert 0 <= level < CascadeDepth(t, NBits) && level < NNum && PlaceSpoke(next, cur) == CascadeSpoke(t, level, NBits);
  }

  /**
   * With the level offset as written, a wheel at tick 0x4000 whose spoke 324
   * holds only an entry due at tick 0x10000 (where `addTimer` put it at tick
   * 0) drains spoke 324, and that spoke spins: `addTimer` places the entry
   * back on it, whatever the drain of level 0 added to it first. So the
   * cascade at that tick never returns (`CascadeSpins`), and
   * `AsWrittenCascadeReturnsStuck` shows `Wheel.Cascade` reporting it.
   */
  lemma AsWrittenCascadeStuck(w: Wheel, e: EntryId)
    requires w.spokes.Length == SpokeCount && w.curTick == 0x4000
    requires e in w.entries && w.entries[e].next == 0x1_0000 && w.spokes[324] == [e]
    ensures PlaceSpoke(w.entries[e].next, 0) == 324
    ensures DrainedBy(w.curTick, 324, CascadeDepth(w.curTick, NNum), NNum)
    ensures w.Spins(324)
    ensures CascadeSpins(w.spokes[..], w.entries, w.curTick)
  {
    AsWrittenCascadeSpins();
    assert 0 <= 1 < CascadeDepth(0x4000, NNum) && 1 < NNum && 324 == CascadeSpoke(0x4000, 1, NNum);
    forall x | x in w.spokes[324]
      ensures x in w.entries && PlaceSpoke(w.entries[x].next, w.curTick) == 324
    {
      assert x == e;
    }
    Spoke324Spins(w.spokes[..], w.entries, e);
  }

  /** At tick 0x4000, an entry alone on spoke 324 that `addTimer` places back there makes the cascade spin. */
  lemma Spoke324Spins(sp: seq<seq<EntryId>>, entries: map<EntryId, Entry>, e: EntryId)
    requires |sp| == SpokeCount && sp[324] == [e]
    requires e in entries && PlaceSpoke(entries[e].next, 0x4000) == 324
    ensures CascadeSpins(sp, entries, 0x4000)
  {
    CascadeAt0x4000();
    if !LevelSpins(sp, entries, 0x4000, 0) {
      var s0 := CascadeSpoke(0x4000, 0, NNum);
      CascadeUpToNext(sp, entries, 0x4000, 0);
      var mid := CascadeUpTo(sp, entries, 0x4000, 1);
      assert mid[324] == [e] + Returning(sp[s0], entries, 0x4000, 324);
      ReturningMembers(mid[324], entries, 0x4000, 324);
      assert e in Returning(mid[324], entries, 0x4000, 324);
      assert LevelSpins(sp, entries, 0x4000, 1);
    }
  }

  /** Main slot `i` is emptied into `doNow` by one of the `n` ticks after `start` (wheel.go:215-222). */
  ghost predicate Passed(start: U32, n: nat, i: nat)
  {
    exists k :: 1 <= k <= n && MainIndex(Later(start, k)) == i
  }

  lemma PassedNext(start: U32, n: nat, i: nat)
    ensures Passed(start, n + 1, i) <==> Passed(start, n, i) || i == MainIndex(Later(start, n + 1))
  {
    if i == MainIndex(Later(start, n + 1)) {
      assert 1 <= n + 1 <= n + 1 && MainIndex(Later(start, n + 1)) == i;
    }
  }

  /**
   * An entry less than 256 ticks ahead of `start` sits in a main slot that
   * the tick loop empties once the wheel has advanced to its deadline.
   */
  lemma DeadlinePassed(next: U32, start: U32, n: nat)
    requires 0 < Sub32(next, start) < RSize && Sub32(next, start) <= n
    ensures PlaceSpoke(next, start) < RSize
    ensures Passed(start, n, PlaceSpoke(next, start))
  {
    MainSlotReachedAtDeadline(next, start);
    var k := Sub32(next, start);
    assert MainIndex(Later(start, k)) == PlaceSpoke(next, start);
  }

  /** The spokes `cascade` drains are all on the cascade levels, never main slots. */
  lemma DrainedNotMain(t: U32, i: nat, upto: nat)
    requires DrainedBy(t, i, upto, NNum)
    ensures i >= RSize
  {
  }

  /**
   * The back-pointers after the tick loop has advanced `n` ticks from
   * `start`: every entry that was on `doNow` or on a main slot the loop has
   * passed is on `doNow`, and every entry on a main slot not yet passed is
   * still there.
   */
  ghost predicate Swept(home0: map<EntryId, Home>, home: map<EntryId, Home>, start: U32, n: nat)
  {
    home.Keys == home0.Keys &&
    forall e :: e in home0 ==>
      (home0[e] == InDoNow ==> home[e] == InDoNow) &&
      (home0[e].InSpoke? && home0[e].index < RSize ==>
         if Passed(start, n, home0[e].index) then home[e] == InDoNow else home[e] == home0[e])
  }

  /** The list `spoke` is not empty and every entry on it places back onto spoke `s`. */
  ghost predicate SpinsOn(spoke: seq<EntryId>, entries: map<EntryId, Entry>, cur: U32, s: nat)
  {
    spoke != [] && forall x :: x in spoke ==> x in entries && PlaceSpoke(entries[x].next, cur) == s
  }

  /** What is left after one drain of spoke `s` spins exactly when it is not empty. */
  lemma ReturningSpins(ids: seq<EntryId>, entries: map<EntryId, Entry>, cur: U32, s: nat)
    ensures SpinsOn(Returning(ids, entries, cur, s), entries, cur, s) <==> Returning(ids, entries, cur, s) != []
  {
    ReturningMembers(ids, entries, cur, s);
  }

  /** Every back-pointer that names `doNow` or a main slot is the same in `after`. */
  ghost predicate MainKept(before: map<EntryId, Home>, after: map<EntryId, Home>)
  {
    after.Keys == before.Keys &&
    forall e :: e in before && (before[e] == InDoNow || (before[e].InSpoke? && before[e].index < RSize)) ==>
      after[e] == before[e]
  }

  /**
   * The back-pointers after one tick to `t`: main slot `MainIndex(t)` has
   * moved onto `doNow`, and every other main slot and `doNow` itself kept
   * their entries.
   */
  ghost predicate Ticked(before: map<EntryId, Home>, after: map<EntryId, Home>, t: U32)
  {
    after.Keys == before.Keys &&
    forall e :: e in before ==>
      (before[e] == InDoNow ==> after[e] == InDoNow) &&
      (before[e].InSpoke? && before[e].index < RSize ==>
         after[e] == if before[e].index == MainIndex(t) then InDoNow else before[e])
  }

  /**
   * The back-pointers after `cascade` at tick `t` (wheel.go:247-258): an
   * entry on one of the spokes it drains is where `addTimer` places it now,
   * every other entry has not moved.
   */
  ghost function Recascaded(home: map<EntryId, Home>, entries: map<EntryId, Entry>, t: U32): (r: map<EntryId, Home>)
    ensures r.Keys == home.Keys
  {
    map e | e in home ::
      if e in entries && home[e].InSpoke? && DrainedBy(t, home[e].index, CascadeDepth(t, NNum), NNum)
      then InSpoke(PlaceSpoke(entries[e].next, t))
      else home[e]
  }

  lemma CascadedDone(home0: map<EntryId, Home>, home: map<EntryId, Home>, t: U32, entries: map<EntryId, Entry>)
    requires Cascaded(home0, home, t, CascadeDepth(t, NNum), entries)
    ensures home == Recascaded(home0, entries, t)
  {
  }

  /** A cascade at `t` moves only entries of cascade-level spokes. */
  lemma CascadeKeepsMain(home: map<EntryId, Home>, entries: map<EntryId, Entry>, t: U32)
    ensures MainKept(home, Recascaded(home, entries, t))
  {
    forall e | e in home && home[e].InSpoke? && home[e].index < RSize
      ensures Recascaded(home, entries, t)[e] == home[e]
    {
      if DrainedBy(t, home[e].index, CascadeDepth(t, NNum), NNum) {
        DrainedNotMain(t, home[e].index, CascadeDepth(t, NNum));
      }
    }
  }

  lemma TickedSplice(before: map<EntryId, Home>, mid: map<EntryId, Home>, t: U32)
    requires MainKept(before, mid)
    ensures Ticked(before, Spliced(mid, MainIndex(t)), t)
  {
  }

  /**
   * The spokes after `cascade` at tick `t` has drained its first `level`
   * levels: level by level, the drain of the spoke at the tick's index on
   * that level, read at the offset of the source (`8 + 4 * level`).
   */
  function CascadeUpTo(sp: seq<seq<EntryId>>, entries: map<EntryId, Entry>, t: U32, level: nat): (r: seq<seq<EntryId>>)
    requires |sp| == SpokeCount && level <= NNum
    ensures |r| == SpokeCount
    decreases level
  {
    if level == 0 then sp
    else Drained(CascadeUpTo(sp, entries, t, level - 1), CascadeSpoke(t, level - 1, NNum), entries, t)
  }

  lemma CascadeUpToNext(sp: seq<seq<EntryId>>, entries: map<EntryId, Entry>, t: U32, level: nat)
    requires |sp| == SpokeCount && level < NNum
    ensures CascadeUpTo(sp, entries, t, level + 1) ==
            Drained(CascadeUpTo(sp, entries, t, level), CascadeSpoke(t, level, NNum), entries, t)
  {
  }

  /**
   * The drain loop of `cascade` at tick `t` never ends on level `level`
   * (wheel.go:251-253): once the levels below it are drained, its spoke
   * still holds an entry after one pass, and every such entry is one that
   * `addTimer` keeps placing back on it (`ReturningSpins`).
   */
  ghost predicate LevelSpins(sp: seq<seq<EntryId>>, entries: map<EntryId, Entry>, t: U32, level: nat)
    requires |sp| == SpokeCount && level < NNum
  {
    var s := CascadeSpoke(t, level, NNum);
    Returning(CascadeUpTo(sp, entries, t, level)[s], entries, t, s) != []
  }

  /** `cascade` at tick `t` never returns: one of the levels it visits spins. */
  ghost predicate CascadeSpins(sp: seq<seq<EntryId>>, entries: map<EntryId, Entry>, t: U32)
    requires |sp| == SpokeCount
  {
    exists level :: 0 <= level < CascadeDepth(t, NNum) && LevelSpins(sp, entries, t, level)
  }

  /** No level below `level` of the cascade at `t` spins. */
  ghost predicate NoneSpinBelow(sp: seq<seq<EntryId>>, entries: map<EntryId, Entry>, t: U32, level: nat)
    requires |sp| == SpokeCount
  {
    forall l :: 0 <= l < level && l < NNum ==> !LevelSpins(sp, entries, t, l)
  }

  lemma NoneSpinNext(sp: seq<seq<EntryId>>, entries: map<EntryId, Entry>, t: U32, level: nat)
    requires |sp| == SpokeCount && level < NNum
    requires NoneSpinBelow(sp, entries, t, level) && !LevelSpins(sp, entries, t, level)
    ensures NoneSpinBelow(sp, entries, t, level + 1)
  {
  }

  lemma NoneSpinDone(sp: seq<seq<EntryId>>, entries: map<EntryId, Entry>, t: U32)
    requires |sp| == SpokeCount && NoneSpinBelow(sp, entries, t, CascadeDepth(t, NNum))
    ensures !CascadeSpins(sp, entries, t)
  {
  }

  /** A tick to `t` never ends: its main index is 0 and its cascade spins. */
  ghost predicate TickSpins(sp: seq<seq<EntryId>>, entries: map<EntryId, Entry>, t: U32)
    requires |sp| == SpokeCount
  {
    MainIndex(t) == 0 && CascadeSpins(sp, entries, t)
  }

  /** One of the first `n` ticks of the tick loop from `start` never ends. */
  ghost predicate RunSpins(sp: seq<seq<EntryId>>, now: seq<EntryId>, home: map<EntryId, Home>,
                           entries: map<EntryId, Entry>, start: U32, n: nat)
    requires |sp| == SpokeCount
  {
    exists k :: 0 <= k < n && TickSpins(Run(sp, now, home, entries, start, k).spokes, entries, Later(start, k + 1))
  }

  /** The first `n + 1` ticks spin exactly when the first `n` do or the next one does. */
  lemma RunSpinsNext(sp: seq<seq<EntryId>>, now: seq<EntryId>, home: map<EntryId, Home>,
                     entries: map<EntryId, Entry>, start: U32, n: nat)
    requires |sp| == SpokeCount
    ensures RunSpins(sp, now, home, entries, start, n + 1) <==>
            RunSpins(sp, now, home, entries, start, n) ||
            TickSpins(Run(sp, now, home, entries, start, n).spokes, entries, Later(start, n + 1))
  {
  }

  lemma RunSpinsGrow(sp: seq<seq<EntryId>>, now: seq<EntryId>, home: map<EntryId, Home>,
                     entries: map<EntryId, Entry>, start: U32, n: nat, m: nat)
    requires |sp| == SpokeCount && n <= m && RunSpins(sp, now, home, entries, start, n)
    ensures RunSpins(sp, now, home, entries, start, m)
  {
  }

  /** The spokes after the cascade step of a tick to `t`: a cascade exactly when the main index is 0. */
  function Mid(sp: seq<seq<EntryId>>, entries: map<EntryId, Entry>, t: U32): (r: seq<seq<EntryId>>)
    requires |sp| == SpokeCount
    ensures |r| == SpokeCount
  {
    if MainIndex(t) == 0 then CascadeUpTo(sp, entries, t, CascadeDepth(t, NNum)) else sp
  }

  /**
   * The back-pointers after one tick to `t` (wheel.go:216-221): a cascade
   * when the main index is 0, then main slot `MainIndex(t)` moves onto
   * `doNow`.
   */
  ghost function TickHome(home: map<EntryId, Home>, entries: map<EntryId, Entry>, t: U32): (r: map<EntryId, Home>)
    ensures r.Keys == home.Keys
  {
    Spliced(if MainIndex(t) == 0 then Recascaded(home, entries, t) else home, MainIndex(t))
  }

  /** A tick empties exactly its own main slot onto `doNow` and keeps the other main slots and `doNow`. */
  lemma TickHomeTicked(home: map<EntryId, Home>, entries: map<EntryId, Entry>, t: U32)
    ensures Ticked(home, TickHome(home, entries, t), t)
  {
    var mid := if MainIndex(t) == 0 then Recascaded(home, entries, t) else home;
    if MainIndex(t) == 0 {
      CascadeKeepsMain(home, entries, t);
    }
    TickedSplice(home, mid, t);
  }

  /**
   * A tick to `t` never puts an entry on `doNow` early: an entry lands there
   * only from main slot `MainIndex(t)`, or when the cascade at `t` placed
   * it on that slot, which happens only when its deadline is `t` itself.
   */
  lemma TickDueNow(home: map<EntryId, Home>, entries: map<EntryId, Entry>, t: U32, e: EntryId)
    requires e in home && home[e] != InDoNow && TickHome(home, entries, t)[e] == InDoNow
    ensures home[e] == InSpoke(MainIndex(t)) || (MainIndex(t) == 0 && e in entries && entries[e].next == t)
  {
    if home[e] != InSpoke(MainIndex(t)) {
      var mid := if MainIndex(t) == 0 then Recascaded(home, entries, t) else home;
      assert mid[e] == InSpoke(MainIndex(t));
      assert MainIndex(t) == 0 && e in entries;
      assert PlaceSpoke(entries[e].next, t) == 0;
      PlacedOnMainSlot(entries[e].next, t);
    }
  }

  /** `addTimer` at tick `t` puts a deadline on main slot `MainIndex(t)` only when the deadline is `t`. */
  lemma PlacedOnMainSlot(next: U32, t: U32)
    requires PlaceSpoke(next, t) == MainIndex(t)
    ensures next == t
  {
    assert Sub32(next, t) < RSize;
    MainSlotReachedAtDeadline(next, t);
    ModOfWrap(t + RSize);
    assert MainIndex(Later(t, RSize)) == MainIndex(t);
  }

  /** The lists and back-pointers of the wheel, as values. */
  datatype Lists = Lists(spokes: seq<seq<EntryId>>, doNow: seq<EntryId>, home: map<EntryId, Home>)

  /**
   * The lists and back-pointers after the tick loop of `runWork`
   * (wheel.go:215-222) has advanced `n` ticks from `start`: at each tick
   * `t`, the cascade step, then the main slot of `t` goes, in order, onto
   * the back of `doNow`.
   */
  ghost function Run(sp: seq<seq<EntryId>>, now: seq<EntryId>, home: map<EntryId, Home>,
                     entries: map<EntryId, Entry>, start: U32, n: nat): (r: Lists)
    requires |sp| == SpokeCount
    ensures |r.spokes| == SpokeCount
    decreases n
  {
    if n == 0 then Lists(sp, now, home)
    else
      var prev := Run(sp, now, home, entries, start, n - 1);
      var t := Later(start, n);
      var mid := Mid(prev.spokes, entries, t);
      Lists(mid[MainIndex(t) := []], prev.doNow + mid[MainIndex(t)], TickHome(prev.home, entries, t))
  }

  /**
   * Over `n` ticks, every entry that was on `doNow` stays there, every entry
   * on a main slot the loop passes ends on `doNow`, and every entry on a
   * main slot it does not pass stays put.
   */
  lemma {:induction false} RunSwept(sp: seq<seq<EntryId>>, now: seq<EntryId>, home: map<EntryId, Home>,
                                    entries: map<EntryId, Entry>, start: U32, n: nat)
    requires |sp| == SpokeCount
    ensures Swept(home, Run(sp, now, home, entries, start, n).home, start, n)
    decreases n
  {
    if n > 0 {
      var prev := Run(sp, now, home, entries, start, n - 1);
      RunSwept(sp, now, home, entries, start, n - 1);
      SweptTickHome(home, prev.home, entries, start, n - 1);
    }
  }

  lemma SweptTickHome(home0: map<EntryId, Home>, before: map<EntryId, Home>, entries: map<EntryId, Entry>, start: U32, n: nat)
    requires Swept(home0, before, start, n)
    ensures Swept(home0, TickHome(before, entries, Later(start, n + 1)), start, n + 1)
  {
    TickHomeTicked(before, entries, Later(start, n + 1));
    SweptTick(home0, before, TickHome(before, entries, Later(start, n + 1)), start, n);
  }

  lemma SweptTick(home0: map<EntryId, Home>, before: map<EntryId, Home>, after: map<EntryId, Home>, start: U32, n: nat)
    requires Swept(home0, before, start, n)
    requires Ticked(before, after, Later(start, n + 1))
    ensures Swept(home0, after, start, n + 1)
  {
    forall e | e in home0 && home0[e].InSpoke?
      ensures Passed(start, n + 1, home0[e].index) <==>
                Passed(start, n, home0[e].index) || home0[e].index == MainIndex(Later(start, n + 1))
    {
      PassedNext(start, n, home0[e].index);
    }
  }

  /**
   * The state while the drain loop of `runWork` handles the entries `due`
   * that were on `doNow` (wheel.go:224-236): the first `k` of them, collected
   * in `done`, have fired once at `nano`, are back on the wheel exactly when
   * they continue and then where `addTimer` places them; every other entry
   * is unchanged, record and list alike.
   */
  ghost predicate Fired(entries0: map<EntryId, Entry>, entries: map<EntryId, Entry>,
                        home0: map<EntryId, Home>, home: map<EntryId, Home>,
                        due: seq<EntryId>, k: nat, done: set<EntryId>, nano: Int64, granularity: Int64, cur: U32)
    requires granularity > 0
  {
    k <= |due| && entries.Keys == entries0.Keys &&
    (forall j :: 0 <= j < k ==> due[j] in done) &&
    (forall x :: x in done ==> x in due) &&
    (forall x :: x in done ==>
       x in entries0 && entries[x] == Fire(entries0[x], nano, granularity) &&
       (x in home <==> Continues(entries[x])) &&
       (x in home ==> home[x] == InSpoke(PlaceSpoke(entries[x].next, cur)))) &&
    (forall x :: x in entries0 && x !in done ==> entries[x] == entries0[x]) &&
    (forall x :: x in home0 && x !in done ==> x in home && home[x] == home0[x]) &&
    (forall x :: x in home && x !in done ==> x in home0)
  }

  lemma FiredStep(entries0: map<EntryId, Entry>, entries: map<EntryId, Entry>, entries': map<EntryId, Entry>,
                  home0: map<EntryId, Home>, home: map<EntryId, Home>, home': map<EntryId, Home>,
                  due: seq<EntryId>, k: nat, done: set<EntryId>, nano: Int64, granularity: Int64, cur: U32)
    requires granularity > 0
    requires Fired(entries0, entries, home0, home, due, k, done, nano, granularity, cur)
    requires k < |due| && due[k] in entries && due[k] in home && home[due[k]] == InDoNow
    requires var x := due[k];
             var fe := Fire(entries[x], nano, granularity);
             entries' == entries[x := fe] &&
             home' == if Continues(fe) then home[x := InSpoke(PlaceSpoke(fe.next, cur))] else home - {x}
    ensures due[k] !in done && entries[due[k]] == entries0[due[k]]
    ensures Fired(entries0, entries', home0, home', due, k + 1, done + {due[k]}, nano, granularity, cur)
  {
  }

  lemma FiredDone(entries0: map<EntryId, Entry>, entries: map<EntryId, Entry>,
                  home0: map<EntryId, Home>, home: map<EntryId, Home>,
                  due: seq<EntryId>, done: set<EntryId>, nano: Int64, granularity: Int64, cur: U32)
    requires granularity > 0
    requires Fired(entries0, entries, home0, home, due, |due|, done, nano, granularity, cur)
    ensures entries.Keys == entries0.Keys
    ensures forall x :: x in due ==>
              x in entries0 && entries[x] == Fire(entries0[x], nano, granularity) &&
              (x in home <==> Continues(entries[x])) &&
              (x in home ==> home[x] == InSpoke(PlaceSpoke(entries[x].next, cur)))
    ensures forall x :: x in entries0 && x !in due ==> entries[x] == entries0[x]
    ensures forall x :: x in home0 && x !in due ==> x in home && home[x] == home0[x]
    ensures forall x :: x in home && x !in due ==> x in home0
  {
    forall x | x in due
      ensures x in done
    {
      var j :| 0 <= j < |due| && due[j] == x;
    }
  }

  lemma SurvivorsStep(ids: seq<EntryId>, k: nat, entries: map<EntryId, Entry>, nano: Int64, granularity: Int64)
    requires granularity > 0 && k < |ids|
    ensures Survivors(ids[..k + 1], entries, nano, granularity) ==
            Survivors(ids[..k], entries, nano, granularity) +
              (if ids[k] in entries && Continues(Fire(entries[ids[k]], nano, granularity)) then 1 else 0)
  {
    assert ids[..k + 1][..k] == ids[..k];
  }

  lemma PrefixGrows(a: seq<EntryId>, b: seq<EntryId>, c: seq<EntryId>)
    requires |a| <= |b| && b[..|a|] == a
    requires |b| <= |c| && c[..|b|] == b
    ensures |a| <= |c| && c[..|a|] == a
  {
    assert c[..|a|] == c[..|b|][..|a|];
  }

  /** Appending the next element of `due` to a log that holds its first `k`. */
  lemma LogStep(log0: seq<EntryId>, log: seq<EntryId>, due: seq<EntryId>, k: nat)
    requires k < |due| && log == log0 + due[..k]
    ensures log + [due[k]] == log0 + due[..k + 1]
  {
    assert due[..k + 1] == due[..k] + [due[k]];
  }

  /**
   * The elements of `ids` that, fired once at `nano`, continue and go on
   * spoke `p` (wheel.go:228-232), in firing order.
   */
  function Refired(ids: seq<EntryId>, entries: map<EntryId, Entry>, nano: Int64, granularity: Int64, cur: U32, p: nat): seq<EntryId>
    requires granularity > 0
  {
    if ids == [] then []
    else
      var last := ids[|ids| - 1];
      Refired(ids[..|ids| - 1], entries, nano, granularity, cur, p)
        + (if last in entries && Continues(Fire(entries[last], nano, granularity)) &&
              PlaceSpoke(Fire(entries[last], nano, granularity).next, cur) == p
           then [last] else [])
  }

  /** The spokes after the drain loop of `runWork` fired `ids`: each spoke gains its refired entries at the back. */
  function Requeued(sp: seq<seq<EntryId>>, ids: seq<EntryId>, entries: map<EntryId, Entry>,
                    nano: Int64, granularity: Int64, cur: U32): (r: seq<seq<EntryId>>)
    requires granularity > 0
    ensures |r| == |sp|
  {
    seq(|sp|, p requires 0 <= p < |sp| => sp[p] + Refired(ids, entries, nano, granularity, cur, p))
  }

  lemma RequeuedStart(sp: seq<seq<EntryId>>, entries: map<EntryId, Entry>, nano: Int64, granularity: Int64, cur: U32)
    requires granularity > 0
    ensures Requeued(sp, [], entries, nano, granularity, cur) == sp
  {
    var r := Requeued(sp, [], entries, nano, granularity, cur);
    forall q | 0 <= q < |sp|
      ensures r[q] == sp[q]
    {
    }
  }

  /** Firing the next element of `ids` appends it to the back of its spoke, if it continues. */
  lemma RequeuedStep(sp0: seq<seq<EntryId>>, ids: seq<EntryId>, k: nat, entries: map<EntryId, Entry>,
                     nano: Int64, granularity: Int64, cur: U32, sp: seq<seq<EntryId>>)
    requires granularity > 0 && |sp0| == SpokeCount && k < |ids| && ids[k] in entries
    requires sp == Requeued(sp0, ids[..k], entries, nano, granularity, cur)
    ensures var fe := Fire(entries[ids[k]], nano, granularity);
            var p := PlaceSpoke(fe.next, cur);
            (if Continues(fe) then sp[p := sp[p] + [ids[k]]] else sp) ==
              Requeued(sp0, ids[..k + 1], entries, nano, granularity, cur)
  {
    var fe := Fire(entries[ids[k]], nano, granularity);
    var p := PlaceSpoke(fe.next, cur);
    var lhs := if Continues(fe) then sp[p := sp[p] + [ids[k]]] else sp;
    var rhs := Requeued(sp0, ids[..k + 1], entries, nano, granularity, cur);
    forall q | 0 <= q < |sp0|
      ensures lhs[q] == rhs[q]
    {
      RefiredStep(ids, k, entries, nano, granularity, cur, q);
    }
  }

  lemma RefiredStep(ids: seq<EntryId>, k: nat, entries: map<EntryId, Entry>, nano: Int64, granularity: Int64, cur: U32, p: nat)
    requires granularity > 0 && k < |ids|
    ensures Refired(ids[..k + 1], entries, nano, granularity, cur, p) ==
            Refired(ids[..k], entries, nano, granularity, cur, p) +
              (if ids[k] in entries && Continues(Fire(entries[ids[k]], nano, granularity)) &&
                  PlaceSpoke(Fire(entries[ids[k]], nano, granularity).next, cur) == p
               then [ids[k]] else [])
  {
    assert ids[..k + 1][..k] == ids[..k];
  }

  class Wheel {
    /** The 256 main slots followed by the 4 cascade levels of 64 slots each. */
    const spokes: array<seq<EntryId>>
    /** Entries due at the current wake-up, in firing order. */
    var doNow: seq<EntryId>
    var curTick: U32
    /** Nanoseconds per tick. */
    const granularity: Int64
    /** Interval a new job gets when none is given. */
    const interval: Int64

    /** The record behind each element created so far, and the list each attached element is on. */
    var entries: map<EntryId, Entry>
    var home: map<EntryId, Home>
    /** Identity for the next element `NewJob` creates. */
    var nextId: EntryId
    /** Every job run, in order. */
    ghost var fired: seq<EntryId>

    ghost predicate Valid()
      reads this, spokes
    {
      spokes.Length == SpokeCount &&
      granularity > 0 &&
      Agree(spokes[..], doNow, home) &&
      (forall e :: e in home ==> e in entries) &&
      (forall e :: e in entries ==> e < nextId)
    }

    /** Number of entries on the wheel: on every spoke and on `doNow`. */
    ghost function Total(): nat
      reads this, spokes
    {
      SumLens(spokes[..]) + |doNow|
    }

    /**
     * Spoke `s` is not empty and every entry on it is placed back on it by
     * `addTimer`: the drain loop of `cascade` on this spoke never ends.
     */
    ghost predicate Spins(s: nat)
      reads this, spokes
    {
      s < spokes.Length && SpinsOn(spokes[s], entries, curTick, s)
    }

    /**
     * `NewWheel` (wheel.go:56-70): every spoke and `doNow` empty, the current
     * tick that of `nowNano`. The default granularity and interval are
     * parameters.
     */
    constructor (nowNano: Int64, granularity: Int64, interval: Int64)
      requires granularity > 0
      ensures Valid() && fresh(spokes)
      ensures this.granularity == granularity && this.interval == interval
      ensures curTick == TickOf(nowNano, granularity)
      ensures doNow == [] && forall i :: 0 <= i < SpokeCount ==> spokes[i] == []
      ensures entries == map[] && home == map[] && fired == []
      ensures Total() == 0
    {
      this.granularity := granularity;
      this.interval := interval;
      spokes := new seq<EntryId>[SpokeCount](_ => []);
      doNow := [];
      curTick := TickOf(nowNano, granularity);
      entries := map[];
      home := map[];
      nextId := 0;
      fired := [];
      new;
      SumLensAllEmpty(spokes[..]);
    }

    /**
     * `Len` (wheel.go:104-114): the number of entries on the wheel, summed
     * spoke by spoke and then `doNow`.
     */
    method Len() returns (length: nat)
      requires Valid()
      ensures length == Total()
    {
      length := 0;
      for i := 0 to spokes.Length
        invariant length == SumLens(spokes[..i])
      {
        SumLensPrefix(spokes[..], i);
        length := length + |spokes[i]|;
      }
      assert spokes[..spokes.Length] == spokes[..];
      length := length + |doNow|;
    }

    /**
     * The spoke index computed at the head of `addTimer` (wheel.go:261-273):
     * the main slot of `next` when it is less than 256 ticks ahead, otherwise
     * the cascade level found by shifting the distance 6 bits at a time, and
     * the deadline's digit on that level.
     */
    method SpokeFor(next: U32) returns (spokeIdx: nat)
      ensures spokeIdx == PlaceSpoke(next, curTick)
    {
      ghost var delta := Sub32(next, curTick);
      var idx := Sub32(next, curTick);
      if idx < RSize {
        spokeIdx := next % RSize;
      } else {
        var level := 0;
        idx := Shr(idx, RBits);
        while idx >= NSize && level < NNum - 1
          invariant level < NNum
          invariant idx == Shr(delta, LevelShift(level))
          invariant forall j :: 0 <= j < level ==> Shr(delta, LevelShift(j)) >= NSize
          decreases NNum - level
        {
          ShrNextLevel(delta, level);
          Pow2Values();
          idx := Shr(idx, NBits);
          level := level + 1;
        }
        spokeIdx := RSize + NSize * level + Shr(next, LevelShift(level)) % NSize;
      }
    }

    /**
     * `addTimer` (wheel.go:260-275): pushes the detached entry `e` onto the
     * back of the spoke its deadline and the current tick select.
     */
    method AddTimer(e: EntryId)
      requires Valid() && e in entries && e !in home
      modifies this`home, spokes
      ensures Valid()
      ensures var p := PlaceSpoke(entries[e].next, curTick);
              spokes[..] == old(spokes[..])[p := old(spokes[p]) + [e]] &&
              home == old(home)[e := InSpoke(p)]
      ensures Total() == old(Total()) + 1
    {
      var spokeIdx := SpokeFor(entries[e].next);
      AgreePushSpoke(spokes[..], doNow, home, spokeIdx, e);
      SumLensUpdate(spokes[..], spokeIdx, spokes[spokeIdx] + [e]);
      spokes[spokeIdx] := spokes[spokeIdx] + [e];
      home := home[e := InSpoke(spokeIdx)];
    }

    /**
     * `Delete` (wheel.go:192-197), which is the list library's `RemoveSelf`:
     * the element leaves the list it is on, if it is on one, and the wheel
     * is otherwise unchanged. Deleting an element that is on no list changes
     * nothing.
     */
    method Delete(e: EntryId)
      requires Valid()
      modifies this`home, this`doNow, spokes
      ensures Valid()
      ensures home == old(home) - {e}
      ensures spokes[..] == DetachSpokes(old(spokes[..]), old(home), e)
      ensures doNow == DetachNow(old(doNow), old(home), e)
      ensures Total() == old(Total()) - (if e in old(home) then 1 else 0)
    {
      if e in home {
        assert Located(spokes[..], doNow, e, home[e]);
        AgreeRemove(spokes[..], doNow, home, e);
        match home[e] {
          case InSpoke(i) =>
            SumLensUpdate(spokes[..], i, Remove(spokes[i], e));
            spokes[i] := Remove(spokes[i], e);
          case InDoNow =>
            doNow := Remove(doNow, e);
        }
        home := home - {e};
      }
    }

    /**
     * `Start` (wheel.go:181-190): takes `e` off the list it is on, resets its
     * count, computes its deadline from `nowNano` and its interval, and
     * places it with `addTimer`.
     */
    method Start(e: EntryId, nowNano: Int64)
      requires Valid() && e in entries
      modifies this`home, this`doNow, this`entries, spokes
      ensures Valid()
      ensures entries == old(entries)[e := old(entries[e]).(count := 0, next := NextTimeout(nowNano, old(entries[e]).interval, granularity))]
      ensures var p := PlaceSpoke(entries[e].next, curTick);
              var detached := DetachSpokes(old(spokes[..]), old(home), e);
              spokes[..] == detached[p := detached[p] + [e]] &&
              doNow == DetachNow(old(doNow), old(home), e) &&
              home == old(home)[e := InSpoke(p)]
      ensures Total() == old(Total()) + (if e in old(home) then 0 else 1)
    {
      Delete(e);
      var entry := entries[e];
      entry := entry.(count := 0);
      entry := entry.(next := NextTimeout(nowNano, entry.interval, granularity));
      entries := entries[e := entry];
      AddTimer(e);
    }

    /**
     * `NewJob` (wheel.go:121-134): a new element, on no list, with count and
     * deadline zero, the given number of runs, and the first of the given
     * intervals or else the wheel's default interval.
     */
    method NewJob(number: U32, intervals: seq<Int64>) returns (e: EntryId)
      requires Valid()
      modifies this`entries, this`nextId
      ensures Valid()
      ensures e !in old(entries) && e !in home
      ensures entries == old(entries)[e := Entry(0, 0, number, if |intervals| > 0 then intervals[0] else interval)]
    {
      var val := interval;
      if |intervals| > 0 {
        val := intervals[0];
      }
      e := nextId;
      nextId := nextId + 1;
      entries := entries[e := Entry(0, 0, number, val)];
    }

    /**
     * `AddJob` (wheel.go:142-153): a new job whose deadline is one interval
     * after `nowNano`. A deadline equal to the current tick goes straight to
     * `doNow`; any other is placed by `addTimer`.
     */
    method AddJob(nowNano: Int64, number: U32, intervals: seq<Int64>) returns (e: EntryId)
      requires Valid()
      modifies this`entries, this`nextId, this`home, this`doNow, spokes
      ensures Valid()
      ensures e !in old(entries)
      ensures var iv := if |intervals| > 0 then intervals[0] else interval;
              entries == old(entries)[e := Entry(NextTimeout(nowNano, iv, granularity), 0, number, iv)]
      ensures entries[e].next == curTick ==>
                doNow == old(doNow) + [e] && spokes[..] == old(spokes[..]) && home == old(home)[e := InDoNow]
      ensures entries[e].next != curTick ==>
                var p := PlaceSpoke(entries[e].next, curTick);
                doNow == old(doNow) && spokes[..] == old(spokes[..])[p := old(spokes[p]) + [e]] &&
                home == old(home)[e := InSpoke(p)]
      ensures Total() == old(Total()) + 1
    {
      e := NewJob(number, intervals);
      var entry := entries[e];
      entry := entry.(next := NextTimeout(nowNano, entry.interval, granularity));
      entries := entries[e := entry];
      if entry.next == curTick {
        AgreePushNow(spokes[..], doNow, home, e);
        doNow := doNow + [e];
        home := home[e := InDoNow];
      } else {
        AddTimer(e);
      }
    }

    /**
     * `doNow.SpliceBackList(spokes[index])` (wheel.go:221): the whole of
     * spoke `index` moves, in order, onto the back of `doNow`.
     */
    method SpliceToDoNow(index: nat)
      requires Valid() && index < SpokeCount
      modifies this`home, this`doNow, spokes
      ensures Valid()
      ensures doNow == old(doNow) + old(spokes[index])
      ensures spokes[..] == old(spokes[..])[index := []]
      ensures home == Spliced(old(home), index)
      ensures Total() == old(Total())
    {
      AgreeSplice(spokes[..], doNow, home, index);
      SumLensUpdate(spokes[..], index, []);
      doNow := doNow + spokes[index];
      home := Spliced(home, index);
      spokes[index] := [];
    }

    /** One pass of the drain loop of `cascade` (wheel.go:252): `addTimer(spoke.PopFront())`. */
    method ReplaceFront(s: nat)
      requires Valid() && s < SpokeCount && spokes[s] != []
      modifies this`home, spokes
      ensures Valid()
      ensures var e := old(spokes[s][0]);
              var p := PlaceSpoke(entries[e].next, curTick);
              var popped := old(spokes[..])[s := old(spokes[s][1..])];
              spokes[..] == popped[p := popped[p] + [e]] &&
              home == old(home)[e := InSpoke(p)]
      ensures Total() == old(Total())
    {
      var e := spokes[s][0];
      ghost var popped := spokes[..][s := spokes[s][1..]];
      AgreePopSpoke(spokes[..], doNow, home, s);
      SumLensUpdate(spokes[..], s, spokes[s][1..]);
      spokes[s] := spokes[s][1..];
      assert spokes[..] == popped;
      home := home - {e};
      AddTimer(e);
    }

    /**
     * The drain loop of `cascade` on spoke `s` (wheel.go:251-253), run over
     * the entries the spoke holds when it starts: each is popped from the
     * front and placed again by `addTimer`. What is left on the spoke
     * afterwards is exactly the entries placed back on it, in order. When
     * that is not empty (`stuck`), the source's loop, which goes on until
     * the spoke is empty, pops and pushes back the same entries forever:
     * their placement depends only on their deadlines and the current tick,
     * neither of which the loop changes.
     */
    method DrainSpoke(s: nat) returns (stuck: bool)
      requires Valid() && s < SpokeCount
      modifies this`home, spokes
      ensures Valid()
      ensures Total() == old(Total())
      ensures spokes[..] == Drained(old(spokes[..]), s, entries, curTick)
      ensures home.Keys == old(home).Keys
      ensures forall e :: e in old(home) ==>
                if old(home[e]) == InSpoke(s) then home[e] == InSpoke(PlaceSpoke(entries[e].next, curTick))
                else home[e] == old(home[e])
      ensures stuck <==> Spins(s)
      ensures !stuck ==> spokes[s] == []
    {
      ghost var sp0 := spokes[..];
      ghost var orig := spokes[s];
      ghost var home0 := home;
      ghost var done: set<EntryId> := {};
      AgreeSpoke(spokes[..], doNow, home, s);
      DrainedPartStart(sp0, s, entries, curTick);
      var n := |spokes[s]|;
      var k := 0;
      while k < n
        invariant Valid() && k <= n
        invariant Total() == old(Total())
        invariant spokes[..] == DrainedPart(sp0, s, k, entries, curTick)
        invariant Redrained(home0, home, orig, k, done, s, entries, curTick)
      {
        ghost var sp := spokes[..];
        ghost var before := home;
        DrainedPartFront(sp0, s, k, entries, curTick);
        ReplaceFront(s);
        DrainedPartStep(sp0, s, k, entries, curTick, sp);
        RedrainedStep(home0, before, home, orig, k, done, s, entries, curTick);
        done := done + {orig[k]};
        k := k + 1;
      }
      DrainedPartDone(sp0, s, entries, curTick);
      RedrainedDone(home0, home, orig, done, s, entries, curTick);
      ReturningSpins(orig, entries, curTick, s);
      stuck := |spokes[s]| > 0;
    }

    /**
     * `cascade` (wheel.go:247-258), with the level offset of the source: at
     * level 0, 1, ... it drains the spoke whose index is the tick's 6-bit
     * digit at bit offset `8 + 4 * level`, going on to the next level while
     * that index is zero. When it returns normally, the spokes are those of
     * `CascadeUpTo`: every entry that sat on a drained spoke is where
     * `addTimer` places it now, which is another spoke, and every other
     * entry has not moved. It returns `stuck` when a drain would never end
     * (see `DrainSpoke`).
     */
    method Cascade() returns (stuck: bool)
      requires Valid()
      modifies this`home, spokes
      ensures Valid()
      ensures Total() == old(Total())
      ensures home.Keys == old(home).Keys
      ensures !stuck ==> spokes[..] == CascadeUpTo(old(spokes[..]), entries, curTick, CascadeDepth(curTick, NNum))
      ensures !stuck ==> home == Recascaded(old(home), entries, curTick)
      ensures !stuck ==> forall e ::
                (e in old(home) && old(home[e]).InSpoke? &&
                 DrainedBy(curTick, old(home[e]).index, CascadeDepth(curTick, NNum), NNum)) ==>
                PlaceSpoke(entries[e].next, curTick) != old(home[e]).index
      ensures stuck ==> exists level :: 0 <= level < CascadeDepth(curTick, NNum) && Spins(CascadeSpoke(curTick, level, NNum))
      ensures stuck <==> CascadeSpins(old(spokes[..]), entries, curTick)
    {
      ghost var depth := CascadeDepth(curTick, NNum);
      ghost var home0 := home;
      ghost var sp0 := spokes[..];
      var level := 0;
      var more := true;
      stuck := false;
      while more
        invariant Valid()
        invariant Total() == old(Total())
        invariant level <= NNum
        invariant more ==> level < NNum && DepthFrom(curTick, level, NNum) == depth
        invariant !more ==> level == depth
        invariant spokes[..] == CascadeUpTo(sp0, entries, curTick, level)
        invariant Cascaded(home0, home, curTick, level, entries)
        invariant NoneSpinBelow(sp0, entries, curTick, level)
        decreases NNum - level
      {
        var index, spins := DrainLevel(level, sp0, home0);
        if spins {
          assert level < depth && Spins(CascadeSpoke(curTick, level, NNum)) && LevelSpins(sp0, entries, curTick, level);
          stuck := true;
          return;
        }
        NoneSpinNext(sp0, entries, curTick, level);
        level := level + 1;
        more := index == 0 && level < NNum;
      }
      CascadedDone(home0, home, curTick, entries);
      NoneSpinDone(sp0, entries, curTick);
    }

    /**
     * One level of `cascade` (wheel.go:249-253): the drain of the spoke at
     * the tick's index on level `level`, with the bookkeeping that `Cascade`
     * keeps.
     */
    method DrainLevel(level: nat, ghost sp0: seq<seq<EntryId>>, ghost home0: map<EntryId, Home>)
      returns (index: nat, spins: bool)
      requires Valid() && level < NNum && |sp0| == SpokeCount
      requires spokes[..] == CascadeUpTo(sp0, entries, curTick, level)
      requires Cascaded(home0, home, curTick, level, entries)
      modifies this`home, spokes
      ensures Valid() && Total() == old(Total()) && home.Keys == old(home).Keys
      ensures index == CascadeIndex(curTick, level, NNum)
      ensures spins ==> Spins(CascadeSpoke(curTick, level, NNum))
      ensures spins <==> LevelSpins(sp0, entries, curTick, level)
      ensures !spins ==> spokes[..] == CascadeUpTo(sp0, entries, curTick, level + 1)
      ensures !spins ==> Cascaded(home0, home, curTick, level + 1, entries)
    {
      index := CascadeIndex(curTick, level, NNum);
      var spoke := RSize + NSize * level + index;
      ghost var before := home;
      ghost var lists := spokes[..];
      CascadeUpToNext(sp0, entries, curTick, level);
      spins := DrainSpoke(spoke);
      ReturningSpins(lists[spoke], entries, curTick, spoke);
      if !spins {
        AgreeSpoke(spokes[..], doNow, home, spoke);
        CascadedStep(home0, before, home, curTick, level, entries);
      }
    }

    /**
     * One step of the tick loop of `runWork` (wheel.go:216-221): the current
     * tick goes up by one; if its main index is 0 the wheel cascades
     * (`cascaded`), and then the main slot of the new tick moves, in order,
     * onto the back of `doNow`. It returns `stuck` instead when the cascade
     * would never end.
     */
    method Tick() returns (stuck: bool, ghost cascaded: bool)
      requires Valid()
      modifies this`curTick, this`home, this`doNow, spokes
      ensures Valid()
      ensures Total() == old(Total())
      ensures curTick == Inc32(old(curTick))
      ensures cascaded <==> MainIndex(curTick) == 0
      ensures |old(doNow)| <= |doNow| && doNow[..|old(doNow)|] == old(doNow)
      ensures !stuck ==>
                var mid := Mid(old(spokes[..]), entries, curTick);
                spokes[..] == mid[MainIndex(curTick) := []] && doNow == old(doNow) + mid[MainIndex(curTick)]
      ensures !stuck ==> home == TickHome(old(home), entries, curTick)
      ensures stuck ==> cascaded
      ensures stuck <==> TickSpins(old(spokes[..]), entries, curTick)
      ensures stuck ==> exists level :: 0 <= level < CascadeDepth(curTick, NNum) && Spins(CascadeSpoke(curTick, level, NNum))
    {
      curTick := Inc32(curTick);
      var index := MainIndex(curTick);
      if index == 0 {
        cascaded := true;
        stuck := Cascade();
        if stuck {
          return;
        }
      } else {
        cascaded := false;
        stuck := false;
      }
      SpliceToDoNow(index);
    }

    /**
     * The state after the tick loop has advanced `n` ticks from `start`: the
     * lists are those of `Run`, `doNow` still begins with what it held, and
     * `cascades` lists the ticks at which the loop cascaded.
     */
    ghost predicate Advanced(sp0: seq<seq<EntryId>>, now0: seq<EntryId>, home0: map<EntryId, Home>,
                             start: U32, n: nat, cascades: seq<U32>)
      reads this, spokes
    {
      |sp0| == SpokeCount &&
      curTick == Later(start, n) &&
      cascades == WrapTicks(start, n) &&
      !RunSpins(sp0, now0, home0, entries, start, n) &&
      |now0| <= |doNow| && doNow[..|now0|] == now0 &&
      Lists(spokes[..], doNow, home) == Run(sp0, now0, home0, entries, start, n)
    }

    /** One pass of the tick loop, with the bookkeeping that `Advance` keeps. */
    method TickLogged(ghost sp0: seq<seq<EntryId>>, ghost now0: seq<EntryId>, ghost home0: map<EntryId, Home>,
                      ghost start: U32, ghost n: nat, ghost cascades: seq<U32>)
      returns (stuck: bool, ghost cascades': seq<U32>)
      requires Valid() && Advanced(sp0, now0, home0, start, n, cascades)
      modifies this`curTick, this`home, this`doNow, spokes
      ensures Valid() && Total() == old(Total())
      ensures |now0| <= |doNow| && doNow[..|now0|] == now0
      ensures !stuck ==> Advanced(sp0, now0, home0, start, n + 1, cascades')
      ensures stuck ==> TickSpins(Run(sp0, now0, home0, entries, start, n).spokes, entries, Later(start, n + 1))
      ensures stuck ==> exists level :: 0 <= level < CascadeDepth(curTick, NNum) && Spins(CascadeSpoke(curTick, level, NNum))
    {
      LaterStep(start, n);
      ghost var nowBefore := doNow;
      ghost var cascaded;
      stuck, cascaded := Tick();
      PrefixGrows(now0, nowBefore, doNow);
      cascades' := cascades + (if cascaded then [curTick] else []);
      RunSpinsNext(sp0, now0, home0, entries, start, n);
    }

    /**
     * The tick loop of `runWork` (wheel.go:215-222): the wheel advances one
     * tick at a time to the tick of `nano`, cascading whenever the main
     * index wraps to 0, and moves each main slot it reaches onto `doNow`;
     * the lists end as `Run` says. `cascades` lists the ticks at which it
     * cascaded. It returns `stuck` when a cascade would never end, and
     * stops there.
     */
    method Advance(nano: Int64) returns (stuck: bool, ghost cascades: seq<U32>)
      requires Valid()
      modifies this`curTick, this`home, this`doNow, spokes
      ensures Valid()
      ensures Total() == old(Total())
      ensures |old(doNow)| <= |doNow| && doNow[..|old(doNow)|] == old(doNow)
      ensures !stuck ==> curTick == TickOf(nano, granularity)
      ensures !stuck ==> cascades == WrapTicks(old(curTick), Sub32(TickOf(nano, granularity), old(curTick)))
      ensures !stuck ==>
                (Lists(spokes[..], doNow, home) ==
                 Run(old(spokes[..]), old(doNow), old(home), entries, old(curTick), Sub32(TickOf(nano, granularity), old(curTick))))
      ensures !stuck ==> Swept(old(home), home, old(curTick), Sub32(TickOf(nano, granularity), old(curTick)))
      ensures stuck <==> RunSpins(old(spokes[..]), old(doNow), old(home), entries, old(curTick), Sub32(TickOf(nano, granularity), old(curTick)))
      ensures stuck ==> exists level :: 0 <= level < CascadeDepth(curTick, NNum) && Spins(CascadeSpoke(curTick, level, NNum))
    {
      var past := Sub32(TickOf(nano, granularity), curTick);
      ghost var start := curTick;
      ghost var total := past;
      ghost var sp0 := spokes[..];
      ghost var home0 := home;
      ghost var now0 := doNow;
      ghost var n: nat := 0;
      stuck := false;
      cascades := [];
      while past > 0
        invariant Valid()
        invariant Total() == old(Total())
        invariant n + past == total
        invariant Advanced(sp0, now0, home0, start, n, cascades)
        decreases past
      {
        stuck, cascades := TickLogged(sp0, now0, home0, start, n, cascades);
        if stuck {
          RunSpinsNext(sp0, now0, home0, entries, start, n);
          RunSpinsGrow(sp0, now0, home0, entries, start, n + 1, total);
          return;
        }
        past := past - 1;
        n := n + 1;
      }
      assert n == total;
      LaterSub(TickOf(nano, granularity), start);
      RunSwept(sp0, now0, home0, entries, start, total);
    }

    /**
     * One pass of the drain loop of `runWork` (wheel.go:225-234): the front
     * entry of `doNow` is popped, its count goes up, it is placed again with
     * a deadline one interval after `nano` if it continues, and its job runs.
     */
    method FireFront(nano: Int64)
      requires Valid() && doNow != []
      modifies this`home, this`doNow, this`entries, this`fired, spokes
      ensures Valid()
      ensures var e := old(doNow[0]);
              var fe := Fire(old(entries[e]), nano, granularity);
              doNow == old(doNow[1..]) && fired == old(fired) + [e] &&
              entries == old(entries)[e := fe] &&
              home == (if Continues(fe) then old(home)[e := InSpoke(PlaceSpoke(fe.next, curTick))] else old(home) - {e})
      ensures var e := old(doNow[0]);
              var fe := Fire(old(entries[e]), nano, granularity);
              var p := PlaceSpoke(fe.next, curTick);
              spokes[..] == if Continues(fe) then old(spokes[..])[p := old(spokes[p]) + [e]] else old(spokes[..])
      ensures Total() == old(Total()) - (if Continues(Fire(old(entries[doNow[0]]), nano, granularity)) then 0 else 1)
    {
      var e := doNow[0];
      AgreePopNow(spokes[..], doNow, home);
      doNow := doNow[1..];
      home := home - {e};
      var entry := entries[e];
      entry := entry.(count := Inc32(entry.count));
      if entry.number == 0 || entry.count < entry.number {
        entry := entry.(next := NextTimeout(nano, entry.interval, granularity));
        entries := entries[e := entry];
        AddTimer(e);
      } else {
        entries := entries[e := entry];
      }
      fired := fired + [e];
    }

    /**
     * The state while the drain loop of `runWork` handles the entries `due`
     * that were on `doNow`: the first `k` have fired and left `doNow`, in
     * order, and are back on the spokes as `Requeued` says.
     */
    ghost predicate Draining(sp0: seq<seq<EntryId>>, due: seq<EntryId>, k: nat, entries0: map<EntryId, Entry>,
                             home0: map<EntryId, Home>, fired0: seq<EntryId>, done: set<EntryId>,
                             nano: Int64, total0: nat)
      reads this, spokes
      requires granularity > 0
    {
      k <= |due| && doNow == due[k..] &&
      fired == fired0 + due[..k] &&
      Fired(entries0, entries, home0, home, due, k, done, nano, granularity, curTick) &&
      spokes[..] == Requeued(sp0, due[..k], entries0, nano, granularity, curTick) &&
      Total() == total0 - k + Survivors(due[..k], entries0, nano, granularity)
    }

    /** One pass of the drain loop, with the bookkeeping that `Drain` keeps. */
    method FireNext(nano: Int64, ghost sp0: seq<seq<EntryId>>, ghost due: seq<EntryId>, ghost k: nat,
                    ghost entries0: map<EntryId, Entry>, ghost home0: map<EntryId, Home>,
                    ghost fired0: seq<EntryId>, ghost done: set<EntryId>, ghost total0: nat)
      requires Valid() && doNow != [] && |sp0| == SpokeCount
      requires Draining(sp0, due, k, entries0, home0, fired0, done, nano, total0)
      modifies this`home, this`doNow, this`entries, this`fired, spokes
      ensures Valid() && k < |due|
      ensures Draining(sp0, due, k + 1, entries0, home0, fired0, done + {due[k]}, nano, total0)
    {
      ghost var entriesBefore := entries;
      ghost var homeBefore := home;
      assert doNow[0] == due[k] && doNow[1..] == due[k + 1..];
      ghost var firedBefore := fired;
      ghost var spBefore := spokes[..];
      AgreeNowFront(spokes[..], doNow, home);
      SurvivorsStep(due, k, entries0, nano, granularity);
      FireFront(nano);
      FiredStep(entries0, entriesBefore, entries, home0, homeBefore, home, due, k, done, nano, granularity, curTick);
      RequeuedStep(sp0, due, k, entries0, nano, granularity, curTick, spBefore);
      LogStep(fired0, firedBefore, due, k);
    }

    /**
     * The drain loop of `runWork` (wheel.go:224-236): every entry on `doNow`
     * fires once, in order, and `doNow` ends empty. A fired entry is back on
     * the wheel exactly when it continues, at the back of the spoke where
     * `addTimer` places it, in firing order; an entry that was not on
     * `doNow` is untouched.
     */
    method Drain(nano: Int64)
      requires Valid()
      modifies this`home, this`doNow, this`entries, this`fired, spokes
      ensures Valid()
      ensures doNow == []
      ensures fired == old(fired) + old(doNow)
      ensures entries.Keys == old(entries).Keys
      ensures forall x :: x in old(doNow) ==>
                x in old(entries) && entries[x] == Fire(old(entries[x]), nano, granularity) &&
                (x in home <==> Continues(entries[x])) &&
                (x in home ==> home[x] == InSpoke(PlaceSpoke(entries[x].next, curTick)))
      ensures forall x :: x in old(entries) && x !in old(doNow) ==> entries[x] == old(entries[x])
      ensures forall x :: x in old(home) && x !in old(doNow) ==> x in home && home[x] == old(home[x])
      ensures spokes[..] == Requeued(old(spokes[..]), old(doNow), old(entries), nano, granularity, curTick)
      ensures Total() == old(Total()) - |old(doNow)| + Survivors(old(doNow), old(entries), nano, granularity)
    {
      ghost var sp0 := spokes[..];
      RequeuedStart(sp0, entries, nano, granularity, curTick);
      assert doNow[..0] == [];
      ghost var due := doNow;
      ghost var entries0 := entries;
      ghost var home0 := home;
      ghost var fired0 := fired;
      ghost var done: set<EntryId> := {};
      ghost var k := 0;
      while doNow != []
        invariant Valid()
        invariant Draining(sp0, due, k, entries0, home0, fired0, done, nano, old(Total()))
        decreases |doNow|
      {
        FireNext(nano, sp0, due, k, entries0, home0, fired0, done, old(Total()));
        done := done + {due[k]};
        k := k + 1;
      }
      assert due[..k] == due;
      FiredDone(entries0, entries, home0, home, due, done, nano, granularity, curTick);
    }

    /**
     * One wake-up of the worker in `runWork` (wheel.go:211-237): the tick
     * loop, then the drain loop. Unless a cascade gets stuck, the wheel ends
     * at the tick of `nano` with `doNow` empty; the jobs run are exactly the
     * entries the tick loop left on `doNow` (see `Run`), each once, in that
     * order, and the continuing ones are back on the spokes. Among them is
     * every entry that was on `doNow` or on a main slot the tick loop passed.
     */
    method Wake(nano: Int64) returns (stuck: bool)
      requires Valid()
      modifies this`curTick, this`home, this`doNow, this`entries, this`fired, spokes
      ensures Valid()
      ensures !stuck ==> curTick == TickOf(nano, granularity) && doNow == []
      ensures !stuck ==> |old(fired)| <= |fired|
      ensures !stuck ==>
                (forall e :: e in old(home) &&
                  (old(home[e]) == InDoNow ||
                   (old(home[e]).InSpoke? && old(home[e]).index < RSize &&
                    Passed(old(curTick), Sub32(TickOf(nano, granularity), old(curTick)), old(home[e]).index)))
                  ==> e in fired[|old(fired)|..])
      ensures !stuck ==>
                var R := Run(old(spokes[..]), old(doNow), old(home), old(entries), old(curTick),
                             Sub32(TickOf(nano, granularity), old(curTick)));
                fired == old(fired) + R.doNow && NoDup(R.doNow) &&
                spokes[..] == Requeued(R.spokes, R.doNow, old(entries), nano, granularity, curTick)
      ensures !stuck ==> entries.Keys == old(entries).Keys
      ensures !stuck ==>
                var R := Run(old(spokes[..]), old(doNow), old(home), old(entries), old(curTick),
                             Sub32(TickOf(nano, granularity), old(curTick)));
                (forall x :: x in R.doNow ==> x in old(entries) && entries[x] == Fire(old(entries[x]), nano, granularity) &&
                                              (x in home <==> Continues(entries[x]))) &&
                (forall x :: x in old(entries) && x !in R.doNow ==> entries[x] == old(entries[x]))
      ensures stuck <==> RunSpins(old(spokes[..]), old(doNow), old(home), old(entries), old(curTick),
                                  Sub32(TickOf(nano, granularity), old(curTick)))
      ensures stuck ==> exists level :: 0 <= level < CascadeDepth(curTick, NNum) && Spins(CascadeSpoke(curTick, level, NNum))
    {
      ghost var cascades;
      stuck, cascades := Advance(nano);
      if !stuck {
        AgreeNowAll(spokes[..], doNow, home);
        Drain(nano);
      }
    }
  }

  /**
   * The as-written cascade in the state of `AsWrittenCascadeStuck`: where
   * wheel.go:251-253 would loop forever, `Wheel.Cascade` reports `stuck`.
   */
  method AsWrittenCascadeReturnsStuck(w: Wheel, e: EntryId) returns (stuck: bool)
    requires w.Valid() && w.curTick == 0x4000
    requires e in w.entries && w.entries[e].next == 0x1_0000 && w.spokes[324] == [e]
    modifies w`home, w.spokes
    ensures stuck
  {
    AsWrittenCascadeStuck(w, e);
    stuck := w.Cascade();
  }
}
