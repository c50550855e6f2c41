/**
 * Slot addressing of the wheel: the radix decomposition that `addTimer`
 * applies to `next - curTick` (wheel.go:260-275) and the per-level index that
 * `cascade` drains (wheel.go:247-258). Everything here is arithmetic on
 * `uint32` values; a shift `x >> k` is `x / 2^k` and a mask `x & (2^k - 1)`
 * is `x % 2^k`.
 */
module Slots {
  import opened Ticks

  const RBits: nat := 8    // tvRBits: bits of the main level
  const NBits: nat := 6    // tvNBits: bits of each cascade level
  const NNum: nat := 4     // tvNNum: number of cascade levels
  const RSize: nat := 256  // tvRSize: slots of the main level
  const NSize: nat := 64   // tvNSize: slots of each cascade level

  /** Length of the `spokes` array: 256 main slots followed by 4 levels of 64. */
  const SpokeCount: nat := 512

  function Pow2(k: nat): (r: nat)
    ensures r >= 1
  {
    if k == 0 then 1 else 2 * Pow2(k - 1)
  }

  /** `x >> k` on an unsigned value. */
  function Shr(x: nat, k: nat): nat
  {
    var d := Pow2(k);
    QuotientNat(x, d);
    x / d
  }

  lemma QuotientNat(x: nat, d: nat)
    requires d > 0
    ensures x / d >= 0
  {
  }

  lemma Pow2Values()
    ensures Pow2(6) == 0x40 && Pow2(8) == 0x100 && Pow2(12) == 0x1000
    ensures Pow2(14) == 0x4000 && Pow2(16) == 0x1_0000 && Pow2(20) == 0x10_0000
    ensures Pow2(26) == 0x400_0000
  {
    assert Pow2(6) == 0x40;
    assert Pow2(8) == 0x100;
    assert Pow2(12) == 0x1000;
    assert Pow2(14) == 0x4000;
    assert Pow2(16) == 0x1_0000;
    assert Pow2(20) == 0x10_0000;
    assert Pow2(26) == 0x400_0000;
  }

  /** Bit offset of level `level`'s digit as `addTimer` computes it (wheel.go:272): 8 + 6L. */
  function LevelShift(level: nat): nat
  {
    RBits + NBits * level
  }

  /**
   * The cascade level `addTimer` picks for a distance of at least 256 ticks
   * (wheel.go:268-271): the least level whose 6-bit digit window still holds
   * the rest of `delta`, or the last level when none does.
   */
  function PlaceLevel(delta: U32): (level: nat)
    requires delta >= RSize
    ensures level < NNum
    ensures level < NNum - 1 ==> Shr(delta, LevelShift(level)) < NSize
    ensures forall j :: 0 <= j < level ==> Shr(delta, LevelShift(j)) >= NSize
  {
    if Shr(delta, LevelShift(0)) < NSize then 0
    else if Shr(delta, LevelShift(1)) < NSize then 1
    else if Shr(delta, LevelShift(2)) < NSize then 2
    else 3
  }

  /**
   * The spoke `addTimer` pushes an entry with deadline `next` onto when the
   * wheel stands at tick `cur` (wheel.go:263-273).
   */
  function PlaceSpoke(next: U32, cur: U32): (spoke: nat)
    ensures spoke < SpokeCount
  {
    var delta := Sub32(next, cur);
    if delta < RSize then next % RSize
    else
      var level := PlaceLevel(delta);
      RSize + NSize * level + Shr(next, LevelShift(level)) % NSize
  }

  /** The main-level slot the tick loop empties into `doNow` at tick `tick` (wheel.go:217, 221). */
  function MainIndex(tick: U32): nat
  {
    tick % RSize
  }

  /** The tick `k` increments after `tick`, with `uint32` wrap-around. */
  function Later(tick: U32, k: nat): U32
  {
    (tick + k) % TwoTo32
  }

  /** Advancing `start` by the `uint32` distance to `t` reaches `t`. */
  lemma LaterSub(t: U32, start: U32)
    ensures Later(start, Sub32(t, start)) == t
  {
  }

  /**
   * An entry less than 256 ticks away sits in the main slot that the tick
   * loop reaches exactly when the wheel arrives at its deadline, and not at
   * any earlier tick of the coming turn; a deadline equal to the current tick
   * is therefore reached only after a full turn of 256 ticks.
   */
  lemma MainSlotReachedAtDeadline(next: U32, cur: U32)
    requires Sub32(next, cur) < RSize
    ensures PlaceSpoke(next, cur) < RSize
    ensures var wait := if next == cur then RSize else Sub32(next, cur);
            forall k :: 1 <= k <= RSize ==> (MainIndex(Later(cur, k)) == PlaceSpoke(next, cur) <==> k == wait)
  {
    var delta := Sub32(next, cur);
    var wait := if next == cur then RSize else delta;
    assert next == (cur + delta) % TwoTo32;
    ModOfWrap(cur + delta);
    assert PlaceSpoke(next, cur) == (cur + delta) % RSize;
    forall k | 1 <= k <= RSize
      ensures MainIndex(Later(cur, k)) == PlaceSpoke(next, cur) <==> k == wait
    {
      ModOfWrap(cur + k);
      SameLowByte(cur, k, delta);
    }
  }

  lemma SameLowByte(a: nat, k: nat, d: nat)
    requires 1 <= k <= RSize && d < RSize
    ensures (a + k) % RSize == (a + d) % RSize <==> k == (if d == 0 then RSize else d)
  {
    var x, y := a + d, a + k;
    assert x == (x / RSize) * RSize + x % RSize;
    assert y == (y / RSize) * RSize + y % RSize;
    if k == (if d == 0 then RSize else d) {
      if d == 0 {
        DivModUnique(y, RSize, x / RSize + 1, x % RSize);
      }
    }
  }

  /** Reducing modulo 2^32 keeps the low 8 bits. */
  lemma ModOfWrap(x: nat)
    ensures (x % TwoTo32) % RSize == x % RSize
  {
    var q := x / TwoTo32;
    assert x == q * TwoTo32 + x % TwoTo32;
    assert q * TwoTo32 == (q * 0x100_0000) * RSize;
  }

  /*
   * Division and powers of two.
   */

  lemma {:induction false} Pow2Add(a: nat, b: nat)
    ensures Pow2(a + b) == Pow2(a) * Pow2(b)
    decreases a
  {
    if a > 0 {
      Pow2Add(a - 1, b);
      assert Pow2(a + b) == 2 * Pow2(a - 1 + b);
    }
  }

  /** Euclidean division is determined by its quotient and remainder. */
  lemma DivModUnique(x: int, m: int, q: int, r: int)
    requires m > 0 && x == q * m + r && 0 <= r < m
    ensures x / m == q && x % m == r
  {
    var q', r' := x / m, x % m;
    assert x == q' * m + r';
    assert (q - q') * m == r' - r;
    if q > q' {
      MulAtLeast(q - q', m);
    } else if q < q' {
      MulAtLeast(q' - q, m);
    }
  }

  lemma MulAtLeast(k: int, m: int)
    requires k >= 1 && m > 0
    ensures k * m >= m
  {
  }

  lemma DivBelow(x: nat, m: nat, k: nat)
    requires m > 0 && x < k * m
    ensures x / m < k
  {
    assert x == (x / m) * m + x % m;
  }

  lemma DivAtLeast(x: nat, m: nat, k: nat)
    requires m > 0 && x / m >= k
    ensures x >= k * m
  {
    assert x == (x / m) * m + x % m;
    assert (x / m - k) * m >= 0;
  }

  /** Shifting a multiple of `2^(a+b)` right by `a` leaves a multiple of `2^b`. */
  lemma ShrOfMultiple(q: nat, a: nat, b: nat)
    ensures Shr(q * Pow2(a + b), a) == q * Pow2(b)
  {
    Pow2Add(a, b);
    assert q * Pow2(a + b) == (q * Pow2(b)) * Pow2(a) + 0;
    DivModUnique(q * Pow2(a + b), Pow2(a), q * Pow2(b), 0);
  }

  lemma MulRegroup(q: int, n: int, x: int)
    ensures q * (n * x) == (q * x) * n + 0
  {
  }

  /** A multiple of `2^b` with `b >= 6` has a zero low 6-bit digit. */
  lemma MultipleHasZeroDigit(q: nat, b: nat)
    requires b >= NBits
    ensures (q * Pow2(b)) % NSize == 0
  {
    var x := Pow2(b - NBits);
    Pow2Add(NBits, b - NBits);
    assert Pow2(NBits) == NSize;
    MulRegroup(q, NSize, x);
    DivModUnique(q * Pow2(b), NSize, q * x, 0);
  }

  /** One more `idx >>= tvNBits` moves from one level's digit window to the next (wheel.go:270). */
  lemma ShrNextLevel(x: nat, level: nat)
    ensures Shr(x, LevelShift(level)) / NSize == Shr(x, LevelShift(level + 1))
  {
    Pow2Add(LevelShift(level), NBits);
    Pow2Values();
    var P := Pow2(LevelShift(level));
    var q := x / (P * NSize);
    var r := x % (P * NSize);
    assert x == (q * NSize + r / P) * P + r % P by {
      assert r == (r / P) * P + r % P;
    }
    DivBelow(r, P, NSize);
    DivModUnique(x, P, q * NSize + r / P, r % P);
    DivModUnique(q * NSize + r / P, NSize, q, r / P);
  }

  /**
   * The distances each cascade level holds: level L receives every delta in
   * [2^(8+6L), 2^(14+6L)), and the last level every delta from 2^26 up.
   */
  lemma PlaceLevelSpan(delta: U32)
    requires delta >= RSize
    ensures Pow2(LevelShift(PlaceLevel(delta))) <= delta
    ensures PlaceLevel(delta) < NNum - 1 ==> delta < Pow2(LevelShift(PlaceLevel(delta)) + NBits)
  {
    var level := PlaceLevel(delta);
    Pow2Values();
    if level > 0 {
      DivAtLeast(delta, Pow2(LevelShift(level - 1)), NSize);
      Pow2Add(LevelShift(level - 1), NBits);
    }
    if level < NNum - 1 {
      Pow2Add(LevelShift(level), NBits);
      assert delta / Pow2(LevelShift(level)) < NSize;
      if delta >= Pow2(LevelShift(level) + NBits) {
        assert delta >= NSize * Pow2(LevelShift(level));
        DivModUnique(NSize * Pow2(LevelShift(level)), Pow2(LevelShift(level)), NSize, 0);
        DivMonotone(NSize * Pow2(LevelShift(level)), delta, Pow2(LevelShift(level)));
      }
    }
  }

  lemma DivMonotone(x: nat, y: nat, m: nat)
    requires m > 0 && x <= y
    ensures x / m <= y / m
  {
    assert x == (x / m) * m + x % m;
    assert y == (y / m) * m + y % m;
    if x / m > y / m {
      MulAtLeast(x / m - y / m, m);
    }
  }

  /*
   * The cascade step.
   */

  /**
   * Bit offset of level `level`'s index in `cascade` (wheel.go:249):
   * `tvRBits + level*perLevel`. The source multiplies by `tvNNum` (4), so it
   * calls these functions with `perLevel == NNum`; `addTimer` places entries
   * with `tvNBits` (6) bits per level, and `perLevel == NBits` is the offset
   * that matches it.
   */
  function CascadeShift(level: nat, perLevel: nat): nat
  {
    RBits + level * perLevel
  }

  /** `int((curTick >> shift) & tvNMask)` (wheel.go:249). */
  function CascadeIndex(tick: U32, level: nat, perLevel: nat): nat
  {
    Shr(tick, CascadeShift(level, perLevel)) % NSize
  }

  /** The spoke `cascade` drains at level `level` (wheel.go:250). */
  function CascadeSpoke(tick: U32, level: nat, perLevel: nat): (spoke: nat)
    requires level < NNum
    ensures RSize + NSize * level <= spoke < RSize + NSize * (level + 1) <= SpokeCount
  {
    RSize + NSize * level + CascadeIndex(tick, level, perLevel)
  }

  /**
   * How many levels `cascade` visits when it starts at `level`
   * (wheel.go:248, 254-256): it goes on to the next level only when this
   * level's index is zero and another level exists.
   */
  function DepthFrom(tick: U32, level: nat, perLevel: nat): (depth: nat)
    requires level < NNum
    ensures level < depth <= NNum
    ensures forall j :: level <= j < depth - 1 ==> CascadeIndex(tick, j, perLevel) == 0
    ensures depth < NNum ==> CascadeIndex(tick, depth - 1, perLevel) != 0
    decreases NNum - level
  {
    if CascadeIndex(tick, level, perLevel) == 0 && level + 1 < NNum then
      DepthFrom(tick, level + 1, perLevel)
    else
      level + 1
  }

  /** The number of levels one `cascade` call visits, so also the number of spokes it drains. */
  function CascadeDepth(tick: U32, perLevel: nat): (depth: nat)
    ensures 1 <= depth <= NNum
  {
    DepthFrom(tick, 0, perLevel)
  }

  /** Cascade reaches every level below the first level whose index is non-zero. */
  lemma ReachesLevel(tick: U32, level: nat, perLevel: nat)
    requires level < NNum
    requires forall j :: 0 <= j < level ==> CascadeIndex(tick, j, perLevel) == 0
    ensures level < CascadeDepth(tick, perLevel)
  {
  }

  /**
   * With the offset that matches `addTimer` (8 + 6L), an entry placed on a
   * cascade level is collected in time: at the tick `t` obtained by clearing
   * the bits of its deadline below its level's digit, a tick that comes after
   * the placement and not after the deadline, the main index is 0, the
   * cascade reaches the entry's level, drains exactly the entry's spoke, and
   * re-places the entry on the main level or on a strictly lower level.
   */
  lemma CorrectedCascadeCollects(next: U32, cur: U32) returns (t: U32)
    requires Sub32(next, cur) >= RSize
    ensures 0 < Sub32(t, cur) <= Sub32(next, cur)
    ensures MainIndex(t) == 0
    ensures PlaceLevel(Sub32(next, cur)) < CascadeDepth(t, NBits)
    ensures CascadeSpoke(t, PlaceLevel(Sub32(next, cur)), NBits) == PlaceSpoke(next, cur)
    ensures Sub32(next, t) < RSize || PlaceLevel(Sub32(next, t)) < PlaceLevel(Sub32(next, cur))
  {
    t := ClearedTick(next, cur);
    ClearedTickSpoke(next, cur);
  }

  /** The tick `CorrectedCascadeCollects` names: `next` with the bits below its level's digit cleared. */
  function CollectTick(next: U32, cur: U32): (t: U32)
    requires Sub32(next, cur) >= RSize
  {
    var width := Pow2(LevelShift(PlaceLevel(Sub32(next, cur))));
    ModBelow(next, width);
    next - next % width
  }

  lemma ModBelow(x: nat, m: nat)
    requires m > 0
    ensures 0 <= x % m <= x
  {
    if x < m {
      DivModUnique(x, m, 0, x);
    }
  }

  lemma ClearedTick(next: U32, cur: U32) returns (t: U32)
    requires Sub32(next, cur) >= RSize
    ensures t == CollectTick(next, cur)
    ensures 0 < Sub32(t, cur) <= Sub32(next, cur)
    ensures Sub32(next, t) < RSize || PlaceLevel(Sub32(next, t)) < PlaceLevel(Sub32(next, cur))
  {
    var delta := Sub32(next, cur);
    var level := PlaceLevel(delta);
    var P := Pow2(LevelShift(level));
    assert P <= delta by {
      PlaceLevelSpan(delta);
    }
    var r := ClearBelow(next, cur, P);
    t := next - r;
    if r >= RSize {
      RemainderIsLower(r, level);
    }
  }

  lemma ClearedTickSpoke(next: U32, cur: U32)
    requires Sub32(next, cur) >= RSize
    ensures MainIndex(CollectTick(next, cur)) == 0
    ensures PlaceLevel(Sub32(next, cur)) < CascadeDepth(CollectTick(next, cur), NBits)
    ensures CascadeSpoke(CollectTick(next, cur), PlaceLevel(Sub32(next, cur)), NBits) == PlaceSpoke(next, cur)
  {
    var level := PlaceLevel(Sub32(next, cur));
    var q := ClearedTickQuotient(next, cur);
    ClearedTickDigits(q, level);
    ReachesLevel(CollectTick(next, cur), level, NBits);
  }

  /** `CollectTick` is the deadline's quotient by its level's slot width, times that width. */
  lemma ClearedTickQuotient(next: U32, cur: U32) returns (q: nat)
    requires Sub32(next, cur) >= RSize
    ensures var level := PlaceLevel(Sub32(next, cur));
            CollectTick(next, cur) == q * Pow2(LevelShift(level)) &&
            PlaceSpoke(next, cur) == RSize + NSize * level + q % NSize
  {
    var level := PlaceLevel(Sub32(next, cur));
    var P := Pow2(LevelShift(level));
    q := SplitAt(next, P);
    assert Shr(next, LevelShift(level)) == q;
  }


  lemma SplitAt(x: nat, P: nat) returns (q: nat)
    requires P > 0
    ensures q == x / P && x - x % P == q * P
  {
    q := x / P;
  }

  /** Clearing the low bits of `next` below a slot width `P <= next - cur` gives a tick between the two. */
  lemma ClearBelow(next: U32, cur: U32, P: nat) returns (r: nat)
    requires 0 < P <= Sub32(next, cur)
    ensures r == next % P && r < P
    ensures Sub32(next - r, cur) == Sub32(next, cur) - r > 0
    ensures Sub32(next, next - r) == r
  {
    r := next % P;
    var delta := Sub32(next, cur);
    assert next - cur == delta + TwoTo32 * ((next - cur) / TwoTo32);
    DivModUnique(next - r - cur, TwoTo32, (next - cur) / TwoTo32, delta - r);
  }

  /** A multiple of level `level`'s slot width has zero main index and zero digits below that level. */
  lemma ClearedTickDigits(q: nat, level: nat)
    requires level < NNum && q * Pow2(LevelShift(level)) < TwoTo32
    ensures MainIndex(q * Pow2(LevelShift(level))) == 0
    ensures forall j :: 0 <= j < level ==> CascadeIndex(q * Pow2(LevelShift(level)), j, NBits) == 0
    ensures CascadeIndex(q * Pow2(LevelShift(level)), level, NBits) == q % NSize
  {
    var t := q * Pow2(LevelShift(level));
    Pow2Add(RBits, NBits * level);
    Pow2Values();
    assert t == (q * Pow2(NBits * level)) * RSize + 0;
    DivModUnique(t, RSize, q * Pow2(NBits * level), 0);
    forall j | 0 <= j < level
      ensures CascadeIndex(t, j, NBits) == 0
    {
      assert CascadeShift(j, NBits) + NBits * (level - j) == LevelShift(level);
      ShrOfMultiple(q, CascadeShift(j, NBits), NBits * (level - j));
      MultipleHasZeroDigit(q, NBits * (level - j));
    }
    ShrOfMultiple(q, LevelShift(level), 0);
  }

  /** A distance shorter than one slot of level `level` is placed below that level. */
  lemma RemainderIsLower(r: U32, level: nat)
    requires RSize <= r < Pow2(LevelShift(level))
    ensures PlaceLevel(r) < level
  {
    Pow2Values();
    if level > 0 {
      Pow2Add(LevelShift(level - 1), NBits);
      DivBelow(r, Pow2(LevelShift(level - 1)), NSize);
    }
  }

  /**
   * As written (offset 8 + 4L), the level-1 index is drained only when the
   * level-0 index is zero, that is when the tick is a multiple of 2^14; the
   * tick's bits 12..17 are then a multiple of 4. Spoke 321 (level 1, digit 1)
   * is never drained, yet `addTimer` puts there an entry whose deadline is
   * 16384 ticks after a wheel standing at tick 0.
   */
  lemma AsWrittenStrandsSpoke()
    ensures PlaceSpoke(0x4000, 0) == 321
    ensures forall t: U32, level: nat :: MainIndex(t) == 0 && level < CascadeDepth(t, NNum) ==>
              CascadeSpoke(t, level, NNum) != 321
  {
    Pow2Values();
    assert Sub32(0x4000, 0) == 0x4000 && Shr(0x4000, LevelShift(0)) == 0x40;
    assert Shr(0x4000, LevelShift(1)) == 1;
    assert PlaceLevel(0x4000) == 1;
    forall t: U32, level: nat | MainIndex(t) == 0 && level < CascadeDepth(t, NNum)
      ensures CascadeSpoke(t, level, NNum) != 321
    {
      if level == 1 {
        assert CascadeIndex(t, 0, NNum) == 0;
        var m := t / 0x4000;
        assert t / 0x100 == (t / 0x4000) * 0x40 + (t / 0x100) % 0x40 by {
          DivModUnique(t / 0x100, 0x40, (t / 0x100) / 0x40, (t / 0x100) % 0x40);
          ShrNextLevel(t, 0);
        }
        assert t == m * 0x4000 + t % 0x4000;
        assert t % 0x4000 < 0x100 by {
          assert t == (t / 0x100) * 0x100 + t % 0x100;
        }
        DivModUnique(t, 0x1000, m * 4, t % 0x4000);
        DivModUnique(m * 4, NSize, m / 16, (m % 16) * 4);
      }
    }
  }

  /**
   * As written, the drain loop of `cascade` (wheel.go:251-253) can spin:
   * an entry whose deadline is 65536 ticks after a wheel at tick 0 goes to
   * spoke 324; at tick 16384 the cascade reaches level 1 and drains spoke
   * 324, and `addTimer` pushes the entry back onto that same spoke, so the
   * spoke never becomes empty.
   */
  lemma AsWrittenCascadeSpins()
    ensures PlaceSpoke(0x1_0000, 0) == 324
    ensures MainIndex(0x4000) == 0 && 1 < CascadeDepth(0x4000, NNum)
    ensures CascadeSpoke(0x4000, 1, NNum) == 324
    ensures PlaceSpoke(0x1_0000, 0x4000) == 324
  {
    PlacedOnSpoke324();
    CascadeAt0x4000();
  }

  lemma PlacedOnSpoke324()
    ensures PlaceSpoke(0x1_0000, 0) == 324
    ensures PlaceSpoke(0x1_0000, 0x4000) == 324
  {
    Pow2Values();
    assert Shr(0x1_0000, LevelShift(1)) == 4;
    assert Sub32(0x1_0000, 0) == 0x1_0000 && Shr(0x1_0000, LevelShift(0)) == 0x100;
    assert PlaceLevel(0x1_0000) == 1;
    assert Sub32(0x1_0000, 0x4000) == 0xC000 && Shr(0xC000, LevelShift(0)) == 0xC0;
    assert Shr(0xC000, LevelShift(1)) == 3;
    assert PlaceLevel(0xC000) == 1;
  }

  lemma CascadeAt0x4000()
    ensures MainIndex(0x4000) == 0 && 1 < CascadeDepth(0x4000, NNum)
    ensures CascadeSpoke(0x4000, 1, NNum) == 324
  {
    Pow2Values();
    assert Shr(0x4000, CascadeShift(0, NNum)) == 0x40;
    assert Shr(0x4000, CascadeShift(1, NNum)) == 4;
    ReachesLevel(0x4000, 1, NNum);
  }

  /**
   * At level 0 the two offsets agree, so entries on level 0 are collected as
   * `CorrectedCascadeCollects` states by the cascade as written too.
   */
  lemma AsWrittenCollectsLevelZero(next: U32, cur: U32) returns (t: U32)
    requires Sub32(next, cur) >= RSize && PlaceLevel(Sub32(next, cur)) == 0
    ensures 0 < Sub32(t, cur) <= Sub32(next, cur)
    ensures MainIndex(t) == 0
    ensures CascadeSpoke(t, 0, NNum) == PlaceSpoke(next, cur)
    ensures Sub32(next, t) < RSize
  {
    t := CorrectedCascadeCollects(next, cur);
    assert CascadeShift(0, NNum) == CascadeShift(0, NBits);
  }

  /*
   * The ticks at which the tick loop cascades.
   */

  lemma LaterStep(start: U32, k: nat)
    ensures Inc32(Later(start, k)) == Later(start, k + 1)
  {
    var x := start + k;
    assert x == (x / TwoTo32) * TwoTo32 + x % TwoTo32;
    DivModUnique(x + 1, TwoTo32, x / TwoTo32 + (x % TwoTo32 + 1) / TwoTo32, (x % TwoTo32 + 1) % TwoTo32);
  }

  /**
   * The ticks among the `n` ticks after `start`, in order, at which the main
   * index wraps to 0 (wheel.go:216-220): the ticks at which the tick loop
   * calls `cascade`.
   */
  function WrapTicks(start: U32, n: nat): (ticks: seq<U32>)
    ensures forall i :: 0 <= i < |ticks| ==> MainIndex(ticks[i]) == 0
  {
    if n == 0 then []
    else WrapTicks(start, n - 1) + (if MainIndex(Later(start, n)) == 0 then [Later(start, n)] else [])
  }

  /** Cascade runs once per full turn of the main level: once in every 256 consecutive ticks. */
  lemma {:induction false} CascadeOncePerTurn(start: U32, n: nat)
    ensures |WrapTicks(start, n)| == (start % RSize + n) / RSize
  {
    if n > 0 {
      CascadeOncePerTurn(start, n - 1);
      ModOfWrap(start + n);
      var a := start % RSize + n;
      assert start + n == (start / RSize) * RSize + a;
      assert a % RSize == (start + n) % RSize by {
        DivModUnique(start + n, RSize, start / RSize + a / RSize, a % RSize);
      }
      assert a == (a / RSize) * RSize + a % RSize;
      assert a - 1 == ((a - 1) / RSize) * RSize + (a - 1) % RSize;
    }
  }
}
