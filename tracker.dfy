/**
 * The atlas coordinate allocator of kitty/fonts.c: the GPUSpriteTracker of a
 * font group and the process-wide texture limits it is laid out against.
 *
 * Slots are handed out in row-major order inside a layer (x first, then y),
 * then layer by layer (z).
 */
module SpriteTracker {
  import opened Common

  /** UINT16_MAX, the cap applied to xnum, max_y and the layer count. */
  const UINT16_MAX: nat := 0xFFFF

  /** The clamp `sprite_tracker_set_limits` applies to `max_array_len`. */
  const MAX_ARRAY_LEN_CLAMP: nat := 0xFFF

  /** The process-wide statics `max_texture_size` and `max_array_len`. */
  class Limits {
    var maxTextureSize: nat
    var maxArrayLen: nat

    /** Both statics start at 1024. */
    constructor ()
      ensures maxTextureSize == 1024 && maxArrayLen == 1024
    {
      maxTextureSize := 1024;
      maxArrayLen := 1024;
    }

    /** `sprite_tracker_set_limits`: the array length is clamped to 0xfff. */
    method SetLimits(mts: nat, mal: nat)
      modifies this
      ensures maxTextureSize == mts
      ensures maxArrayLen == Min(MAX_ARRAY_LEN_CLAMP, mal)
      ensures LayerCap() == maxArrayLen <= MAX_ARRAY_LEN_CLAMP
    {
      maxTextureSize := mts;
      maxArrayLen := Min(MAX_ARRAY_LEN_CLAMP, mal);
    }

    /** `MIN(UINT16_MAX, max_array_len)`: the number of layers the allocator may use. */
    function LayerCap(): (cap: nat)
      reads this
      ensures cap <= UINT16_MAX && cap <= maxArrayLen
      ensures maxArrayLen <= UINT16_MAX ==> cap == maxArrayLen
    {
      Min(UINT16_MAX, maxArrayLen)
    }
  }

  /** A snapshot of the tracker's fields. */
  datatype Layout = Layout(x: nat, y: nat, z: nat, xnum: nat, ynum: nat, maxY: nat)

  /** The invariant every reachable tracker keeps. */
  predicate ValidLayout(l: Layout)
  {
    && 1 <= l.xnum && 1 <= l.maxY
    && l.x < l.xnum
    && l.y < l.ynum <= l.maxY
  }

  /** The position of the tracker in the fill order: row-major inside a layer, then layer-major. */
  function Linear(l: Layout): nat
  {
    (l.z * l.maxY + l.y) * l.xnum + l.x
  }

  /** Slot (x, y, z) comes before the tracker position l in the fill order: layer, then row, then column. */
  predicate SlotBefore(x: nat, y: nat, z: nat, l: Layout)
  {
    z < l.z || (z == l.z && (y < l.y || (y == l.y && x < l.x)))
  }

  /** `MIN(MAX(1u, v), UINT16_MAX)`. */
  function Clamp(v: nat): (r: nat)
    ensures 1 <= r <= UINT16_MAX
    ensures v >= 1 && v <= UINT16_MAX ==> r == v
  {
    Min(Max(1, v), UINT16_MAX)
  }

  /** The layout `sprite_tracker_set_layout` installs for a cell size. */
  function LayoutFor(maxTextureSize: nat, cellWidth: nat, cellHeight: nat): (l: Layout)
    requires cellWidth > 0 && cellHeight > 0
    ensures ValidLayout(l) && Linear(l) == 0 && l.ynum == 1
    ensures l.xnum == Clamp(maxTextureSize / cellWidth) && l.maxY == Clamp(maxTextureSize / cellHeight)
  {
    Layout(0, 0, 0, Clamp(maxTextureSize / cellWidth), 1, Clamp(maxTextureSize / cellHeight))
  }

  /** The result of one `do_increment`: the new layout and whether error 2 was raised. */
  datatype Step = Step(layout: Layout, exhausted: bool)

  /**
   * `do_increment`: advance x; on reaching xnum wrap to the next row and grow
   * ynum; on reaching max_y wrap to the next layer; report exhaustion when the
   * layer reaches the cap.
   */
  function Next(l: Layout, cap: nat): (s: Step)
    requires ValidLayout(l)
    ensures ValidLayout(s.layout)
    ensures SlotBefore(l.x, l.y, l.z, s.layout)
    ensures forall x: nat, y: nat, z: nat :: SlotBefore(x, y, z, l) ==> SlotBefore(x, y, z, s.layout)
    ensures s.layout.xnum == l.xnum && s.layout.maxY == l.maxY
    ensures l.ynum <= s.layout.ynum
    ensures s.exhausted <==> s.layout.z != l.z && s.layout.z >= cap
  {
    if l.x + 1 < l.xnum then
      Step(l.(x := l.x + 1), false)
    else
      var y := l.y + 1;
      var ynum := Min(Max(l.ynum, y + 1), l.maxY);
      if y < l.maxY then
        Step(Layout(0, y, l.z, l.xnum, ynum, l.maxY), false)
      else
        Step(Layout(0, 0, l.z + 1, l.xnum, ynum, l.maxY), l.z + 1 >= cap)
  }

  /** Each `do_increment` moves the tracker exactly one slot along the fill order. */
  lemma NextAdvancesOne(l: Layout, cap: nat)
    requires ValidLayout(l)
    ensures Linear(Next(l, cap).layout) == Linear(l) + 1
  {
    var n := Next(l, cap).layout;
    if l.x + 1 >= l.xnum {
      if l.y + 1 < l.maxY {
        Distrib(l.z * l.maxY + l.y, 1, l.xnum);
      } else {
        Distrib(l.z, 1, l.maxY);
        Distrib(l.z * l.maxY + l.y, 1, l.xnum);
      }
    }
  }

  /** a <= b implies a * d <= b * d for non-negative d. */
  lemma MulMono(a: int, b: int, d: nat)
    requires a <= b
    ensures a * d <= b * d
  {
    assert b * d - a * d == (b - a) * d;
  }

  /** A linear index splits into whole layers plus an offset inside the layer. */
  lemma {:induction false} LinearSplit(l: Layout)
    requires ValidLayout(l)
    ensures Linear(l) == l.z * (l.maxY * l.xnum) + (l.y * l.xnum + l.x)
    ensures l.y * l.xnum + l.x < l.maxY * l.xnum
  {
    Distrib(l.z * l.maxY, l.y, l.xnum);
    Assoc(l.z, l.maxY, l.xnum);
    MulMono(l.y, l.maxY - 1, l.xnum);
    Distrib(l.maxY - 1, 1, l.xnum);
  }

  lemma Distrib(a: int, b: int, c: int)
    ensures (a + b) * c == a * c + b * c
  {
  }

  lemma Assoc(a: int, b: int, c: int)
    ensures (a * b) * c == a * (b * c)
  {
  }

  /** Quotient and remainder are unique. */
  lemma {:induction false} QuotRemUnique(q1: nat, r1: nat, q2: nat, r2: nat, d: nat)
    requires r1 < d && r2 < d
    requires q1 * d + r1 == q2 * d + r2
    ensures q1 == q2 && r1 == r2
  {
    if q1 < q2 {
      assert (q1 + 1) * d == q1 * d + d;
      MulMono(q1 + 1, q2, d);
    } else if q2 < q1 {
      assert (q2 + 1) * d == q2 * d + d;
      MulMono(q2 + 1, q1, d);
    }
  }

  /** Two valid positions with the same linear index are the same slot. */
  lemma {:induction false} LinearDetermines(a: Layout, b: Layout)
    requires ValidLayout(a) && ValidLayout(b)
    requires a.xnum == b.xnum && a.maxY == b.maxY
    requires Linear(a) == Linear(b)
    ensures a.x == b.x && a.y == b.y && a.z == b.z
  {
    SameOffsetInLayer(a, b);
    QuotRemUnique(a.y, a.x, b.y, b.x, a.xnum);
  }

  /** Equal linear indices put both positions at the same offset of the same layer. */
  lemma {:induction false} SameOffsetInLayer(a: Layout, b: Layout)
    requires ValidLayout(a) && ValidLayout(b)
    requires a.xnum == b.xnum && a.maxY == b.maxY
    requires Linear(a) == Linear(b)
    ensures a.z == b.z && a.y * a.xnum + a.x == b.y * a.xnum + b.x
  {
    LinearSplit(a);
    LinearSplit(b);
    QuotRemUnique(a.z, a.y * a.xnum + a.x, b.z, b.y * b.xnum + b.x, a.maxY * a.xnum);
  }

  /** Applies `do_increment` n times. */
  function Advance(l: Layout, cap: nat, n: nat): (r: Layout)
    requires ValidLayout(l)
    ensures ValidLayout(r) && r.xnum == l.xnum && r.maxY == l.maxY
    decreases n
  {
    if n == 0 then l else Advance(Next(l, cap).layout, cap, n - 1)
  }

  /** The tracker never hands out a slot twice: after n increments the position has moved by exactly n. */
  lemma {:induction false} AdvanceLinear(l: Layout, cap: nat, n: nat)
    requires ValidLayout(l)
    ensures Linear(Advance(l, cap, n)) == Linear(l) + n
    decreases n
  {
    if n > 0 {
      NextAdvancesOne(l, cap);
      AdvanceLinear(Next(l, cap).layout, cap, n - 1);
    }
  }

  /** Distinct increment counts give distinct slots. */
  lemma NoDuplicateSlots(l: Layout, cap: nat, m: nat, n: nat)
    requires ValidLayout(l) && m != n
    ensures var a, b := Advance(l, cap, m), Advance(l, cap, n); (a.x, a.y, a.z) != (b.x, b.y, b.z)
  {
    var a, b := Advance(l, cap, m), Advance(l, cap, n);
    AdvanceLinear(l, cap, m);
    AdvanceLinear(l, cap, n);
  }

  /** The tracker of a font group: its fields are updated in place by `do_increment`. */
  class Tracker {
    var x: nat
    var y: nat
    var z: nat
    var xnum: nat
    var ynum: nat
    var maxY: nat

    function State(): Layout
      reads this
    {
      Layout(x, y, z, xnum, ynum, maxY)
    }

    ghost predicate Valid()
      reads this
    {
      ValidLayout(State())
    }

    /** A zeroed tracker laid out for a cell size (what `calc_cell_metrics` installs). */
    constructor (limits: Limits, cellWidth: nat, cellHeight: nat)
      requires cellWidth > 0 && cellHeight > 0
      ensures Valid()
      ensures State() == LayoutFor(limits.maxTextureSize, cellWidth, cellHeight)
    {
      x, y, z := 0, 0, 0;
      xnum := Clamp(limits.maxTextureSize / cellWidth);
      ynum := 1;
      maxY := Clamp(limits.maxTextureSize / cellHeight);
    }

    /** `sprite_tracker_set_layout`: recompute xnum and max_y and restart at the origin. */
    method SetLayout(limits: Limits, cellWidth: nat, cellHeight: nat)
      requires cellWidth > 0 && cellHeight > 0
      modifies this
      ensures Valid()
      ensures State() == LayoutFor(limits.maxTextureSize, cellWidth, cellHeight)
    {
      xnum := Clamp(limits.maxTextureSize / cellWidth);
      maxY := Clamp(limits.maxTextureSize / cellHeight);
      ynum := 1;
      x := 0;
      y := 0;
      z := 0;
    }

    /** `do_increment`; `exhausted` is the source's `*error = 2`. */
    method Increment(cap: nat) returns (exhausted: bool)
      requires Valid()
      modifies this
      ensures Valid()
      ensures State() == Next(old(State()), cap).layout
      ensures exhausted == Next(old(State()), cap).exhausted
    {
      exhausted := false;
      x := x + 1;
      if x >= xnum {
        x := 0;
        y := y + 1;
        ynum := Min(Max(ynum, y + 1), maxY);
        if y >= maxY {
          y := 0;
          z := z + 1;
          if z >= cap {
            exhausted := true;
          }
        }
      }
    }

    /** `sprite_tracker_current_layout`: (xnum, ynum, z). */
    method CurrentLayout() returns (xn: nat, yn: nat, zn: nat)
      ensures xn == xnum && yn == ynum && zn == z
    {
      xn, yn, zn := xnum, ynum, z;
    }
  }

  // ---------------------------------------------------------------------
  // Handing out one slot, as `sprite_position_for` does on a cache miss.

  /** One allocation: the slot handed out (if any), the tracker afterwards, and the error code. */
  datatype Allocation = Allocation(slot: Option<(nat, nat, nat)>, layout: Layout, exhausted: bool)

  /**
   * As written: the current position is handed out unconditionally and then
   * `do_increment` runs, so error 2 is reported together with the last valid
   * slot, and later calls hand out slots in layers at or beyond the cap.
   */
  function AllocateAsWritten(l: Layout, cap: nat): (a: Allocation)
    requires ValidLayout(l)
    ensures a.slot == Some((l.x, l.y, l.z))
  {
    var s := Next(l, cap);
    Allocation(Some((l.x, l.y, l.z)), s.layout, s.exhausted)
  }

  /**
   * Corrected: a slot is handed out only while the tracker is inside the layer
   * cap; otherwise nothing is allocated and error 2 is reported.
   */
  function Allocate(l: Layout, cap: nat): (a: Allocation)
    requires ValidLayout(l)
    ensures ValidLayout(a.layout)
    ensures a.slot.Some? <==> l.z < cap
    ensures a.slot.Some? ==> a.slot.value == (l.x, l.y, l.z) && a.slot.value.2 < cap && !a.exhausted
    ensures a.slot.Some? ==> a.layout == Next(l, cap).layout
    ensures a.slot.None? ==> a.layout == l && a.exhausted
  {
    if l.z < cap then Allocation(Some((l.x, l.y, l.z)), Next(l, cap).layout, false)
    else Allocation(None, l, true)
  }

  /**
   * The discrepancy: with two slots per layer and one layer, the second
   * allocation reports exhaustion although it handed out a valid slot, and the
   * third hands out a slot in layer 1 (beyond the single allowed layer) with no
   * error at all.
   */
  lemma AsWrittenHandsOutSlotBeyondCap()
    ensures var l0 := Layout(0, 0, 0, 2, 1, 1);
      var a1 := AllocateAsWritten(l0, 1);
      var a2 := AllocateAsWritten(a1.layout, 1);
      var a3 := AllocateAsWritten(a2.layout, 1);
      && !a1.exhausted && a2.exhausted && a2.slot == Some((1, 0, 0))
      && a3.slot == Some((0, 0, 1)) && !a3.exhausted
  {
    var l0 := Layout(0, 0, 0, 2, 1, 1);
    assert Next(l0, 1) == Step(Layout(1, 0, 0, 2, 1, 1), false);
    assert Next(Layout(1, 0, 0, 2, 1, 1), 1) == Step(Layout(0, 0, 1, 2, 1, 1), true);
    assert Next(Layout(0, 0, 1, 2, 1, 1), 1) == Step(Layout(1, 0, 1, 2, 1, 1), false);
  }

  /** The corrected allocator refuses the third request of the same example. */
  lemma AllocateRefusesBeyondCap()
    ensures var l0 := Layout(0, 0, 0, 2, 1, 1);
      var a1 := Allocate(l0, 1);
      var a2 := Allocate(a1.layout, 1);
      var a3 := Allocate(a2.layout, 1);
      && a1.slot == Some((0, 0, 0)) && a2.slot == Some((1, 0, 0)) && !a2.exhausted
      && a3.slot.None? && a3.exhausted
  {
    var l0 := Layout(0, 0, 0, 2, 1, 1);
    assert Next(l0, 1) == Step(Layout(1, 0, 0, 2, 1, 1), false);
    assert Next(Layout(1, 0, 0, 2, 1, 1), 1) == Step(Layout(0, 0, 1, 2, 1, 1), true);
  }

  /** Applies the corrected allocator n times. */
  function AllocateN(l: Layout, cap: nat, n: nat): (r: Layout)
    requires ValidLayout(l)
    ensures ValidLayout(r) && r.xnum == l.xnum && r.maxY == l.maxY
    decreases n
  {
    if n == 0 then l else AllocateN(Allocate(l, cap).layout, cap, n - 1)
  }

  /**
   * Capacity: from the origin, the corrected allocator grants exactly
   * xnum * max_y * cap requests and refuses every later one.
   */
  lemma {:induction false} AllocateCapacity(l: Layout, cap: nat, n: nat)
    requires ValidLayout(l) && Linear(l) == 0
    ensures var r := AllocateN(l, cap, n);
      && Linear(r) == Min(n, l.xnum * l.maxY * cap)
      && (Allocate(r, cap).slot.Some? <==> n < l.xnum * l.maxY * cap)
  {
    var total := l.xnum * l.maxY * cap;
    if n > 0 {
      AllocateCapacity(l, cap, n - 1);
      AllocateNStep(l, cap, n - 1);
      NextAdvancesOne(AllocateN(l, cap, n - 1), cap);
      LayerBelowCap(AllocateN(l, cap, n - 1), cap);
    }
    LayerBelowCap(AllocateN(l, cap, n), cap);
  }

  /** Unfolds AllocateN at its far end. */
  lemma {:induction false} AllocateNStep(l: Layout, cap: nat, n: nat)
    requires ValidLayout(l)
    ensures AllocateN(l, cap, n + 1) == Allocate(AllocateN(l, cap, n), cap).layout
    decreases n
  {
    if n > 0 {
      AllocateNStep(Allocate(l, cap).layout, cap, n - 1);
    }
  }

  /** A position lies below the layer cap exactly when its linear index is below cap whole layers. */
  lemma {:induction false} LayerBelowCap(l: Layout, cap: nat)
    requires ValidLayout(l)
    ensures l.z < cap <==> Linear(l) < l.xnum * l.maxY * cap
  {
    var per := l.maxY * l.xnum;
    LinearSplit(l);
    assert l.xnum * l.maxY * cap == cap * per;
    if l.z < cap {
      MulMono(l.z + 1, cap, per);
      assert (l.z + 1) * per == l.z * per + per;
    } else {
      MulMono(cap, l.z, per);
    }
  }
}
