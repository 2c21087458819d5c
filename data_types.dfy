/**
 * Bit-packed cell attributes, cell records and the in-place array helpers of
 * kitty/data-types.h.
 */
module DataTypes {
  import opened Common

  /** attrs_type is a 16-bit unsigned integer. */
  type Attrs = bv16

  const WIDTH_MASK: Attrs := 3
  const DECORATION_SHIFT: bv16 := 2
  const DECORATION_MASK: Attrs := 3
  const BOLD_SHIFT: bv16 := 4
  const ITALIC_SHIFT: bv16 := 5
  const REVERSE_SHIFT: bv16 := 6
  const STRIKE_SHIFT: bv16 := 7
  const DIM_SHIFT: bv16 := 8

  /** BLANK_CHAR. */
  const BLANK_CHAR: nat := 0

  /** The cursor fields that CURSOR_TO_ATTRS packs: decoration is a uint8, the rest are bools. */
  datatype Style = Style(decoration: bv8, bold: bool, italic: bool, reverse: bool, strikethrough: bool, dim: bool)

  /** A C bool promoted to an integer. */
  function Bit(b: bool): Attrs { if b then 1 else 0 }

  /** CURSOR_TO_ATTRS(c, w): the width is or-ed in unmasked. */
  function CursorToAttrs(s: Style, w: Attrs): Attrs
  {
    w
    | (((s.decoration & 3) as bv16) << DECORATION_SHIFT)
    | (Bit(s.bold) << BOLD_SHIFT)
    | (Bit(s.italic) << ITALIC_SHIFT)
    | (Bit(s.reverse) << REVERSE_SHIFT)
    | (Bit(s.strikethrough) << STRIKE_SHIFT)
    | (Bit(s.dim) << DIM_SHIFT)
  }

  /** ATTRS_TO_CURSOR(a, c), as a value: each field is read back from its bit position. */
  function AttrsToCursor(a: Attrs): Style
  {
    Style(((a >> DECORATION_SHIFT) & 3) as bv8,
          (a >> BOLD_SHIFT) & 1 == 1,
          (a >> ITALIC_SHIFT) & 1 == 1,
          (a >> REVERSE_SHIFT) & 1 == 1,
          (a >> STRIKE_SHIFT) & 1 == 1,
          (a >> DIM_SHIFT) & 1 == 1)
  }

  /** The style CURSOR_TO_ATTRS can represent: the decoration keeps only its low two bits. */
  function Normalized(s: Style): Style
  {
    s.(decoration := s.decoration & 3)
  }

  /** The cell width packed in the low bits (`attrs & WIDTH_MASK`). */
  function Width(a: Attrs): nat
  {
    (a & WIDTH_MASK) as nat
  }

  /** BI_VAL(attrs). */
  function BiVal(a: Attrs): nat
  {
    ((a >> 4) & 3) as nat
  }

  /**
   * Round trip: unpacking a packed style gives the style back (decoration
   * masked to two bits) and the width bits hold w, for every width up to 3.
   */
  lemma StyleRoundTrip(s: Style, w: Attrs)
    requires w <= 3
    ensures AttrsToCursor(CursorToAttrs(s, w)) == Normalized(s)
    ensures Width(CursorToAttrs(s, w)) == w as nat
  {
    var a := CursorToAttrs(s, w);
    assert ((a >> DECORATION_SHIFT) & 3) as bv8 == s.decoration & 3;
  }

  /** A width above 3 is not masked and corrupts the decoration bits. */
  lemma WideWidthCorruptsDecoration()
    ensures AttrsToCursor(CursorToAttrs(Style(0, false, false, false, false, false), 4)).decoration == 1
  {
  }

  /** BI_VAL is bold + 2 * italic, read from the bits at BOLD_SHIFT and ITALIC_SHIFT. */
  lemma BiValIsBoldItalic(a: Attrs)
    ensures var st := AttrsToCursor(a);
      BiVal(a) == (if st.bold then 1 else 0) + (if st.italic then 2 else 0)
  {
    var b := (a >> 4) & 3;
    assert b == ((a >> BOLD_SHIFT) & 1) | (((a >> ITALIC_SHIFT) & 1) << 1);
    assert b as nat == ((a >> BOLD_SHIFT) & 1) as nat + 2 * ((a >> ITALIC_SHIFT) & 1) as nat;
  }

  /** CHAR_IS_BLANK(ch). */
  predicate CharIsBlank(ch: nat)
  {
    ch == 32 || ch == 0
  }

  /** The Cursor fields that ATTRS_TO_CURSOR assigns in place. */
  class Cursor {
    var bold: bool
    var italic: bool
    var reverse: bool
    var strikethrough: bool
    var dim: bool
    var decoration: bv8

    function Fields(): Style
      reads this
    {
      Style(decoration, bold, italic, reverse, strikethrough, dim)
    }

    constructor (s: Style)
      ensures Fields() == s
    {
      bold, italic, reverse, strikethrough, dim, decoration :=
        s.bold, s.italic, s.reverse, s.strikethrough, s.dim, s.decoration;
    }

    /** ATTRS_TO_CURSOR(a, this): afterwards CURSOR_TO_ATTRS reproduces every non-width bit. */
    method ApplyAttrs(a: Attrs)
      modifies this
      ensures Fields() == AttrsToCursor(a)
      ensures CursorToAttrs(Fields(), a & WIDTH_MASK) == a & 0x1FF
    {
      decoration := ((a >> DECORATION_SHIFT) & 3) as bv8;
      bold := (a >> BOLD_SHIFT) & 1 == 1;
      italic := (a >> ITALIC_SHIFT) & 1 == 1;
      reverse := (a >> REVERSE_SHIFT) & 1 == 1;
      strikethrough := (a >> STRIKE_SHIFT) & 1 == 1;
      dim := (a >> DIM_SHIFT) & 1 == 1;
      AttrsRoundTrip(a);
    }
  }

  /** Packing the unpacked fields of attrs with its own width gives back its low nine bits. */
  lemma AttrsRoundTrip(a: Attrs)
    ensures CursorToAttrs(AttrsToCursor(a), a & WIDTH_MASK) == a & 0x1FF
  {
    var s := AttrsToCursor(a);
    assert Bit(s.bold) == (a >> BOLD_SHIFT) & 1;
    assert Bit(s.italic) == (a >> ITALIC_SHIFT) & 1;
    assert Bit(s.reverse) == (a >> REVERSE_SHIFT) & 1;
    assert Bit(s.strikethrough) == (a >> STRIKE_SHIFT) & 1;
    assert Bit(s.dim) == (a >> DIM_SHIFT) & 1;
  }

  // ---------------------------------------------------------------------
  // Cells

  /** CPUCell: the character and two combining-mark indices (0 = none). */
  datatype CPUCell = CPUCell(ch: nat, cc0: nat, cc1: nat)

  /** GPUCell: colours, sprite coordinates and attrs. */
  datatype GPUCell = GPUCell(fg: nat, bg: nat, decorationFg: nat,
                             spriteX: nat, spriteY: nat, spriteZ: nat, attrs: Attrs)

  /** clear_sprite_position(cell): zero the three sprite coordinates, keep everything else. */
  function ClearSpritePosition(c: GPUCell): (r: GPUCell)
    ensures r.spriteX == 0 && r.spriteY == 0 && r.spriteZ == 0
    ensures r.(spriteX := c.spriteX, spriteY := c.spriteY, spriteZ := c.spriteZ) == c
  {
    c.(spriteX := 0, spriteY := 0, spriteZ := 0)
  }

  /** The values of s after cells [at, |s| - num) take the values num places to their right. */
  function ShiftedLeft<T>(s: seq<T>, at: nat, num: nat): (r: seq<T>)
    requires num <= |s|
    ensures |r| == |s|
    ensures forall k :: 0 <= k < |s| && !(at <= k < |s| - num) ==> r[k] == s[k]
    ensures forall k :: at <= k < |s| - num ==> r[k] == s[k + num]
  {
    if at >= |s| - num then s else s[..at] + s[at + num..] + s[|s| - num..]
  }

  /** The line helper data-types.h's left_shift_line works on. */
  class Line {
    const xnum: nat
    const cpuCells: array<CPUCell>
    const gpuCells: array<GPUCell>

    ghost predicate Valid()
      reads this
    {
      cpuCells.Length == xnum && gpuCells.Length == xnum && cpuCells != gpuCells as object
    }

    constructor (cpu: seq<CPUCell>, gpu: seq<GPUCell>)
      requires |cpu| == |gpu|
      ensures Valid() && xnum == |cpu|
      ensures cpuCells[..] == cpu && gpuCells[..] == gpu
      ensures fresh(cpuCells) && fresh(gpuCells)
    {
      xnum := |cpu|;
      cpuCells := new CPUCell[|cpu|](i requires 0 <= i < |cpu| => cpu[i]);
      gpuCells := new GPUCell[|gpu|](i requires 0 <= i < |gpu| => gpu[i]);
    }

    /**
     * left_shift_line(line, at, num): cell k takes cell k + num for
     * at <= k < xnum - num; then, if cell `at` is not of width 1, its character,
     * attrs and sprite coordinates are cleared (its marks are kept).
     */
    method LeftShift(at: nat, num: nat)
      requires Valid() && at < xnum && num <= xnum
      modifies cpuCells, gpuCells
      ensures Valid()
      ensures var cpu, gpu := ShiftedLeft(old(cpuCells[..]), at, num), ShiftedLeft(old(gpuCells[..]), at, num);
        && (Width(gpu[at].attrs) == 1 ==> cpuCells[..] == cpu && gpuCells[..] == gpu)
        && (Width(gpu[at].attrs) != 1 ==>
              && cpuCells[..] == cpu[at := cpu[at].(ch := BLANK_CHAR)]
              && gpuCells[..] == gpu[at := ClearSpritePosition(gpu[at]).(attrs := 0)]
              && CharIsBlank(cpuCells[at].ch))
    {
      ghost var cpu0, gpu0 := cpuCells[..], gpuCells[..];
      var i := at;
      while i < xnum - num
        invariant i == at || at < i <= xnum - num
        invariant forall k :: 0 <= k < xnum && !(at <= k < i) ==> cpuCells[k] == cpu0[k] && gpuCells[k] == gpu0[k]
        invariant forall k :: at <= k < i ==> cpuCells[k] == cpu0[k + num] && gpuCells[k] == gpu0[k + num]
      {
        cpuCells[i] := cpuCells[i + num];
        gpuCells[i] := gpuCells[i + num];
        i := i + 1;
      }
      assert cpuCells[..] == ShiftedLeft(cpu0, at, num);
      assert gpuCells[..] == ShiftedLeft(gpu0, at, num);
      if gpuCells[at].attrs & WIDTH_MASK != 1 {
        cpuCells[at] := cpuCells[at].(ch := BLANK_CHAR);
        gpuCells[at] := ClearSpritePosition(gpuCells[at]).(attrs := 0);
      }
    }
  }

  // ---------------------------------------------------------------------
  // Growable arrays

  /** The capacity ensure_space_for settles on. */
  function GrownCapacity(capacity: nat, num: nat, initialCap: nat): (r: nat)
    ensures r >= num && r >= capacity
    ensures capacity >= num ==> r == capacity
    ensures capacity < num ==> r >= 2 * capacity && r >= initialCap
    ensures capacity < num ==> r == num || r == 2 * capacity || r == initialCap
  {
    if capacity < num then Max(initialCap, Max(2 * capacity, num)) else capacity
  }

  /** A growable array: `data.Length` is the struct's capacity field. */
  class Vector<T> {
    var data: array<T>

    constructor (initial: array<T>)
      ensures data == initial
    {
      data := initial;
    }

    /**
     * ensure_space_for: when capacity < num, reallocate to
     * max(initial_cap, 2 * capacity, num), keep the old elements and zero the
     * new tail when zero_clear is set; otherwise leave the array alone.
     */
    method EnsureSpaceFor(num: nat, initialCap: nat, zeroClear: bool, zero: T)
      modifies this
      ensures data.Length == GrownCapacity(old(data.Length), num, initialCap)
      ensures old(data.Length) >= num ==> data == old(data)
      ensures old(data.Length) < num ==> fresh(data)
      ensures data[..old(data.Length)] == old(data[..])
      ensures zeroClear ==> forall k :: old(data.Length) <= k < data.Length ==> data[k] == zero
    {
      if data.Length < num {
        var newCap := Max(initialCap, Max(2 * data.Length, num));
        var src := data;
        var grown := new T[newCap](_ => zero);
        var i := 0;
        while i < src.Length
          invariant 0 <= i <= src.Length
          invariant grown[..i] == src[..i]
          invariant forall k :: src.Length <= k < newCap ==> grown[k] == zero
        {
          grown[i] := src[i];
          i := i + 1;
        }
        data := grown;
      }
    }
  }

  /** The contents remove_i_from_array leaves: slots [i, count - 1) take their right neighbour. */
  function RemovedAt<T>(s: seq<T>, i: nat, count: nat): (r: seq<T>)
    requires 1 <= count <= |s|
    ensures |r| == |s|
    ensures forall k :: 0 <= k < |s| && !(i <= k < count - 1) ==> r[k] == s[k]
    ensures forall k :: i <= k < count - 1 ==> r[k] == s[k + 1]
  {
    if i < count - 1 then s[..i] + s[i + 1..count] + s[count - 1..] else s
  }

  /**
   * remove_i_from_array(array, i, count): the count drops by one and the
   * elements after i move one place left.
   */
  method RemoveAt<T>(a: array<T>, i: nat, count: nat) returns (newCount: nat)
    requires 1 <= count <= a.Length
    modifies a
    ensures newCount == count - 1
    ensures a[..] == RemovedAt(old(a[..]), i, count)
  {
    newCount := count - 1;
    if i < newCount {
      var k := i;
      while k < newCount
        invariant i <= k <= newCount
        invariant forall j :: 0 <= j < a.Length && !(i <= j < k) ==> a[j] == old(a[j])
        invariant forall j :: i <= j < k ==> a[j] == old(a[j + 1])
      {
        a[k] := a[k + 1];
        k := k + 1;
      }
    }
  }

  /**
   * Removing at i keeps the live prefix before i and the live suffix after
   * it: the first count - 1 elements are the old ones with element i dropped.
   */
  lemma {:induction false} RemovedAtDropsOne<T>(s: seq<T>, i: nat, count: nat)
    requires 1 <= count <= |s| && i < count
    ensures RemovedAt(s, i, count)[..count - 1] == s[..i] + s[i + 1..count]
  {
    var r := RemovedAt(s, i, count);
    assert |s[..i] + s[i + 1..count]| == count - 1;
    forall k | 0 <= k < count - 1
      ensures r[k] == (s[..i] + s[i + 1..count])[k]
    {
      if k < i {
        assert r[k] == s[k];
      } else {
        assert r[k] == s[k + 1];
      }
    }
  }
}
