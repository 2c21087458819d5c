/**
 * The group builder of kitty/fonts.c (`shape_run` and its helpers) as
 * functions on values. The shaping engine's output is an input sequence of
 * (glyph id, cluster) pairs; the builder walks it together with the cells of
 * the run and partitions the cells into groups, each rendered as one sprite
 * run. The special-glyph cache is threaded through, as the source queries it.
 */
module Grouping {
  import opened Common
  import opened DataTypes
  import SC = SpecialCache

  /** MAX_GLYPHS_IN_GROUP = MAX_EXTRA_GLYPHS + 1: the cap on glyphs and on cells per group. */
  const MAX_GLYPHS_IN_GROUP: nat := 9

  const UINT32_MAX: nat := 0xFFFF_FFFF

  /** One cell of the run: the CPU and GPU halves that the source walks in lockstep. */
  datatype RunCell = RunCell(cpu: CPUCell, gpu: GPUCell)

  /** What the model reads for a cell position past the end of the run. */
  const BLANK_RUN_CELL: RunCell := RunCell(CPUCell(0, 0, 0), GPUCell(0, 0, 0, 0, 0, 0, 1))

  function CellAt(cells: seq<RunCell>, p: nat): RunCell
  {
    if p < |cells| then cells[p] else BLANK_RUN_CELL
  }

  /** The two variation selectors and the mark-index-to-codepoint table. */
  datatype Marks = Marks(vs15: nat, vs16: nat, codepointForMark: nat -> nat)

  /** hb_glyph_info_t after shaping: the glyph id (in `codepoint`) and its cluster. */
  datatype GlyphInfo = GlyphInfo(glyph: nat, cluster: nat)

  /** Group. */
  datatype Group = Group(firstGlyph: nat, firstCell: nat, numGlyphs: nat, numCells: nat,
                         hasSpecialGlyph: bool, isSpaceLigature: bool)

  /** A zeroed group, as the builder finds every group it has not used yet. */
  const EMPTY_GROUP: Group := Group(0, 0, 0, 0, false, false)

  /** One past the last cell of a group. */
  function End(g: Group): nat { g.firstCell + g.numCells }

  // ---------------------------------------------------------------------
  // Cells and codepoints

  /** The combining marks of a cell: the non-zero prefix of cc_idx. */
  function MarksOf(c: CPUCell): (m: seq<nat>)
    ensures |m| <= 2 && forall i :: 0 <= i < |m| ==> m[i] != 0
  {
    if c.cc0 == 0 then [] else if c.cc1 == 0 then [c.cc0] else [c.cc0, c.cc1]
  }

  /** num_codepoints_in_cell: the character plus its marks. */
  function NumCodepointsInCell(c: CPUCell): (n: nat)
    ensures n == 1 + |MarksOf(c)|
    ensures 1 <= n <= 3
  {
    var n := 1;
    if c.cc0 == 0 then n else if c.cc1 == 0 then n + 1 else n + 2
  }

  /** The mark at index k of cc_idx. */
  function MarkAt(c: CPUCell, k: nat): nat
    requires k < 2
  {
    if k == 0 then c.cc0 else c.cc1
  }

  /** CellData: the walk over the run's cells in step with the glyphs. */
  datatype CellData = CellData(ptr: nat, numCodepoints: nat, consumed: nat, currentCodepoint: nat)

  /** The codepoint the builder compares glyphs against for a mark: 0 for VS15/VS16. */
  function MarkCodepoint(mark: nat, marks: Marks): nat
  {
    if mark == marks.vs15 || mark == marks.vs16 then 0 else marks.codepointForMark(mark)
  }

  /** The result of check_cell_consumed: the new cell cursor and the width it returns. */
  datatype Consumed = Consumed(cell: CellData, width: nat)

  /**
   * check_cell_consumed: count one more codepoint of the current cell. When
   * all of them are used, return the cell's width and move to the next cell
   * (max(1, width) further on), reloading its codepoint count and character,
   * or setting the current codepoint to 0 past the last cell. Otherwise return
   * 0 and make the next mark the current codepoint. (The source's `case 0` of
   * the switch cannot be reached, since the count was just incremented.)
   */
  function CheckCellConsumed(cd: CellData, cells: seq<RunCell>, marks: Marks): (r: Consumed)
    requires cd.numCodepoints <= 3
    ensures r.cell.numCodepoints <= 3
    ensures r.width <= 3
    ensures cd.consumed + 1 < cd.numCodepoints ==>
      r.width == 0 && r.cell.ptr == cd.ptr && r.cell.consumed == cd.consumed + 1
    ensures cd.consumed + 1 >= cd.numCodepoints ==>
      r.width == Width(CellAt(cells, cd.ptr).gpu.attrs) && r.cell.consumed == 0
      && r.cell.ptr == cd.ptr + Max(1, r.width)
  {
    var k := cd.consumed + 1;
    if k >= cd.numCodepoints then
      var w := Width(CellAt(cells, cd.ptr).gpu.attrs);
      var p := cd.ptr + Max(1, w);
      var last := if |cells| > 0 then |cells| - 1 else 0;
      if p <= last then Consumed(CellData(p, NumCodepointsInCell(cells[p].cpu), 0, cells[p].cpu.ch), w)
      else Consumed(CellData(p, cd.numCodepoints, 0, 0), w)
    else
      var mark := MarkAt(CellAt(cells, cd.ptr).cpu, k - 1);
      Consumed(cd.(consumed := k, currentCodepoint := MarkCodepoint(mark, marks)), 0)
  }

  /** A cursor standing at the start of cell p. */
  function AtCell(cells: seq<RunCell>, p: nat): CellData
    requires p < |cells|
  {
    CellData(p, NumCodepointsInCell(cells[p].cpu), 0, cells[p].cpu.ch)
  }

  /**
   * Consuming a whole cell: starting at cell p, the current codepoint runs
   * through the cell's character and then its marks (VS15/VS16 read as 0);
   * the first calls return 0, the call for the last codepoint returns the
   * cell's width and moves max(1, width) cells on.
   */
  lemma {:induction false} ConsumeWholeCell(cells: seq<RunCell>, p: nat, marks: Marks)
    requires p < |cells|
    ensures var c := cells[p]; var m := MarksOf(c.cpu); var w := Width(c.gpu.attrs);
      var s1 := CheckCellConsumed(AtCell(cells, p), cells, marks);
      var s2 := CheckCellConsumed(s1.cell, cells, marks);
      var s3 := CheckCellConsumed(s2.cell, cells, marks);
      && AtCell(cells, p).currentCodepoint == c.cpu.ch
      && (|m| == 0 ==> s1.width == w && s1.cell.ptr == p + Max(1, w))
      && (|m| >= 1 ==> s1.width == 0 && s1.cell.currentCodepoint == MarkCodepoint(m[0], marks))
      && (|m| == 1 ==> s2.width == w && s2.cell.ptr == p + Max(1, w))
      && (|m| == 2 ==> s2.width == 0 && s2.cell.currentCodepoint == MarkCodepoint(m[1], marks))
      && (|m| == 2 ==> s3.width == w && s3.cell.ptr == p + Max(1, w))
  {
    var m := MarksOf(cells[p].cpu);
    if |m| >= 1 {
      assert MarkAt(cells[p].cpu, 0) == m[0];
    }
    if |m| == 2 {
      assert MarkAt(cells[p].cpu, 1) == m[1];
    }
  }

  /** The consumption loop's variables: cell cursor, cell_idx and num_cells_consumed. */
  datatype ConsumeState = ConsumeState(cell: CellData, cellIdx: nat, consumed: nat)

  /**
   * The loop `while (num_codepoints_used_by_glyph && cell_idx < num_cells)`:
   * every returned width advances cell_idx and the consumed count alike.
   */
  function Consume(st: ConsumeState, ncp: nat, cells: seq<RunCell>, marks: Marks): (r: ConsumeState)
    requires st.cell.numCodepoints <= 3
    ensures r.cell.numCodepoints <= 3
    decreases ncp
  {
    if ncp == 0 || st.cellIdx >= |cells| then st
    else
      var c := CheckCellConsumed(st.cell, cells, marks);
      Consume(ConsumeState(c.cell, st.cellIdx + c.width, st.consumed + c.width), ncp - 1, cells, marks)
  }

  /**
   * The consume loop moves the cell index forward by exactly the widths it
   * counts, and once it starts inside the run it stops at most one
   * double-width step past its end.
   */
  lemma {:induction false} ConsumeAdvances(st: ConsumeState, ncp: nat, cells: seq<RunCell>, marks: Marks)
    requires st.cell.numCodepoints <= 3
    ensures var r := Consume(st, ncp, cells, marks);
      && st.cellIdx <= r.cellIdx && r.cellIdx - st.cellIdx == r.consumed - st.consumed
      && (st.cellIdx < |cells| && ncp > 0 ==> r.cellIdx >= |cells| || r.cellIdx < |cells| + 3)
    decreases ncp
  {
    if ncp > 0 && st.cellIdx < |cells| {
      var c := CheckCellConsumed(st.cell, cells, marks);
      ConsumeAdvances(ConsumeState(c.cell, st.cellIdx + c.width, st.consumed + c.width), ncp - 1, cells, marks);
    }
  }

  // ---------------------------------------------------------------------
  // Placing one glyph

  function Last(gs: seq<Group>): Group
    requires |gs| >= 1
  {
    gs[|gs| - 1]
  }

  function SetLast(gs: seq<Group>, g: Group): (r: seq<Group>)
    requires |gs| >= 1
  {
    gs[|gs| - 1 := g]
  }

  /**
   * group_state_move_glyph_to_next_group: take the glyph just added out of
   * the current group and open the next group with it, starting at
   * `startCell` (the source passes the current cell_idx).
   */
  function MoveGlyphToNextGroup(gs: seq<Group>, startCell: nat, glyphIdx: nat): seq<Group>
    requires |gs| >= 1 && Last(gs).numGlyphs >= 1
  {
    SetLast(gs, Last(gs).(numGlyphs := Last(gs).numGlyphs - 1)) + [Group(glyphIdx, startCell, 1, 0, false, false)]
  }

  /**
   * The groups emitted for one glyph that consumed more than
   * MAX_GLYPHS_IN_GROUP cells: single-glyph groups of at most 9 cells each,
   * consecutive from the glyph's first cell.
   */
  function SplitOverlong(gs: seq<Group>, glyphIdx: nat, start: nat, remaining: nat): (r: seq<Group>)
    ensures |r| >= |gs|
    decreases remaining
  {
    if remaining == 0 then gs
    else
      var n := Min(remaining, MAX_GLYPHS_IN_GROUP);
      SplitOverlong(gs + [Group(glyphIdx, start, 1, n, false, false)], glyphIdx, start + n, remaining - n)
  }

  /**
   * SplitOverlong keeps the groups it is given and appends single-glyph
   * groups of 1 to 9 cells, the first at `start`, each starting where the
   * previous one ends, the last ending at start + remaining.
   */
  lemma {:induction false} SplitOverlongShape(gs: seq<Group>, glyphIdx: nat, start: nat, remaining: nat)
    ensures var r := SplitOverlong(gs, glyphIdx, start, remaining);
      && r[..|gs|] == gs
      && (forall i :: |gs| <= i < |r| ==>
            r[i].numGlyphs == 1 && r[i].firstGlyph == glyphIdx && 1 <= r[i].numCells <= MAX_GLYPHS_IN_GROUP
            && !r[i].hasSpecialGlyph && !r[i].isSpaceLigature)
      && (remaining > 0 ==> |r| > |gs| && r[|gs|].firstCell == start && End(r[|r| - 1]) == start + remaining)
      && (forall i :: |gs| <= i < |r| - 1 ==> r[i + 1].firstCell == End(r[i]))
      && (remaining == 0 <==> |r| == |gs|)
    decreases remaining
  {
    if remaining > 0 {
      var n := Min(remaining, MAX_GLYPHS_IN_GROUP);
      var g := Group(glyphIdx, start, 1, n, false, false);
      var gs' := gs + [g];
      SplitOverlongShape(gs', glyphIdx, start + n, remaining - n);
      var r := SplitOverlong(gs', glyphIdx, start + n, remaining - n);
      assert r[..|gs|] == r[..|gs'|][..|gs|];
      assert r[|gs|] == g;
    }
  }

  /** Whether a glyph joins the current group: the rule of shape_run and the two caps. */
  function JoinsCurrentGroup(cur: Group, prevSpecial: bool, prevEmpty: bool, special: bool): bool
  {
    var add := if cur.numGlyphs == 0 then true else if special then prevEmpty else !prevSpecial;
    if cur.numGlyphs >= MAX_GLYPHS_IN_GROUP || cur.numCells >= MAX_GLYPHS_IN_GROUP then false else add
  }

  /** Adds glyph glyphIdx to the current group or to a new one, recording its first glyph and cell. */
  function Admit(gs: seq<Group>, glyphIdx: nat, cellIdx: nat, prevSpecial: bool, prevEmpty: bool, special: bool): (r: seq<Group>)
    requires |gs| >= 1
    ensures |r| >= 1 && Last(r).numGlyphs >= 1
  {
    var gs0 := if JoinsCurrentGroup(Last(gs), prevSpecial, prevEmpty, special) then gs else gs + [EMPTY_GROUP];
    var c := Last(gs0);
    var c1 := if c.numGlyphs == 0 then c.(firstGlyph := glyphIdx, firstCell := cellIdx) else c;
    SetLast(gs0, c1.(numGlyphs := c1.numGlyphs + 1, hasSpecialGlyph := c1.hasSpecialGlyph || special))
  }

  /**
   * The grouping rule: a glyph joins the current group exactly when the group
   * is still empty, or the glyph is special and the previous glyph was empty,
   * or neither it nor the previous glyph is special; and never when the group
   * already holds 9 glyphs or 9 cells. Otherwise it opens a new group that
   * starts at the glyph and at the current cell.
   */
  lemma AdmitRule(gs: seq<Group>, glyphIdx: nat, cellIdx: nat, prevSpecial: bool, prevEmpty: bool, special: bool)
    requires |gs| >= 1
    ensures var cur := Last(gs); var r := Admit(gs, glyphIdx, cellIdx, prevSpecial, prevEmpty, special);
      var joins := (cur.numGlyphs == 0 || (special && prevEmpty) || (!special && !prevSpecial))
                   && cur.numGlyphs < MAX_GLYPHS_IN_GROUP && cur.numCells < MAX_GLYPHS_IN_GROUP;
      && r[..|gs| - 1] == gs[..|gs| - 1]
      && (joins ==> |r| == |gs| && Last(r).numGlyphs == cur.numGlyphs + 1 && Last(r).numCells == cur.numCells)
      && (!joins ==> |r| == |gs| + 1 && r[|gs| - 1] == cur
                     && Last(r) == Group(glyphIdx, cellIdx, 1, 0, special, false))
      && (special ==> Last(r).hasSpecialGlyph)
  {
  }

  /** The last glyph takes every remaining cell; the group's cell count is capped at 9. */
  function AbsorbRest(gs: seq<Group>, cellIdx: nat, numCells: nat, glyphIdx: nat): (r: (seq<Group>, nat))
    requires |gs| >= 1 && Last(gs).numGlyphs >= 1
    ensures |r.0| >= 1 && r.1 >= numCells && r.1 >= cellIdx
  {
    if cellIdx < numCells then
      var slots := numCells - cellIdx;
      var gs1 := if Last(gs).numCells + slots > MAX_GLYPHS_IN_GROUP then MoveGlyphToNextGroup(gs, cellIdx, glyphIdx) else gs;
      (SetLast(gs1, Last(gs1).(numCells := Min(Last(gs1).numCells + slots, MAX_GLYPHS_IN_GROUP))), cellIdx + slots)
    else (gs, cellIdx)
  }

  /**
   * What a non-last glyph does with the cells it consumed. As written, a glyph
   * that no longer fits in its group is moved to a new group that starts at
   * the cell_idx reached AFTER the consumption; the corrected builder starts
   * it at the glyph's first cell.
   */
  function AfterConsume(gs: seq<Group>, start: nat, after: nat, consumed: nat, glyphIdx: nat,
                        special: bool, asWritten: bool): (r: seq<Group>)
    requires |gs| >= 1 && Last(gs).numGlyphs >= 1
    ensures |r| >= 1
  {
    if consumed == 0 then gs
    else if consumed > MAX_GLYPHS_IN_GROUP then
      SplitOverlong(SetLast(gs, Last(gs).(numGlyphs := Last(gs).numGlyphs - 1)), glyphIdx, start, consumed)
    else
      var gs1 := if consumed + Last(gs).numCells > MAX_GLYPHS_IN_GROUP
                 then MoveGlyphToNextGroup(gs, if asWritten then after else start, glyphIdx) else gs;
      var gs2 := SetLast(gs1, Last(gs1).(numCells := Last(gs1).numCells + consumed));
      if !special then gs2 + [EMPTY_GROUP] else gs2
  }

  /** The state of the builder: group_state without its buffers, plus the special-glyph cache. */
  datatype State = State(groups: seq<Group>, glyphIdx: nat, cellIdx: nat, prevSpecial: bool, prevEmpty: bool,
                         cell: CellData, cache: seq<seq<SC.CacheNode>>)

  /** The inputs of shape_run: the run's cells, the shaped glyphs, and the face queries. */
  datatype Input = Input(cells: seq<RunCell>, glyphs: seq<GlyphInfo>, marks: Marks,
                         glyphIdFor: nat -> nat, isGlyphEmpty: nat -> bool)

  ghost predicate WellFormed(s: State)
  {
    |s.groups| >= 1 && s.cell.numCodepoints <= 3 && |s.cache| == SC.CACHE_SIZE
  }

  /** num_codepoints_used_by_glyph: the cluster distance to the next glyph, or UINT32_MAX for the last. */
  function CodepointsUsed(glyphs: seq<GlyphInfo>, i: nat): nat
    requires i < |glyphs|
  {
    if i == |glyphs| - 1 then UINT32_MAX
    else
      var cluster, next := glyphs[i].cluster, glyphs[i + 1].cluster;
      if next != cluster then (if cluster > next then cluster - next else next - cluster) else 0
  }

  /** One turn of the loop of shape_run for a glyph already classified as special / empty. */
  function Place(s: State, inp: Input, special: bool, empty: bool, asWritten: bool): (r: State)
    requires WellFormed(s) && s.glyphIdx < |inp.glyphs|
    ensures WellFormed(r) && r.glyphIdx == s.glyphIdx + 1 && r.cache == s.cache
    ensures r.prevSpecial == special && r.prevEmpty == empty
  {
    var gi := s.glyphIdx;
    var gs1 := Admit(s.groups, gi, s.cellIdx, s.prevSpecial, s.prevEmpty, special);
    if gi == |inp.glyphs| - 1 then
      var a := AbsorbRest(gs1, s.cellIdx, |inp.cells|, gi);
      State(a.0, gi + 1, a.1, special, empty, s.cell, s.cache)
    else
      var c := Consume(ConsumeState(s.cell, s.cellIdx, 0), CodepointsUsed(inp.glyphs, gi), inp.cells, inp.marks);
      var gs2 := AfterConsume(gs1, s.cellIdx, c.cellIdx, c.consumed, gi, special, asWritten);
      State(gs2, gi + 1, c.cellIdx, special, empty, c.cell, s.cache)
  }

  /** The answers the cache gives for the current glyph, and the cache afterwards. */
  datatype Classified = Classified(special: bool, empty: bool, cache: seq<seq<SC.CacheNode>>)

  /**
   * Classify the current glyph through the cache: special when the current
   * codepoint is not 0 and its glyph id differs; empty asked only of a special glyph.
   */
  function Classify(s: State, inp: Input): (r: Classified)
    requires WellFormed(s) && s.glyphIdx < |inp.glyphs|
    ensures |r.cache| == SC.CACHE_SIZE && (!r.special ==> !r.empty)
  {
    var g := inp.glyphs[s.glyphIdx].glyph;
    var cp := s.cell.currentCodepoint;
    var sp := SC.Query(s.cache, g, SC.Special, cp != 0 && g != inp.glyphIdFor(cp));
    var em := if sp.value then SC.Query(sp.buckets, g, SC.Empty, inp.isGlyphEmpty(g)) else SC.Answer(sp.buckets, false);
    Classified(sp.value, em.value, em.buckets)
  }

  /**
   * The flags Classify hands back: the classification the cache recorded for
   * the glyph when there is one, else what the face says (special when the
   * current codepoint is not 0 and maps to another glyph; empty when the face
   * draws nothing); emptiness is asked only of a special glyph. Afterwards the
   * cache records the answers it gave.
   */
  lemma ClassifyAnswers(s: State, inp: Input)
    requires WellFormed(s) && s.glyphIdx < |inp.glyphs| && SC.TableInv(s.cache)
    ensures var g := inp.glyphs[s.glyphIdx].glyph; var cp := s.cell.currentCodepoint;
      var r := Classify(s, inp);
      var sp := SC.Recorded(s.cache, g, SC.Special);
      var em := SC.Recorded(s.cache, g, SC.Empty);
      && r.special == (if sp.Some? then sp.value else cp != 0 && g != inp.glyphIdFor(cp))
      && r.empty == (r.special && if em.Some? then em.value else inp.isGlyphEmpty(g))
      && SC.TableInv(r.cache)
      && SC.Recorded(r.cache, g, SC.Special) == Some(r.special)
      && (r.special ==> SC.Recorded(r.cache, g, SC.Empty) == Some(r.empty))
  {
    var g := inp.glyphs[s.glyphIdx].glyph;
    var cp := s.cell.currentCodepoint;
    var v := cp != 0 && g != inp.glyphIdFor(cp);
    var t := s.cache;
    SC.QueryAnswer(t, g, SC.Special, v);
    SC.QueryKeepsInv(t, g, SC.Special, v);
    var q := SC.Query(t, g, SC.Special, v);
    if q.value {
      SC.QueryKeepsOthers(t, g, SC.Special, v, g, SC.Empty);
      SC.QueryAnswer(q.buckets, g, SC.Empty, inp.isGlyphEmpty(g));
      SC.QueryKeepsInv(q.buckets, g, SC.Empty, inp.isGlyphEmpty(g));
      SC.QueryKeepsOthers(q.buckets, g, SC.Empty, inp.isGlyphEmpty(g), g, SC.Special);
    }
  }

  /** One turn of the loop: classify the glyph through the cache, then place it. */
  function Step(s: State, inp: Input, asWritten: bool): (r: State)
    requires WellFormed(s) && s.glyphIdx < |inp.glyphs|
    ensures WellFormed(r) && r.glyphIdx == s.glyphIdx + 1
  {
    var c := Classify(s, inp);
    Place(s.(cache := c.cache), inp, c.special, c.empty, asWritten)
  }

  /** The loop of shape_run from state s. */
  function Run(s: State, inp: Input, asWritten: bool): (r: State)
    requires WellFormed(s)
    ensures WellFormed(r)
    decreases |inp.glyphs| - s.glyphIdx
  {
    if s.glyphIdx < |inp.glyphs| && s.cellIdx < |inp.cells| then Run(Step(s, inp, asWritten), inp, asWritten) else s
  }

  /** The state shape() sets up: one zeroed group, the cursor on the first cell. */
  function Init(inp: Input, cache: seq<seq<SC.CacheNode>>): (s: State)
    requires |cache| == SC.CACHE_SIZE
    ensures WellFormed(s)
  {
    var c0 := CellAt(inp.cells, 0);
    State([EMPTY_GROUP], 0, 0, false, false, CellData(0, NumCodepointsInCell(c0.cpu), 0, c0.cpu.ch), cache)
  }

  /** shape_run with the corrected move. */
  function ShapeRun(inp: Input, cache: seq<seq<SC.CacheNode>>): State
    requires |cache| == SC.CACHE_SIZE
  {
    Run(Init(inp, cache), inp, false)
  }

  /** shape_run with the code's move (its cache queries use the corrected walk). */
  function ShapeRunAsWritten(inp: Input, cache: seq<seq<SC.CacheNode>>): State
    requires |cache| == SC.CACHE_SIZE
  {
    Run(Init(inp, cache), inp, true)
  }

  // ---------------------------------------------------------------------
  // What the corrected builder guarantees

  /** Every group holds at most 9 glyphs and at most 9 cells. */
  ghost predicate WithinCaps(gs: seq<Group>)
  {
    forall i :: 0 <= i < |gs| ==> gs[i].numGlyphs <= MAX_GLYPHS_IN_GROUP && gs[i].numCells <= MAX_GLYPHS_IN_GROUP
  }

  /**
   * The groups tile the cells consumed so far: the first starts at cell 0,
   * each starts where the previous one ends, and the current one ends at
   * cell_idx (at or before it once the last glyph has absorbed the rest and
   * been capped). A still-unused current group is a zeroed one.
   */
  ghost predicate Tiled(gs: seq<Group>, cellIdx: nat, done: bool)
  {
    && |gs| >= 1 && WithinCaps(gs) && gs[0].firstCell == 0
    && (forall i :: 0 <= i < |gs| - 2 ==> gs[i + 1].firstCell == End(gs[i]))
    && (Last(gs).numGlyphs == 0 ==>
          && Last(gs) == EMPTY_GROUP
          && (|gs| >= 2 ==> End(gs[|gs| - 2]) == cellIdx)
          && (|gs| == 1 ==> cellIdx == 0))
    && (Last(gs).numGlyphs > 0 ==>
          && (|gs| >= 2 ==> Last(gs).firstCell == End(gs[|gs| - 2]))
          && End(Last(gs)) <= cellIdx
          && (!done ==> End(Last(gs)) == cellIdx)
          && (done ==> End(Last(gs)) == cellIdx || Last(gs).numCells == MAX_GLYPHS_IN_GROUP))
  }

  /** Admitting a glyph keeps the tiling, and the current group then ends at cell_idx. */
  lemma {:induction false} AdmitKeepsTiled(gs: seq<Group>, gi: nat, cellIdx: nat, ps: bool, pe: bool, special: bool)
    requires Tiled(gs, cellIdx, false)
    ensures var r := Admit(gs, gi, cellIdx, ps, pe, special);
      Tiled(r, cellIdx, false) && Last(r).numGlyphs >= 1
  {
    AdmitRule(gs, gi, cellIdx, ps, pe, special);
    var r := Admit(gs, gi, cellIdx, ps, pe, special);
    if |r| == |gs| + 1 {
      assert r[..|gs|] == gs;
    }
  }

  /** Closing the current group with a zeroed one keeps the tiling. */
  lemma TiledAppendEmpty(gs: seq<Group>, cellIdx: nat)
    requires Tiled(gs, cellIdx, false) && Last(gs).numGlyphs >= 1
    ensures Tiled(gs + [EMPTY_GROUP], cellIdx, false)
  {
    var r := gs + [EMPTY_GROUP];
    assert forall i :: 0 <= i < |gs| ==> r[i] == gs[i];
  }

  /** Adding consumed cells to the current group moves its end to the new cell_idx. */
  lemma TiledAddCells(gs: seq<Group>, start: nat, consumed: nat)
    requires Tiled(gs, start, false) && Last(gs).numGlyphs >= 1
    requires Last(gs).numCells + consumed <= MAX_GLYPHS_IN_GROUP
    ensures Tiled(SetLast(gs, Last(gs).(numCells := Last(gs).numCells + consumed)), start + consumed, false)
  {
    var r := SetLast(gs, Last(gs).(numCells := Last(gs).numCells + consumed));
    assert forall i :: 0 <= i < |gs| - 1 ==> r[i] == gs[i];
  }

  /** Moving the glyph to a new group that starts at the current end keeps the tiling. */
  lemma TiledMove(gs: seq<Group>, start: nat, gi: nat)
    requires Tiled(gs, start, false) && Last(gs).numGlyphs >= 1
    ensures Tiled(MoveGlyphToNextGroup(gs, start, gi), start, false)
  {
    var r := MoveGlyphToNextGroup(gs, start, gi);
    assert forall i :: 0 <= i < |gs| - 1 ==> r[i] == gs[i];
    assert End(r[|gs| - 1]) == start;
  }

  /** An overlong glyph's groups continue the tiling from its first cell. */
  lemma {:induction false} TiledSplit(gs: seq<Group>, start: nat, consumed: nat, gi: nat)
    requires Tiled(gs, start, false) && Last(gs).numGlyphs >= 1 && consumed > 0
    ensures Tiled(SplitOverlong(SetLast(gs, Last(gs).(numGlyphs := Last(gs).numGlyphs - 1)), gi, start, consumed),
                  start + consumed, false)
  {
    var gs1 := SetLast(gs, Last(gs).(numGlyphs := Last(gs).numGlyphs - 1));
    var r := SplitOverlong(gs1, gi, start, consumed);
    SplitOverlongShape(gs1, gi, start, consumed);
    assert r[..|gs1|] == gs1;
    assert forall i :: 0 <= i < |gs1| ==> r[i] == gs1[i];
    assert End(gs1[|gs1| - 1]) == start;
    forall i | 0 <= i < |r| - 2 ensures r[i + 1].firstCell == End(r[i]) {
      if i + 1 < |gs1| - 1 {
        assert r[i] == gs[i] && r[i + 1] == gs[i + 1];
      } else if i + 1 == |gs1| - 1 {
        assert r[i] == gs[i];
      }
    }
  }

  /** The cells consumed added to the current group, which is then closed unless the glyph is special. */
  function AddConsumed(gs: seq<Group>, consumed: nat, special: bool): seq<Group>
    requires |gs| >= 1
  {
    var gs2 := SetLast(gs, Last(gs).(numCells := Last(gs).numCells + consumed));
    if !special then gs2 + [EMPTY_GROUP] else gs2
  }

  /** AfterConsume (corrected move) for a glyph that consumed between 1 and MAX_GLYPHS_IN_GROUP cells. */
  lemma AfterConsumeAdds(gs: seq<Group>, start: nat, consumed: nat, gi: nat, special: bool)
    requires |gs| >= 1 && Last(gs).numGlyphs >= 1 && 0 < consumed <= MAX_GLYPHS_IN_GROUP
    ensures AfterConsume(gs, start, start + consumed, consumed, gi, special, false)
            == if consumed + Last(gs).numCells > MAX_GLYPHS_IN_GROUP
               then AddConsumed(MoveGlyphToNextGroup(gs, start, gi), consumed, special)
               else AddConsumed(gs, consumed, special)
  {
  }

  /** Adding the consumed cells to the current group, then closing it unless the glyph is special, keeps the tiling. */
  lemma AddConsumedKeepsTiled(gs: seq<Group>, start: nat, consumed: nat, special: bool)
    requires Tiled(gs, start, false) && Last(gs).numGlyphs >= 1
    requires Last(gs).numCells + consumed <= MAX_GLYPHS_IN_GROUP
    ensures Tiled(AddConsumed(gs, consumed, special), start + consumed, false)
  {
    TiledAddCells(gs, start, consumed);
    var gs2 := SetLast(gs, Last(gs).(numCells := Last(gs).numCells + consumed));
    if !special {
      TiledAppendEmpty(gs2, start + consumed);
    }
  }

  /** The cells a non-last glyph consumed are added without breaking the tiling (corrected move). */
  lemma {:induction false} AfterConsumeKeepsTiled(gs: seq<Group>, start: nat, consumed: nat, gi: nat, special: bool)
    requires Tiled(gs, start, false) && Last(gs).numGlyphs >= 1
    ensures Tiled(AfterConsume(gs, start, start + consumed, consumed, gi, special, false), start + consumed, false)
  {
    if consumed == 0 {
    } else if consumed > MAX_GLYPHS_IN_GROUP {
      TiledSplit(gs, start, consumed, gi);
    } else {
      AfterConsumeAdds(gs, start, consumed, gi, special);
      if consumed + Last(gs).numCells > MAX_GLYPHS_IN_GROUP {
        var moved := MoveGlyphToNextGroup(gs, start, gi);
        assert Last(moved) == Group(gi, start, 1, 0, false, false);
        TiledMove(gs, start, gi);
        AddConsumedKeepsTiled(moved, start, consumed, special);
      } else {
        AddConsumedKeepsTiled(gs, start, consumed, special);
      }
    }
  }

  /** The last glyph's absorption keeps the groups contiguous and within the caps. */
  lemma {:induction false} AbsorbKeepsTiled(gs: seq<Group>, cellIdx: nat, numCells: nat, gi: nat)
    requires Tiled(gs, cellIdx, false) && Last(gs).numGlyphs >= 1
    ensures var a := AbsorbRest(gs, cellIdx, numCells, gi); Tiled(a.0, a.1, true)
  {
  }

  /** Placing the last glyph keeps the tiling. */
  lemma {:induction false} PlaceLastKeepsTiled(s: State, inp: Input, special: bool, empty: bool)
    requires WellFormed(s) && s.glyphIdx == |inp.glyphs| - 1 && Tiled(s.groups, s.cellIdx, false)
    ensures var r := Place(s, inp, special, empty, false); Tiled(r.groups, r.cellIdx, true)
  {
    var gi := s.glyphIdx;
    var gs1 := Admit(s.groups, gi, s.cellIdx, s.prevSpecial, s.prevEmpty, special);
    AdmitKeepsTiled(s.groups, gi, s.cellIdx, s.prevSpecial, s.prevEmpty, special);
    AbsorbKeepsTiled(gs1, s.cellIdx, |inp.cells|, gi);
  }

  /** Placing any other glyph keeps the tiling. */
  lemma {:induction false} PlaceInnerKeepsTiled(s: State, inp: Input, special: bool, empty: bool)
    requires WellFormed(s) && s.glyphIdx < |inp.glyphs| - 1 && Tiled(s.groups, s.cellIdx, false)
    ensures var r := Place(s, inp, special, empty, false); Tiled(r.groups, r.cellIdx, false)
  {
    var gi := s.glyphIdx;
    var gs1 := Admit(s.groups, gi, s.cellIdx, s.prevSpecial, s.prevEmpty, special);
    AdmitKeepsTiled(s.groups, gi, s.cellIdx, s.prevSpecial, s.prevEmpty, special);
    var c := Consume(ConsumeState(s.cell, s.cellIdx, 0), CodepointsUsed(inp.glyphs, gi), inp.cells, inp.marks);
    ConsumeAdvances(ConsumeState(s.cell, s.cellIdx, 0), CodepointsUsed(inp.glyphs, gi), inp.cells, inp.marks);
    AfterConsumeKeepsTiled(gs1, s.cellIdx, c.consumed, gi, special);
  }

  /** One placement keeps the tiling (corrected move), whatever the glyph's classification. */
  lemma PlaceKeepsTiled(s: State, inp: Input, special: bool, empty: bool)
    requires WellFormed(s) && s.glyphIdx < |inp.glyphs| && Tiled(s.groups, s.cellIdx, false)
    ensures var r := Place(s, inp, special, empty, false);
      Tiled(r.groups, r.cellIdx, r.glyphIdx >= |inp.glyphs|)
  {
    if s.glyphIdx == |inp.glyphs| - 1 {
      PlaceLastKeepsTiled(s, inp, special, empty);
    } else {
      PlaceInnerKeepsTiled(s, inp, special, empty);
    }
  }

  /** One turn of the loop keeps the tiling. */
  lemma StepKeepsTiled(s: State, inp: Input)
    requires WellFormed(s) && s.glyphIdx < |inp.glyphs| && Tiled(s.groups, s.cellIdx, false)
    ensures var r := Step(s, inp, false); Tiled(r.groups, r.cellIdx, r.glyphIdx >= |inp.glyphs|)
  {
    var c := Classify(s, inp);
    PlaceKeepsTiled(s.(cache := c.cache), inp, c.special, c.empty);
  }

  /** The loop keeps the tiling. */
  lemma {:induction false} RunKeepsTiled(s: State, inp: Input)
    requires WellFormed(s) && Tiled(s.groups, s.cellIdx, s.glyphIdx >= |inp.glyphs|)
    ensures var r := Run(s, inp, false); Tiled(r.groups, r.cellIdx, r.glyphIdx >= |inp.glyphs|)
    decreases |inp.glyphs| - s.glyphIdx
  {
    if s.glyphIdx < |inp.glyphs| && s.cellIdx < |inp.cells| {
      StepKeepsTiled(s, inp);
      RunKeepsTiled(Step(s, inp, false), inp);
    }
  }

  /**
   * What shape_run (corrected) produces: every group has at most 9 glyphs and
   * 9 cells; the first group starts at cell 0; every group that holds a glyph
   * starts where the previous one ends; the last ends no later than cell_idx.
   */
  lemma ShapeRunTiles(inp: Input, cache: seq<seq<SC.CacheNode>>)
    requires |cache| == SC.CACHE_SIZE
    ensures var r := ShapeRun(inp, cache); GroupsCover(r.groups, r.cellIdx)
  {
    RunKeepsTiled(Init(inp, cache), inp);
    var r := ShapeRun(inp, cache);
    TiledTail(r.groups, r.cellIdx, r.glyphIdx >= |inp.glyphs|);
  }

  /**
   * The groups tile the cells from 0 up to cell_idx: each group with glyphs
   * starts where the one before it ends, none exceeds 9 glyphs or 9 cells, and
   * the last one ends at cell_idx unless its cell count was capped at 9.
   */
  ghost predicate GroupsCover(gs: seq<Group>, cellIdx: nat)
  {
    && |gs| >= 1 && WithinCaps(gs) && gs[0].firstCell == 0
    && (forall i :: 0 <= i < |gs| - 1 && gs[i + 1].numGlyphs > 0 ==> gs[i + 1].firstCell == End(gs[i]))
    && End(Last(gs)) <= cellIdx
    && (Last(gs).numGlyphs > 0 ==> End(Last(gs)) == cellIdx || Last(gs).numCells == MAX_GLYPHS_IN_GROUP)
    && (Last(gs).numGlyphs == 0 && |gs| >= 2 ==> End(gs[|gs| - 2]) == cellIdx)
  }

  /** What Tiled says about the end of the tiling, whether or not the run is done. */
  lemma TiledTail(gs: seq<Group>, cellIdx: nat, done: bool)
    requires Tiled(gs, cellIdx, done)
    ensures GroupsCover(gs, cellIdx)
  {
  }

  /** With at least one glyph, shape_run (as written or corrected) accounts for every cell of the run. */
  lemma ShapeRunReachesLastCell(inp: Input, cache: seq<seq<SC.CacheNode>>)
    requires |cache| == SC.CACHE_SIZE && |inp.glyphs| >= 1
    ensures ShapeRun(inp, cache).cellIdx >= |inp.cells|
    ensures ShapeRunAsWritten(inp, cache).cellIdx >= |inp.cells|
  {
    RunCoversCells(Init(inp, cache), inp, false);
    RunCoversCells(Init(inp, cache), inp, true);
  }

  /**
   * Once there is a glyph, the loop ends with cell_idx at or past the last
   * cell: either the cells ran out first, or the last glyph absorbed the rest.
   */
  lemma {:induction false} RunCoversCells(s: State, inp: Input, asWritten: bool)
    requires WellFormed(s)
    requires s.glyphIdx >= |inp.glyphs| >= 1 ==> s.cellIdx >= |inp.cells|
    ensures |inp.glyphs| >= 1 ==> Run(s, inp, asWritten).cellIdx >= |inp.cells|
    decreases |inp.glyphs| - s.glyphIdx
  {
    if s.glyphIdx < |inp.glyphs| && s.cellIdx < |inp.cells| {
      RunCoversCells(Step(s, inp, asWritten), inp, asWritten);
    }
  }

  /** Every group's glyphs lie among the glyphs placed so far. */
  ghost predicate GlyphsPlaced(gs: seq<Group>, placed: nat)
  {
    forall i :: 0 <= i < |gs| ==> gs[i].firstGlyph + gs[i].numGlyphs <= placed
  }

  lemma AdmitKeepsGlyphsPlaced(gs: seq<Group>, gi: nat, cellIdx: nat, ps: bool, pe: bool, special: bool)
    requires |gs| >= 1 && GlyphsPlaced(gs, gi)
    ensures GlyphsPlaced(Admit(gs, gi, cellIdx, ps, pe, special), gi + 1)
  {
    AdmitRule(gs, gi, cellIdx, ps, pe, special);
  }

  lemma {:induction false} SplitKeepsGlyphsPlaced(gs: seq<Group>, gi: nat, start: nat, remaining: nat)
    requires GlyphsPlaced(gs, gi + 1)
    ensures GlyphsPlaced(SplitOverlong(gs, gi, start, remaining), gi + 1)
  {
    var r := SplitOverlong(gs, gi, start, remaining);
    SplitOverlongShape(gs, gi, start, remaining);
    assert r[..|gs|] == gs;
    forall i | 0 <= i < |r| ensures r[i].firstGlyph + r[i].numGlyphs <= gi + 1 {
      if i < |gs| {
        assert r[i] == gs[i];
      }
    }
  }

  lemma MoveKeepsGlyphsPlaced(gs: seq<Group>, start: nat, gi: nat)
    requires |gs| >= 1 && Last(gs).numGlyphs >= 1 && GlyphsPlaced(gs, gi + 1)
    ensures GlyphsPlaced(MoveGlyphToNextGroup(gs, start, gi), gi + 1)
  {
    var r := MoveGlyphToNextGroup(gs, start, gi);
    assert forall i :: 0 <= i < |gs| - 1 ==> r[i] == gs[i];
  }

  lemma {:induction false} AfterConsumeKeepsGlyphsPlaced(gs: seq<Group>, start: nat, after: nat, consumed: nat, gi: nat,
                                                         special: bool, asWritten: bool)
    requires |gs| >= 1 && Last(gs).numGlyphs >= 1 && GlyphsPlaced(gs, gi + 1)
    ensures GlyphsPlaced(AfterConsume(gs, start, after, consumed, gi, special, asWritten), gi + 1)
  {
    if consumed > MAX_GLYPHS_IN_GROUP {
      var gs1 := SetLast(gs, Last(gs).(numGlyphs := Last(gs).numGlyphs - 1));
      assert forall i :: 0 <= i < |gs| - 1 ==> gs1[i] == gs[i];
      SplitKeepsGlyphsPlaced(gs1, gi, start, consumed);
    } else if consumed > 0 {
      var gs1 := if consumed + Last(gs).numCells > MAX_GLYPHS_IN_GROUP
                 then MoveGlyphToNextGroup(gs, if asWritten then after else start, gi) else gs;
      if consumed + Last(gs).numCells > MAX_GLYPHS_IN_GROUP {
        MoveKeepsGlyphsPlaced(gs, if asWritten then after else start, gi);
      }
      var gs2 := SetLast(gs1, Last(gs1).(numCells := Last(gs1).numCells + consumed));
      assert forall i :: 0 <= i < |gs1| - 1 ==> gs2[i] == gs1[i];
    }
  }

  lemma AbsorbKeepsGlyphsPlaced(gs: seq<Group>, cellIdx: nat, numCells: nat, gi: nat)
    requires |gs| >= 1 && Last(gs).numGlyphs >= 1 && GlyphsPlaced(gs, gi + 1)
    ensures GlyphsPlaced(AbsorbRest(gs, cellIdx, numCells, gi).0, gi + 1)
  {
    if cellIdx < numCells {
      var slots := numCells - cellIdx;
      if Last(gs).numCells + slots > MAX_GLYPHS_IN_GROUP {
        MoveKeepsGlyphsPlaced(gs, cellIdx, gi);
      }
      var gs1 := if Last(gs).numCells + slots > MAX_GLYPHS_IN_GROUP then MoveGlyphToNextGroup(gs, cellIdx, gi) else gs;
      var r := SetLast(gs1, Last(gs1).(numCells := Min(Last(gs1).numCells + slots, MAX_GLYPHS_IN_GROUP)));
      assert forall i :: 0 <= i < |gs1| - 1 ==> r[i] == gs1[i];
    }
  }

  /** The placement of a glyph (either form of the move) keeps every group's glyphs among those placed. */
  lemma {:induction false} PlaceKeepsGlyphsPlaced(s: State, inp: Input, special: bool, empty: bool, asWritten: bool)
    requires WellFormed(s) && s.glyphIdx < |inp.glyphs| && GlyphsPlaced(s.groups, s.glyphIdx)
    ensures var r := Place(s, inp, special, empty, asWritten); GlyphsPlaced(r.groups, r.glyphIdx)
  {
    var gi := s.glyphIdx;
    var gs1 := Admit(s.groups, gi, s.cellIdx, s.prevSpecial, s.prevEmpty, special);
    AdmitKeepsGlyphsPlaced(s.groups, gi, s.cellIdx, s.prevSpecial, s.prevEmpty, special);
    if gi == |inp.glyphs| - 1 {
      AbsorbKeepsGlyphsPlaced(gs1, s.cellIdx, |inp.cells|, gi);
    } else {
      var c := Consume(ConsumeState(s.cell, s.cellIdx, 0), CodepointsUsed(inp.glyphs, gi), inp.cells, inp.marks);
      AfterConsumeKeepsGlyphsPlaced(gs1, s.cellIdx, c.cellIdx, c.consumed, gi, special, asWritten);
    }
  }

  /** The loop keeps every group's glyphs among those placed. */
  lemma {:induction false} RunKeepsGlyphsPlaced(s: State, inp: Input, asWritten: bool)
    requires WellFormed(s) && GlyphsPlaced(s.groups, s.glyphIdx)
    ensures var r := Run(s, inp, asWritten); GlyphsPlaced(r.groups, r.glyphIdx) && r.glyphIdx <= Max(s.glyphIdx, |inp.glyphs|)
    decreases |inp.glyphs| - s.glyphIdx
  {
    if s.glyphIdx < |inp.glyphs| && s.cellIdx < |inp.cells| {
      var c := Classify(s, inp);
      PlaceKeepsGlyphsPlaced(s.(cache := c.cache), inp, c.special, c.empty, asWritten);
      RunKeepsGlyphsPlaced(Step(s, inp, asWritten), inp, asWritten);
    }
  }

  /** Every group shape_run produces names glyphs of the shaped run only. */
  lemma ShapeRunGlyphsInRange(inp: Input, cache: seq<seq<SC.CacheNode>>)
    requires |cache| == SC.CACHE_SIZE
    ensures var gs := ShapeRun(inp, cache).groups;
      forall i :: 0 <= i < |gs| ==> gs[i].firstGlyph + gs[i].numGlyphs <= |inp.glyphs|
  {
    RunKeepsGlyphsPlaced(Init(inp, cache), inp, false);
  }

  // ---------------------------------------------------------------------
  // After shaping: the PUA space ligature merge and the cursor split

  /** g0 after `times` turns of the merge loop, each adding g1's cells and glyphs (glyphs capped at 9). */
  function AddRepeatedly(g0: Group, g1: Group, times: nat): Group
    decreases times
  {
    if times == 0 then g0
    else AddRepeatedly(g0.(numCells := g0.numCells + g1.numCells,
                           numGlyphs := Min(g0.numGlyphs + g1.numGlyphs, MAX_GLYPHS_IN_GROUP)), g1, times - 1)
  }

  /**
   * merge_groups_for_pua_space_ligature on the groups 0..group_idx: the loop
   * runs group_idx times and each turn adds groups[1] (not the next group in
   * turn) to groups[0]; group_idx ends at 0 and groups[0] is flagged as a
   * space ligature.
   */
  function MergeForPuaSpaceLigature(gs: seq<Group>): Group
    requires |gs| >= 1
  {
    (if |gs| == 1 then gs[0] else AddRepeatedly(gs[0], gs[1], |gs| - 1)).(isSpaceLigature := true)
  }

  lemma MulSucc(t: nat, x: nat)
    ensures (t + 1) * x == t * x + x
  {
  }

  /** The merge in closed form: the first group keeps its start and gains (group_idx times) groups[1]'s counts. */
  lemma {:induction false} AddRepeatedlyClosedForm(g0: Group, g1: Group, times: nat)
    requires g0.numGlyphs <= MAX_GLYPHS_IN_GROUP
    ensures var r := AddRepeatedly(g0, g1, times);
      && r.firstCell == g0.firstCell && r.firstGlyph == g0.firstGlyph
      && r.hasSpecialGlyph == g0.hasSpecialGlyph && r.isSpaceLigature == g0.isSpaceLigature
      && r.numCells == g0.numCells + times * g1.numCells
      && r.numGlyphs == Min(g0.numGlyphs + times * g1.numGlyphs, MAX_GLYPHS_IN_GROUP)
    decreases times
  {
    if times > 0 {
      var g := g0.(numCells := g0.numCells + g1.numCells,
                   numGlyphs := Min(g0.numGlyphs + g1.numGlyphs, MAX_GLYPHS_IN_GROUP));
      AddRepeatedlyClosedForm(g, g1, times - 1);
      var t := times - 1;
      assert times * g1.numCells == t * g1.numCells + g1.numCells by { MulSucc(t, g1.numCells); }
      assert times * g1.numGlyphs == t * g1.numGlyphs + g1.numGlyphs by { MulSucc(t, g1.numGlyphs); }
    }
  }

  /**
   * The merged group: with k = group_idx, it starts where groups[0] starts and
   * covers groups[0].num_cells + k * groups[1].num_cells cells with
   * min(groups[0].num_glyphs + k * groups[1].num_glyphs, 9) glyphs; with two
   * groups that is exactly their union.
   */
  lemma MergeCounts(gs: seq<Group>)
    requires |gs| >= 2 && gs[0].numGlyphs <= MAX_GLYPHS_IN_GROUP
    ensures var r := MergeForPuaSpaceLigature(gs); var k := |gs| - 1;
      && r.isSpaceLigature && r.firstCell == gs[0].firstCell && r.firstGlyph == gs[0].firstGlyph
      && r.numCells == gs[0].numCells + k * gs[1].numCells
      && r.numGlyphs == Min(gs[0].numGlyphs + k * gs[1].numGlyphs, MAX_GLYPHS_IN_GROUP)
      && (|gs| == 2 && gs[1].firstCell == End(gs[0]) ==> End(r) == End(gs[1]))
  {
    AddRepeatedlyClosedForm(gs[0], gs[1], |gs| - 1);
  }

  /** Whether split_run_at_offset may split out a group: more than one cell, a special glyph, a narrow first cell. */
  predicate Splittable(g: Group, cells: seq<RunCell>)
  {
    g.numCells > 1 && g.hasSpecialGlyph && Width(CellAt(cells, g.firstCell).gpu.attrs) == 1
  }

  predicate Contains(g: Group, offset: nat)
  {
    g.firstCell <= offset < End(g)
  }

  /** split_run_at_offset from group i on: the range of the first group holding the offset, or (0, 0). */
  function SplitFrom(gs: seq<Group>, cells: seq<RunCell>, offset: nat, i: nat): (r: (nat, nat))
    requires i <= |gs|
    decreases |gs| - i
  {
    if i == |gs| then (0, 0)
    else if Contains(gs[i], offset) then
      (if Splittable(gs[i], cells) then (gs[i].firstCell, End(gs[i])) else (0, 0))
    else SplitFrom(gs, cells, offset, i + 1)
  }

  function SplitRunAtOffset(gs: seq<Group>, cells: seq<RunCell>, offset: nat): (nat, nat)
  {
    SplitFrom(gs, cells, offset, 0)
  }

  /**
   * The split range is that of the first group holding the offset when that
   * group is splittable, and (0, 0) when it is not or no group holds it.
   */
  lemma {:induction false} SplitFromFirstHolder(gs: seq<Group>, cells: seq<RunCell>, offset: nat, i: nat, j: nat)
    requires i <= j <= |gs|
    requires forall m :: i <= m < j ==> !Contains(gs[m], offset)
    requires j < |gs| ==> Contains(gs[j], offset)
    ensures SplitFrom(gs, cells, offset, i) ==
      if j < |gs| && Splittable(gs[j], cells) then (gs[j].firstCell, End(gs[j])) else (0, 0)
    decreases j - i
  {
    if i < j {
      SplitFromFirstHolder(gs, cells, offset, i + 1, j);
    }
  }

  /** Whatever the groups, a non-empty split range is a splittable group that holds the offset. */
  lemma {:induction false} SplitRangeIsHolder(gs: seq<Group>, cells: seq<RunCell>, offset: nat, i: nat)
    requires i <= |gs|
    ensures var r := SplitFrom(gs, cells, offset, i);
      r == (0, 0) || exists m :: i <= m < |gs| && Contains(gs[m], offset) && Splittable(gs[m], cells)
                                 && r == (gs[m].firstCell, End(gs[m]))
    decreases |gs| - i
  {
    if i < |gs| && !Contains(gs[i], offset) {
      SplitRangeIsHolder(gs, cells, offset, i + 1);
    }
  }
}

module GroupingFindings {
  import opened Common
  import opened DataTypes
  import opened Grouping
  import SC = SpecialCache

  /** Twelve narrow cells of 'a' shaped into three glyphs at clusters 0, 6 and 11. */
  function MoveExample(): Input
  {
    Input(seq(12, _ => RunCell(CPUCell(97, 0, 0), GPUCell(0, 0, 0, 0, 0, 0, 1))),
          [GlyphInfo(1, 0), GlyphInfo(2, 6), GlyphInfo(3, 11)],
          Marks(0xFE0E, 0xFE0F, m => m), _ => 0, g => g == 1)
  }

  /**
   * A step on a glyph the cache has not seen, whose id differs from the
   * glyph of the current codepoint: the glyph is special, its emptiness is
   * asked of the face, and the cache learns nothing about other glyphs.
   */
  lemma StepOnFreshSpecial(s: State, inp: Input, asWritten: bool)
    requires WellFormed(s) && s.glyphIdx < |inp.glyphs| && SC.TableInv(s.cache)
    requires var g := inp.glyphs[s.glyphIdx].glyph; var cp := s.cell.currentCodepoint;
      cp != 0 && g != inp.glyphIdFor(cp)
      && SC.Recorded(s.cache, g, SC.Special) == None && SC.Recorded(s.cache, g, SC.Empty) == None
    ensures var g := inp.glyphs[s.glyphIdx].glyph; var r := Step(s, inp, asWritten);
      && r == Place(s.(cache := r.cache), inp, true, inp.isGlyphEmpty(g), asWritten)
      && SC.TableInv(r.cache)
      && forall g2: nat, k: SC.Kind | g2 != g :: SC.Recorded(r.cache, g2, k) == SC.Recorded(s.cache, g2, k)
  {
    var g := inp.glyphs[s.glyphIdx].glyph;
    var t := s.cache;
    SC.QueryAnswer(t, g, SC.Special, true);
    SC.QueryKeepsInv(t, g, SC.Special, true);
    var q := SC.Query(t, g, SC.Special, true);
    SC.QueryKeepsOthers(t, g, SC.Special, true, g, SC.Empty);
    SC.QueryAnswer(q.buckets, g, SC.Empty, inp.isGlyphEmpty(g));
    SC.QueryKeepsInv(q.buckets, g, SC.Empty, inp.isGlyphEmpty(g));
    forall g2: nat, k: SC.Kind | g2 != g
      ensures SC.Recorded(SC.Query(q.buckets, g, SC.Empty, inp.isGlyphEmpty(g)).buckets, g2, k) == SC.Recorded(t, g2, k)
    {
      SC.QueryKeepsOthers(t, g, SC.Special, true, g2, k);
      SC.QueryKeepsOthers(q.buckets, g, SC.Empty, inp.isGlyphEmpty(g), g2, k);
    }
  }

  const A_CELL: RunCell := RunCell(CPUCell(97, 0, 0), GPUCell(0, 0, 0, 0, 0, 0, 1))

  /** Over cells of plain narrow 'a's, n codepoints are n cells. */
  lemma {:induction false} ConsumePlainCells(cells: seq<RunCell>, p: nat, n: nat, consumed: nat, marks: Marks)
    requires forall q :: 0 <= q < |cells| ==> cells[q] == A_CELL
    requires p + n < |cells|
    ensures Consume(ConsumeState(CellData(p, 1, 0, 97), p, consumed), n, cells, marks)
            == ConsumeState(CellData(p + n, 1, 0, 97), p + n, consumed + n)
    decreases n
  {
    if n > 0 {
      assert CellAt(cells, p) == A_CELL && cells[p + 1] == A_CELL;
      assert CheckCellConsumed(CellData(p, 1, 0, 97), cells, marks) == Consumed(CellData(p + 1, 1, 0, 97), 1);
      ConsumePlainCells(cells, p + 1, n - 1, consumed + 1, marks);
    }
  }

  /** The state shape_run starts from on the example: one empty group, at the first cell, an 'a'. */
  function BeforeFirst(t: seq<seq<SC.CacheNode>>): State
  {
    State([EMPTY_GROUP], 0, 0, false, false, CellData(0, 1, 0, 97), t)
  }

  /** The state after glyph 0 took cells [0, 6). */
  function AfterFirst(t: seq<seq<SC.CacheNode>>): State
  {
    State([Group(0, 0, 1, 6, true, false)], 1, 6, true, true, CellData(6, 1, 0, 97), t)
  }

  /** The state after glyph 1 took cells [6, 11) and was moved to a group starting at `movedTo`. */
  function AfterSecond(t: seq<seq<SC.CacheNode>>, movedTo: nat): State
  {
    State([Group(0, 0, 1, 6, true, false), Group(1, movedTo, 1, 5, false, false)], 2, 11, true, false,
          CellData(11, 1, 0, 97), t)
  }

  /** An input shaped like MoveExample: twelve plain 'a' cells and its three glyphs. */
  ghost predicate LikeMoveExample(inp: Input)
  {
    |inp.cells| == 12 && (forall q :: 0 <= q < |inp.cells| ==> inp.cells[q] == A_CELL)
    && inp.glyphs == [GlyphInfo(1, 0), GlyphInfo(2, 6), GlyphInfo(3, 11)]
  }

  lemma MoveExampleIsLike()
    ensures LikeMoveExample(MoveExample())
  {
    var inp := MoveExample();
    assert forall q :: 0 <= q < 12 ==> inp.cells[q] == A_CELL;
  }

  /** Glyph 0 of the example uses 6 codepoints, which take the plain cells [0, 6). */
  lemma FirstConsumesSix(inp: Input)
    requires LikeMoveExample(inp)
    ensures Consume(ConsumeState(CellData(0, 1, 0, 97), 0, 0), CodepointsUsed(inp.glyphs, 0), inp.cells, inp.marks)
            == ConsumeState(CellData(6, 1, 0, 97), 6, 6)
  {
    assert CodepointsUsed(inp.glyphs, 0) == 6;
    ConsumePlainCells(inp.cells, 0, 6, 0, inp.marks);
  }

  lemma PlaceFirst(inp: Input, t: seq<seq<SC.CacheNode>>, asWritten: bool)
    requires LikeMoveExample(inp) && |t| == SC.CACHE_SIZE
    ensures Place(BeforeFirst(t), inp, true, true, asWritten) == AfterFirst(t)
  {
    FirstConsumesSix(inp);
  }

  lemma PlaceSecond(inp: Input, t: seq<seq<SC.CacheNode>>, asWritten: bool)
    requires LikeMoveExample(inp) && |t| == SC.CACHE_SIZE
    ensures Place(AfterFirst(t), inp, true, false, asWritten) == AfterSecond(t, if asWritten then 11 else 6)
  {
    var gs1 := Admit(AfterFirst(t).groups, 1, 6, true, true, true);
    assert gs1 == [Group(0, 0, 2, 6, true, false)];
    assert CodepointsUsed(inp.glyphs, 1) == 5;
    ConsumePlainCells(inp.cells, 6, 5, 0, inp.marks);
    var movedTo := if asWritten then 11 else 6;
    assert AfterConsume(gs1, 6, 11, 5, 1, true, asWritten)
      == [Group(0, 0, 1, 6, true, false), Group(1, movedTo, 1, 5, false, false)];
  }

  lemma PlaceThird(t: seq<seq<SC.CacheNode>>, movedTo: nat, asWritten: bool)
    requires |t| == SC.CACHE_SIZE
    ensures var inp := MoveExample(); var r := Place(AfterSecond(t, movedTo), inp, true, false, asWritten);
      r.groups == AfterSecond(t, movedTo).groups + [Group(2, 11, 1, 1, true, false)] && r.glyphIdx == 3
  {
  }

  /** Nothing is recorded about glyph g. */
  ghost predicate Unseen(t: seq<seq<SC.CacheNode>>, g: nat)
    requires |t| == SC.CACHE_SIZE
  {
    SC.Recorded(t, g, SC.Special) == None && SC.Recorded(t, g, SC.Empty) == None
  }

  lemma FirstStep(inp: Input, t0: seq<seq<SC.CacheNode>>, asWritten: bool)
    requires inp == MoveExample()
    requires SC.TableInv(t0) && Unseen(t0, 1) && Unseen(t0, 2) && Unseen(t0, 3)
    ensures var s1 := Step(Init(inp, t0), inp, asWritten);
      s1 == AfterFirst(s1.cache) && SC.TableInv(s1.cache) && Unseen(s1.cache, 2) && Unseen(s1.cache, 3)
  {
    var s0 := Init(inp, t0);
    assert inp.cells[0] == A_CELL;
    assert s0 == BeforeFirst(t0);
    StepOnFreshSpecial(s0, inp, asWritten);
    MoveExampleIsLike();
    PlaceFirst(inp, Step(s0, inp, asWritten).cache, asWritten);
  }

  lemma SecondStep(inp: Input, t: seq<seq<SC.CacheNode>>, asWritten: bool)
    requires inp == MoveExample()
    requires SC.TableInv(t) && |t| == SC.CACHE_SIZE && Unseen(t, 2) && Unseen(t, 3)
    ensures var s2 := Step(AfterFirst(t), inp, asWritten);
      s2 == AfterSecond(s2.cache, if asWritten then 11 else 6) && SC.TableInv(s2.cache) && Unseen(s2.cache, 3)
  {
    StepOnFreshSpecial(AfterFirst(t), inp, asWritten);
    MoveExampleIsLike();
    PlaceSecond(inp, Step(AfterFirst(t), inp, asWritten).cache, asWritten);
  }

  /** The groups shape_run makes of MoveExample when glyph 1's group starts at `movedTo`. */
  function ExampleGroups(movedTo: nat): seq<Group>
  {
    [Group(0, 0, 1, 6, true, false), Group(1, movedTo, 1, 5, false, false), Group(2, 11, 1, 1, true, false)]
  }

  lemma ThirdStep(inp: Input, t: seq<seq<SC.CacheNode>>, movedTo: nat, asWritten: bool)
    requires inp == MoveExample()
    requires SC.TableInv(t) && |t| == SC.CACHE_SIZE && Unseen(t, 3)
    ensures var s3 := Step(AfterSecond(t, movedTo), inp, asWritten);
      s3.groups == ExampleGroups(movedTo) && s3.glyphIdx == 3
  {
    StepOnFreshSpecial(AfterSecond(t, movedTo), inp, asWritten);
    PlaceThird(Step(AfterSecond(t, movedTo), inp, asWritten).cache, movedTo, asWritten);
  }

  lemma RunOnce(s: State, inp: Input, asWritten: bool)
    requires WellFormed(s) && s.glyphIdx < |inp.glyphs| && s.cellIdx < |inp.cells|
    ensures Run(s, inp, asWritten) == Run(Step(s, inp, asWritten), inp, asWritten)
  {
  }

  /** The first two turns of the loop on MoveExample. */
  lemma MoveExampleTwoSteps(inp: Input, t0: seq<seq<SC.CacheNode>>, asWritten: bool)
    requires inp == MoveExample()
    requires SC.TableInv(t0) && Unseen(t0, 1) && Unseen(t0, 2) && Unseen(t0, 3)
    ensures var s1 := Step(Init(inp, t0), inp, asWritten); var s2 := Step(s1, inp, asWritten);
      && s1.glyphIdx == 1 && s1.cellIdx == 6
      && s2 == AfterSecond(s2.cache, if asWritten then 11 else 6) && SC.TableInv(s2.cache) && Unseen(s2.cache, 3)
      && s2.glyphIdx == 2 && s2.cellIdx == 11
  {
    FirstStep(inp, t0, asWritten);
    var s1 := Step(Init(inp, t0), inp, asWritten);
    SecondStep(inp, s1.cache, asWritten);
  }

  /** The three turns of the loop on MoveExample. */
  lemma MoveExampleSteps(inp: Input, t0: seq<seq<SC.CacheNode>>, asWritten: bool)
    requires inp == MoveExample()
    requires SC.TableInv(t0) && Unseen(t0, 1) && Unseen(t0, 2) && Unseen(t0, 3)
    ensures var s1 := Step(Init(inp, t0), inp, asWritten); var s2 := Step(s1, inp, asWritten);
      var s3 := Step(s2, inp, asWritten);
      && s1.glyphIdx == 1 && s1.cellIdx == 6 && s2.glyphIdx == 2 && s2.cellIdx == 11
      && s3.glyphIdx == 3 && s3.groups == ExampleGroups(if asWritten then 11 else 6)
  {
    MoveExampleTwoSteps(inp, t0, asWritten);
    var s2 := Step(Step(Init(inp, t0), inp, asWritten), inp, asWritten);
    var movedTo := if asWritten then 11 else 6;
    ThirdStep(inp, s2.cache, movedTo, asWritten);
  }

  /** What shape_run makes of MoveExample, as written and corrected. */
  lemma MoveExampleRun(inp: Input, t0: seq<seq<SC.CacheNode>>, asWritten: bool)
    requires inp == MoveExample()
    requires SC.TableInv(t0) && Unseen(t0, 1) && Unseen(t0, 2) && Unseen(t0, 3)
    ensures Run(Init(inp, t0), inp, asWritten).groups == ExampleGroups(if asWritten then 11 else 6)
  {
    MoveExampleSteps(inp, t0, asWritten);
    var s0 := Init(inp, t0);
    var s1 := Step(s0, inp, asWritten);
    var s2 := Step(s1, inp, asWritten);
    RunOnce(s0, inp, asWritten);
    RunOnce(s1, inp, asWritten);
    RunOnce(s2, inp, asWritten);
  }

  /**
   * As written, a glyph moved to a new group because its cells overflow the
   * current one starts that group where its cells END: in MoveExample glyph 1
   * covers cells 6 to 10, but its group starts at cell 11, the same cell as
   * the next group, and cells 6 to 10 belong to no group.
   */
  lemma AsWrittenMovedGroupSkipsCells()
    ensures var r := ShapeRunAsWritten(MoveExample(), SC.EmptyTable());
      |r.groups| == 3 && End(r.groups[0]) == 6 && r.groups[1].numGlyphs > 0
      && r.groups[1].firstCell == 11 && r.groups[1].firstCell != End(r.groups[0])
      && r.groups[2].firstCell == r.groups[1].firstCell
  {
    MoveExampleRun(MoveExample(), SC.EmptyTable(), true);
  }

  /** The corrected builder covers MoveExample with [0, 6), [6, 11) and [11, 12). */
  lemma CorrectedMoveTilesExample()
    ensures var r := ShapeRun(MoveExample(), SC.EmptyTable());
      |r.groups| == 3 && r.groups[0].firstCell == 0
      && r.groups[1].firstCell == End(r.groups[0]) == 6 && r.groups[2].firstCell == End(r.groups[1]) == 11
      && End(r.groups[2]) == |MoveExample().cells|
  {
    MoveExampleRun(MoveExample(), SC.EmptyTable(), false);
  }
}
