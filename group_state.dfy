/**
 * The static group_state of kitty/fonts.c and the functions that update it in
 * place: shape_run's loop, check_cell_consumed, the move to the next group,
 * the PUA space ligature merge and the cursor split. Each method is proved
 * equal to its specification in module Grouping.
 */
module GroupStates {
  import opened Common
  import opened DataTypes
  import opened Grouping
  import SC = SpecialCache

  /** The loop of shape_run that emits the groups of an overlong glyph, on a copy of the groups. */
  method EmitSplit(gs0: seq<Group>, gi: nat, start: nat, consumed: nat) returns (gs: seq<Group>)
    ensures gs == SplitOverlong(gs0, gi, start, consumed)
  {
    gs := gs0;
    var remaining: nat := consumed;
    var from: nat := start;
    while remaining > 0
      invariant SplitOverlong(gs, gi, from, remaining) == SplitOverlong(gs0, gi, start, consumed)
      decreases remaining
    {
      var n := Min(remaining, MAX_GLYPHS_IN_GROUP);
      gs := gs + [Group(gi, from, 1, n, false, false)];
      from := from + n;
      remaining := remaining - n;
    }
  }

  /** One turn of the consume loop. */
  lemma ConsumeUnfold(st: ConsumeState, ncp: nat, cells: seq<RunCell>, marks: Marks)
    requires st.cell.numCodepoints <= 3 && ncp > 0 && st.cellIdx < |cells|
    ensures var c := Grouping.CheckCellConsumed(st.cell, cells, marks);
      Consume(st, ncp, cells, marks)
      == Consume(ConsumeState(c.cell, st.cellIdx + c.width, st.consumed + c.width), ncp - 1, cells, marks)
  {
  }

  /** The consume loop stops once no codepoints remain or the run is exhausted. */
  lemma ConsumeDone(st: ConsumeState, ncp: nat, cells: seq<RunCell>, marks: Marks)
    requires st.cell.numCodepoints <= 3 && (ncp == 0 || st.cellIdx >= |cells|)
    ensures Consume(st, ncp, cells, marks) == st
  {
  }

  class GroupState {
    /** groups[0..group_idx]: the last one is the current group. */
    var groups: seq<Group>
    var glyphIdx: nat
    var cellIdx: nat
    var prevWasSpecial: bool
    var prevWasEmpty: bool
    var currentCell: CellData
    /** The run being shaped (first_cpu_cell/first_gpu_cell and num_cells). */
    var cells: seq<RunCell>

    /** The builder's state as the specification sees it, with the font's cache contents bs. */
    function Snapshot(bs: seq<seq<SC.CacheNode>>): State
      reads this
    {
      State(groups, glyphIdx, cellIdx, prevWasSpecial, prevWasEmpty, currentCell, bs)
    }

    constructor ()
      ensures groups == [EMPTY_GROUP] && glyphIdx == 0 && cellIdx == 0 && cells == []
    {
      groups := [EMPTY_GROUP];
      glyphIdx, cellIdx := 0, 0;
      prevWasSpecial, prevWasEmpty := false, false;
      currentCell := CellData(0, 1, 0, 0);
      cells := [];
    }

    /** check_cell_consumed on current_cell_data. */
    method CheckCellConsumed(marks: Marks) returns (w: nat)
      requires currentCell.numCodepoints <= 3
      modifies this
      ensures Consumed(currentCell, w) == Grouping.CheckCellConsumed(old(currentCell), cells, marks)
      ensures groups == old(groups) && glyphIdx == old(glyphIdx) && cellIdx == old(cellIdx)
      ensures prevWasSpecial == old(prevWasSpecial) && prevWasEmpty == old(prevWasEmpty) && cells == old(cells)
    {
      var cd := currentCell;
      cd := cd.(consumed := cd.consumed + 1);
      if cd.consumed >= cd.numCodepoints {
        var c := CellAt(cells, cd.ptr);
        w := Width(c.gpu.attrs);
        cd := cd.(ptr := cd.ptr + Max(1, w), consumed := 0);
        var last := if |cells| > 0 then |cells| - 1 else 0;
        if cd.ptr <= last {
          cd := cd.(numCodepoints := NumCodepointsInCell(cells[cd.ptr].cpu), currentCodepoint := cells[cd.ptr].cpu.ch);
        } else {
          cd := cd.(currentCodepoint := 0);
        }
      } else {
        var mark := MarkAt(CellAt(cells, cd.ptr).cpu, cd.consumed - 1);
        cd := cd.(currentCodepoint := if mark == marks.vs15 || mark == marks.vs16 then 0 else marks.codepointForMark(mark));
        w := 0;
      }
      currentCell := cd;
    }

    /** group_state_move_glyph_to_next_group, the new group starting at startCell. */
    method MoveGlyphToNextGroup(startCell: nat)
      requires |groups| >= 1 && Last(groups).numGlyphs >= 1
      modifies this
      ensures groups == Grouping.MoveGlyphToNextGroup(old(groups), startCell, glyphIdx)
      ensures glyphIdx == old(glyphIdx) && cellIdx == old(cellIdx) && currentCell == old(currentCell)
      ensures prevWasSpecial == old(prevWasSpecial) && prevWasEmpty == old(prevWasEmpty) && cells == old(cells)
    {
      var g := groups[|groups| - 1];
      groups := groups[|groups| - 1 := g.(numGlyphs := g.numGlyphs - 1)];
      groups := groups + [Group(glyphIdx, startCell, 1, 0, false, false)];
    }

    /** The start of the loop body: decide whether the glyph joins the current group, and add it. */
    method AdmitGlyph(special: bool)
      requires |groups| >= 1
      modifies this
      ensures groups == Admit(old(groups), glyphIdx, cellIdx, prevWasSpecial, prevWasEmpty, special)
      ensures glyphIdx == old(glyphIdx) && cellIdx == old(cellIdx) && currentCell == old(currentCell)
      ensures prevWasSpecial == old(prevWasSpecial) && prevWasEmpty == old(prevWasEmpty) && cells == old(cells)
    {
      var cur := groups[|groups| - 1];
      var add: bool;
      if cur.numGlyphs == 0 {
        add := true;
      } else if special {
        add := prevWasEmpty;
      } else {
        add := !prevWasSpecial;
      }
      if cur.numGlyphs >= MAX_GLYPHS_IN_GROUP || cur.numCells >= MAX_GLYPHS_IN_GROUP {
        add := false;
      }
      if !add {
        groups := groups + [EMPTY_GROUP];
      }
      cur := groups[|groups| - 1];
      if cur.numGlyphs == 0 {
        cur := cur.(firstGlyph := glyphIdx, firstCell := cellIdx);
      }
      cur := cur.(numGlyphs := cur.numGlyphs + 1);
      if special {
        cur := cur.(hasSpecialGlyph := true);
      }
      groups := groups[|groups| - 1 := cur];
    }

    /** The last glyph absorbs all remaining cells. */
    method AbsorbRemainingCells()
      requires |groups| >= 1 && Last(groups).numGlyphs >= 1
      modifies this
      ensures (groups, cellIdx) == AbsorbRest(old(groups), old(cellIdx), |cells|, glyphIdx)
      ensures glyphIdx == old(glyphIdx) && currentCell == old(currentCell)
      ensures prevWasSpecial == old(prevWasSpecial) && prevWasEmpty == old(prevWasEmpty) && cells == old(cells)
    {
      if cellIdx < |cells| {
        var slots := |cells| - cellIdx;
        if groups[|groups| - 1].numCells + slots > MAX_GLYPHS_IN_GROUP {
          MoveGlyphToNextGroup(cellIdx);
        }
        var g := groups[|groups| - 1];
        groups := groups[|groups| - 1 := g.(numCells := Min(g.numCells + slots, MAX_GLYPHS_IN_GROUP))];
        cellIdx := cellIdx + slots;
      }
    }

    /** One turn of shape_run's inner loop: check_cell_consumed, then advance cell_idx by the width it returns. */
    method ConsumeCodepoint(ncp: nat, consumed: nat, marks: Marks, ghost run: seq<RunCell>, ghost target: ConsumeState)
      returns (consumed': nat)
      requires ncp > 0 && cells == run && cellIdx < |run| && currentCell.numCodepoints <= 3
      requires Consume(ConsumeState(currentCell, cellIdx, consumed), ncp, run, marks) == target
      modifies this
      ensures glyphIdx == old(glyphIdx) && cells == run && groups == old(groups)
      ensures prevWasSpecial == old(prevWasSpecial) && prevWasEmpty == old(prevWasEmpty)
      ensures currentCell.numCodepoints <= 3
      ensures Consume(ConsumeState(currentCell, cellIdx, consumed'), ncp - 1, run, marks) == target
    {
      ConsumeUnfold(ConsumeState(currentCell, cellIdx, consumed), ncp, cells, marks);
      var w := CheckCellConsumed(marks);
      cellIdx := cellIdx + w;
      consumed' := consumed + w;
    }

    /** The inner loop of shape_run: advance over the cells of the glyph's codepoints. */
    method ConsumeCodepoints(inp: Input) returns (consumed: nat)
      requires glyphIdx < |inp.glyphs| && currentCell.numCodepoints <= 3 && cells == inp.cells
      modifies this
      ensures glyphIdx == old(glyphIdx) && cells == old(cells) && groups == old(groups)
      ensures prevWasSpecial == old(prevWasSpecial) && prevWasEmpty == old(prevWasEmpty)
      ensures ConsumeState(currentCell, cellIdx, consumed)
        == Consume(ConsumeState(old(currentCell), old(cellIdx), 0), CodepointsUsed(inp.glyphs, glyphIdx), inp.cells, inp.marks)
    {
      consumed := 0;
      var ncp := CodepointsUsed(inp.glyphs, glyphIdx);
      ghost var target := Consume(ConsumeState(currentCell, cellIdx, 0), ncp, inp.cells, inp.marks);
      while ncp != 0 && cellIdx < |cells|
        invariant currentCell.numCodepoints <= 3 && cells == inp.cells && groups == old(groups)
        invariant glyphIdx == old(glyphIdx)
        invariant prevWasSpecial == old(prevWasSpecial) && prevWasEmpty == old(prevWasEmpty)
        invariant Consume(ConsumeState(currentCell, cellIdx, consumed), ncp, inp.cells, inp.marks) == target
        decreases ncp
      {
        consumed := ConsumeCodepoint(ncp, consumed, inp.marks, inp.cells, target);
        ncp := ncp - 1;
      }
      ConsumeDone(ConsumeState(currentCell, cellIdx, consumed), ncp, inp.cells, inp.marks);
    }

    /** A glyph that consumed more than MAX_GLYPHS_IN_GROUP cells gets single-glyph groups of its own. */
    method EmitOverlongGroups(start: nat, consumed: nat)
      requires |groups| >= 1 && Last(groups).numGlyphs >= 1
      modifies this
      ensures groups == SplitOverlong(SetLast(old(groups), Last(old(groups)).(numGlyphs := Last(old(groups)).numGlyphs - 1)),
                                      glyphIdx, start, consumed)
      ensures glyphIdx == old(glyphIdx) && cellIdx == old(cellIdx) && currentCell == old(currentCell)
      ensures prevWasSpecial == old(prevWasSpecial) && prevWasEmpty == old(prevWasEmpty) && cells == old(cells)
    {
      var g := groups[|groups| - 1];
      groups := EmitSplit(groups[|groups| - 1 := g.(numGlyphs := g.numGlyphs - 1)], glyphIdx, start, consumed);
    }

    /** A glyph that consumed 1..MAX_GLYPHS_IN_GROUP cells: its group grows by them, moving the glyph when full. */
    method AddConsumedCells(start: nat, consumed: nat, special: bool)
      requires |groups| >= 1 && Last(groups).numGlyphs >= 1
      modifies this
      ensures groups == (
        var gs1 := if consumed + Last(old(groups)).numCells > MAX_GLYPHS_IN_GROUP
                   then Grouping.MoveGlyphToNextGroup(old(groups), start, glyphIdx) else old(groups);
        var gs2 := SetLast(gs1, Last(gs1).(numCells := Last(gs1).numCells + consumed));
        if !special then gs2 + [EMPTY_GROUP] else gs2)
      ensures glyphIdx == old(glyphIdx) && cellIdx == old(cellIdx) && currentCell == old(currentCell)
      ensures prevWasSpecial == old(prevWasSpecial) && prevWasEmpty == old(prevWasEmpty) && cells == old(cells)
    {
      if consumed + groups[|groups| - 1].numCells > MAX_GLYPHS_IN_GROUP {
        MoveGlyphToNextGroup(start);
      }
      var g := groups[|groups| - 1];
      groups := groups[|groups| - 1 := g.(numCells := g.numCells + consumed)];
      if !special {
        groups := groups + [EMPTY_GROUP];
      }
    }

    /** Files the cells a non-last glyph consumed (corrected move: the moved glyph's group starts at `start`). */
    method FileConsumedCells(start: nat, consumed: nat, special: bool)
      requires |groups| >= 1 && Last(groups).numGlyphs >= 1
      modifies this
      ensures groups == AfterConsume(old(groups), start, cellIdx, consumed, glyphIdx, special, false)
      ensures glyphIdx == old(glyphIdx) && cellIdx == old(cellIdx) && currentCell == old(currentCell)
      ensures prevWasSpecial == old(prevWasSpecial) && prevWasEmpty == old(prevWasEmpty) && cells == old(cells)
    {
      if consumed > MAX_GLYPHS_IN_GROUP {
        EmitOverlongGroups(start, consumed);
      } else if consumed > 0 {
        AddConsumedCells(start, consumed, special);
      }
    }

    /** The body of shape_run's loop for a glyph already classified (with the corrected move). */
    method PlaceGlyph(inp: Input, special: bool, empty: bool, ghost bs: seq<seq<SC.CacheNode>>)
      requires WellFormed(Snapshot(bs)) && glyphIdx < |inp.glyphs| && cells == inp.cells
      modifies this
      ensures Snapshot(bs) == Place(old(Snapshot(bs)), inp, special, empty, false) && cells == old(cells)
    {
      AdmitGlyph(special);
      if glyphIdx == |inp.glyphs| - 1 {
        AbsorbRemainingCells();
      } else {
        var start := cellIdx;
        var consumed := ConsumeCodepoints(inp);
        FileConsumedCells(start, consumed, special);
      }
      prevWasSpecial := special;
      prevWasEmpty := empty;
      glyphIdx := glyphIdx + 1;
    }

    /**
     * shape_run after shaping (with the corrected move): the state is reset
     * to one zeroed group on the run's first cell, and every glyph is
     * classified through the font's special-glyph cache and placed, while
     * glyphs and cells remain.
     */
    method ShapeRun(inp: Input, cache: SC.SpecialGlyphCache)
      requires cache.Valid()
      modifies this, cache.buckets
      ensures cache.Valid() && cells == inp.cells
      ensures Snapshot(cache.buckets[..]) == Grouping.ShapeRun(inp, old(cache.buckets[..]))
    {
      ghost var t0 := cache.buckets[..];
      var c0 := CellAt(inp.cells, 0);
      groups := [EMPTY_GROUP];
      glyphIdx, cellIdx := 0, 0;
      prevWasSpecial, prevWasEmpty := false, false;
      currentCell := CellData(0, NumCodepointsInCell(c0.cpu), 0, c0.cpu.ch);
      cells := inp.cells;
      assert Snapshot(t0) == Init(inp, t0);
      while glyphIdx < |inp.glyphs| && cellIdx < |cells|
        invariant cache.Valid() && cells == inp.cells
        invariant WellFormed(Snapshot(cache.buckets[..]))
        invariant Run(Snapshot(cache.buckets[..]), inp, false) == Run(Init(inp, t0), inp, false)
        decreases |inp.glyphs| - glyphIdx
      {
        ghost var s := Snapshot(cache.buckets[..]);
        var g := inp.glyphs[glyphIdx].glyph;
        var special := cache.IsSpecialGlyph(g, currentCell.currentCodepoint, inp.glyphIdFor);
        var empty := false;
        if special {
          empty := cache.IsEmptyGlyph(g, inp.isGlyphEmpty);
        }
        ghost var bs := cache.buckets[..];
        assert Step(s, inp, false) == Place(s.(cache := bs), inp, special, empty, false);
        PlaceGlyph(inp, special, empty, bs);
      }
    }

    /**
     * merge_groups_for_pua_space_ligature: group_idx turns, each adding
     * groups[1] into groups[0]; then groups[0] alone remains, flagged.
     */
    method MergeGroupsForPuaSpaceLigature()
      requires |groups| >= 1
      modifies this
      ensures groups == [MergeForPuaSpaceLigature(old(groups))]
      ensures glyphIdx == old(glyphIdx) && cellIdx == old(cellIdx) && cells == old(cells)
    {
      var groupIdx := |groups| - 1;
      var g0 := groups[0];
      if groupIdx > 0 {
        var g1 := groups[1];
        while groupIdx > 0
          invariant AddRepeatedly(g0, g1, groupIdx) == AddRepeatedly(old(groups)[0], g1, |old(groups)| - 1)
        {
          g0 := g0.(numCells := g0.numCells + g1.numCells);
          g0 := g0.(numGlyphs := Min(g0.numGlyphs + g1.numGlyphs, MAX_GLYPHS_IN_GROUP));
          groupIdx := groupIdx - 1;
        }
      }
      groups := [g0.(isSpaceLigature := true)];
    }

    /** split_run_at_offset: scans the groups for the one holding the offset. */
    method SplitRunAtOffset(offset: nat) returns (left: nat, right: nat)
      ensures (left, right) == Grouping.SplitRunAtOffset(groups, cells, offset)
    {
      left, right := 0, 0;
      var i := 0;
      while i < |groups|
        invariant 0 <= i <= |groups|
        invariant SplitFrom(groups, cells, offset, i) == SplitFrom(groups, cells, offset, 0)
      {
        var group := groups[i];
        var from := group.firstCell;
        var to := group.firstCell + group.numCells;
        if from <= offset && offset < to {
          var firstCell := CellAt(cells, from);
          if group.numCells > 1 && group.hasSpecialGlyph && Width(firstCell.gpu.attrs) == 1 {
            left, right := from, to;
          }
          return;
        }
        i := i + 1;
      }
    }
  }
}
