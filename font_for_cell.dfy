/**
 * The font group's font list as the C code keeps it: a class whose
 * fallback list grows in place, with the loops of has_cell_text,
 * in_symbol_maps and fallback_font, each proved equal to its FontSelect
 * function.
 */
module CellFonts {
  import opened Common
  import opened DataTypes
  import opened Grouping
  import opened FontSelect

  /** has_cell_text: the character first, then each mark up to the first zero, skipping VS15/VS16. */
  method HasCellText(font: Font, c: CPUCell, be: Backend) returns (r: bool)
    ensures r == CoversCell(font.face, c, be)
  {
    if !be.covers(font.face, c.ch) {
      return false;
    }
    var m := MarksOf(c);
    var i := 0;
    while i < |m|
      invariant 0 <= i <= |m|
      invariant forall k :: 0 <= k < i ==> IsSelector(m[k], be.marks) || be.covers(font.face, be.marks.codepointForMark(m[k]))
    {
      var mark := m[i];
      if !(mark == be.marks.vs15 || mark == be.marks.vs16) {
        if !be.covers(font.face, be.marks.codepointForMark(mark)) {
          return false;
        }
      }
      i := i + 1;
    }
    return true;
  }

  /** in_symbol_maps: scan the maps in order and answer the first one holding ch. */
  method InSymbolMaps(maps: seq<SymbolMap>, firstSymbol: nat, ch: nat) returns (r: int)
    ensures r == SymbolFontFor(maps, firstSymbol, ch)
  {
    var i := 0;
    while i < |maps|
      invariant 0 <= i <= |maps|
      invariant FirstMapWith(maps, ch, 0) == FirstMapWith(maps, ch, i)
    {
      if maps[i].left <= ch && ch <= maps[i].right {
        return firstSymbol + maps[i].fontIdx;
      }
      i := i + 1;
    }
    return NO_FONT;
  }

  /** FontGroup: the styled and symbol font indices and the fallback list that grows in place. */
  class FontGroup {
    var fonts: seq<Font>
    var fallbackCount: nat
    const medium: int
    const bold: int
    const italic: int
    const bi: int
    const firstSymbol: nat
    const firstFallback: nat

    function Table(): FontTable
      reads this
    {
      FontTable(fonts, medium, bold, italic, bi, firstSymbol, firstFallback, fallbackCount)
    }

    /** A group holding the fonts initialize_font_group loaded. */
    constructor (t: FontTable)
      ensures Table() == t
    {
      fonts, fallbackCount := t.fonts, t.fallbackCount;
      medium, bold, italic, bi := t.medium, t.bold, t.italic, t.bi;
      firstSymbol, firstFallback := t.firstSymbol, t.firstFallback;
    }

    /**
     * load_fallback_font: check the cap, ask the system for a face derived
     * from the style's base font, and register it only when it covers the
     * cell.
     */
    method LoadFallbackFont(maps: seq<SymbolMap>, w: Want, be: Backend) returns (idx: int)
      requires ValidTable(Table(), maps)
      modifies this
      ensures Loaded(idx, Table()) == LoadFallback(old(Table()), maps, w, be)
    {
      if fallbackCount > MAX_FALLBACK_FONTS {
        return MISSING_FONT;
      }
      var f: int;
      if w.bold {
        f := if italic > 0 then bi else bold;
      } else {
        f := if w.italic then italic else medium;
      }
      if f < 0 {
        f := medium;
      }
      assert f == FallbackBase(Table(), w.bold, w.italic);
      var face := be.createFallback(fonts[f].face, w.cell, w.bold, w.italic, w.emoji);
      if face.None? {
        return MISSING_FONT;
      }
      var ans := firstFallback + fallbackCount;
      var af := Font(face.value, w.bold, w.italic, w.emoji);
      var covered := HasCellText(af, w.cell, be);
      if !covered {
        return MISSING_FONT;
      }
      fonts := fonts + [af];
      fallbackCount := fallbackCount + 1;
      return ans;
    }

    /**
     * fallback_font: scan the registered fallbacks for one with the cell's
     * style that covers it, and load a new one when none does.
     */
    method FallbackFont(maps: seq<SymbolMap>, cpu: CPUCell, gpu: GPUCell, be: Backend) returns (idx: int)
      requires ValidTable(Table(), maps)
      modifies this
      ensures Loaded(idx, Table()) == FontSelect.FallbackFont(old(Table()), maps, cpu, gpu, be)
    {
      var w := WantOf(cpu, gpu, be);
      var i, j := 0, firstFallback;
      while i < fallbackCount
        invariant Table() == old(Table())
        invariant i <= fallbackCount && j == firstFallback + i
        invariant FirstServing(fonts, firstFallback, |fonts|, w, be) == FirstServing(fonts, j, |fonts|, w, be)
      {
        var font := fonts[j];
        if font.bold == w.bold && font.italic == w.italic && font.emojiPresentation == w.emoji {
          var covered := HasCellText(font, cpu, be);
          if covered {
            return j;
          }
        }
        i, j := i + 1, j + 1;
      }
      idx := LoadFallbackFont(maps, w, be);
    }

    /**
     * font_for_cell: the blank and box shortcuts, the symbol maps, the
     * styled font for the cell's BI_VAL, and the fallback path, reporting
     * whether the cell went to a fallback font and has emoji presentation.
     */
    method FontForCell(maps: seq<SymbolMap>, cpu: CPUCell, gpu: GPUCell, be: Backend)
      returns (idx: int, isFallback: bool, isEmojiPresentation: bool)
      requires ValidTable(Table(), maps)
      modifies this
      ensures Choice(idx, isFallback, isEmojiPresentation, Table())
              == FontSelect.FontForCell(old(Table()), maps, cpu, gpu, be)
    {
      isFallback, isEmojiPresentation := false, false;
      var ch := cpu.ch;
      if ch == 0 || ch == 32 || ch == 9 {
        return BLANK_FONT, isFallback, isEmojiPresentation;
      }
      if (0x2500 <= ch <= 0x259f) || (0xe0b0 <= ch <= 0xe0b4)
         || ch == 0xe0b6 || ch == 0xe0b8 || ch == 0xe0ba || ch == 0xe0bc || ch == 0xe0be {
        return BOX_FONT, isFallback, isEmojiPresentation;
      }
      idx := InSymbolMaps(maps, firstSymbol, ch);
      if idx > -1 {
        return;
      }
      var biv := BiVal(gpu.attrs);
      if biv == 0 {
        idx := medium;
      } else if biv == 1 {
        idx := bold;
      } else if biv == 2 {
        idx := italic;
      } else {
        idx := bi;
      }
      if idx < 0 {
        idx := medium;
      }
      assert idx == StyledFont(Table(), gpu.attrs);
      isEmojiPresentation := HasEmojiPresentation(cpu, gpu, be);
      if !isEmojiPresentation {
        var covered := HasCellText(fonts[idx], cpu, be);
        if covered {
          return;
        }
      }
      isFallback := true;
      idx := FallbackFont(maps, cpu, gpu, be);
    }
  }
}
