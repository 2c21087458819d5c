/**
 * Which font renders a cell: the blank and box-drawing shortcuts, the
 * user's symbol maps, the four styled base fonts and the fallback fonts a
 * font group registers on demand (font_for_cell, fallback_font,
 * load_fallback_font and their helpers in kitty/fonts.c), as functions of
 * the font table. The face backend is a parameter.
 */
module FontSelect {
  import opened Common
  import opened DataTypes
  import opened Grouping

  /** The font indices font_for_cell returns that name no loaded font. */
  const NO_FONT: int := -3
  const MISSING_FONT: int := -2
  const BLANK_FONT: int := -1
  /** Index 0 of every font group holds the box-drawing font. */
  const BOX_FONT: int := 0

  /** load_fallback_font refuses once more than this many fallbacks exist. */
  const MAX_FALLBACK_FONTS: nat := 100

  /** Font: its face (an opaque handle) and the style it was loaded for. */
  datatype Font = Font(face: nat, bold: bool, italic: bool, emojiPresentation: bool)

  /** SymbolMap: a codepoint range and the symbol font it is drawn with. */
  datatype SymbolMap = SymbolMap(left: nat, right: nat, fontIdx: nat)

  /**
   * The face backend: whether a face has a glyph for a codepoint, the
   * fallback face the system proposes for a cell and a style (None when it
   * fails or has nothing), the emoji table and the mark table.
   */
  datatype Backend = Backend(covers: (nat, nat) -> bool,
                             createFallback: (nat, CPUCell, bool, bool, bool) -> Option<nat>,
                             isEmoji: nat -> bool,
                             marks: Marks)

  /** The font-related fields of FontGroup; fonts_count is |fonts|. */
  datatype FontTable = FontTable(fonts: seq<Font>, medium: int, bold: int, italic: int, bi: int,
                                 firstSymbol: nat, firstFallback: nat, fallbackCount: nat)

  /** What a cell asks of a fallback font. */
  datatype Want = Want(cell: CPUCell, bold: bool, italic: bool, emoji: bool)

  predicate InRange(f: int, t: FontTable)
  {
    0 < f < t.firstSymbol
  }

  /**
   * The shape initialize_font_group leaves and later calls keep: index 0
   * is the box font, the styled fonts come next (bold, italic and bi may be
   * -1), then the symbol fonts, then the fallback fonts up to fonts_count;
   * every symbol map names a loaded symbol font.
   */
  predicate ValidTable(t: FontTable, maps: seq<SymbolMap>)
  {
    && InRange(t.medium, t)
    && (t.bold == -1 || InRange(t.bold, t))
    && (t.italic == -1 || InRange(t.italic, t))
    && (t.bi == -1 || InRange(t.bi, t))
    && t.firstSymbol <= t.firstFallback
    && t.firstFallback + t.fallbackCount == |t.fonts|
    && forall i :: 0 <= i < |maps| ==> t.firstSymbol + maps[i].fontIdx < t.firstFallback
  }

  // ---------------------------------------------------------------------
  // Cell properties

  /** has_emoji_presentation: a double-width emoji not followed by VS15. */
  predicate HasEmojiPresentation(cpu: CPUCell, gpu: GPUCell, be: Backend)
  {
    Width(gpu.attrs) == 2 && be.isEmoji(cpu.ch) && cpu.cc0 != be.marks.vs15
  }

  /** A mark a font need not cover: the two variation selectors. */
  predicate IsSelector(mark: nat, marks: Marks)
  {
    mark == marks.vs15 || mark == marks.vs16
  }

  /**
   * has_cell_text, as a predicate: the face covers the cell's character and
   * the codepoint of every mark other than VS15 and VS16.
   */
  predicate CoversCell(face: nat, c: CPUCell, be: Backend)
  {
    var m := MarksOf(c);
    && be.covers(face, c.ch)
    && forall i :: 0 <= i < |m| ==> IsSelector(m[i], be.marks) || be.covers(face, be.marks.codepointForMark(m[i]))
  }

  /**
   * Variation selectors never decide coverage: appending or dropping them
   * leaves the answer that of the cell's other codepoints.
   */
  lemma SelectorsDoNotNeedGlyphs(face: nat, c: CPUCell, be: Backend)
    requires IsSelector(c.cc0, be.marks) && (c.cc1 == 0 || IsSelector(c.cc1, be.marks))
    ensures CoversCell(face, c, be) <==> be.covers(face, c.ch)
  {
    var m := MarksOf(c);
    assert forall i :: 0 <= i < |m| ==> IsSelector(m[i], be.marks);
  }

  /** A mark that is not a selector must be covered: its absence from the face is enough to refuse. */
  lemma UncoveredMarkRefuses(face: nat, c: CPUCell, be: Backend)
    requires c.cc0 != 0 && !IsSelector(c.cc0, be.marks)
    requires !be.covers(face, be.marks.codepointForMark(c.cc0))
    ensures !CoversCell(face, c, be)
  {
    assert MarksOf(c)[0] == c.cc0;
  }

  // ---------------------------------------------------------------------
  // Symbol maps

  predicate InMap(m: SymbolMap, ch: nat)
  {
    m.left <= ch <= m.right
  }

  /** The first symbol map, from index `from` on, whose range holds ch. */
  function FirstMapWith(maps: seq<SymbolMap>, ch: nat, from: nat): (r: Option<nat>)
    requires from <= |maps|
    decreases |maps| - from
    ensures r.None? ==> forall i :: from <= i < |maps| ==> !InMap(maps[i], ch)
    ensures r.Some? ==> from <= r.value < |maps| && InMap(maps[r.value], ch)
                        && forall i :: from <= i < r.value ==> !InMap(maps[i], ch)
  {
    if from == |maps| then None
    else if InMap(maps[from], ch) then Some(from)
    else FirstMapWith(maps, ch, from + 1)
  }

  /** in_symbol_maps: the symbol font of the first map holding ch, or NO_FONT. */
  function SymbolFontFor(maps: seq<SymbolMap>, firstSymbol: nat, ch: nat): int
  {
    match FirstMapWith(maps, ch, 0)
    case None => NO_FONT
    case Some(i) => firstSymbol + maps[i].fontIdx
  }

  /**
   * in_symbol_maps answers NO_FONT exactly when no range holds ch, and
   * otherwise the symbol font of the earliest range holding it, which is a
   * loaded symbol font.
   */
  lemma SymbolFontIsFirstMap(t: FontTable, maps: seq<SymbolMap>, ch: nat)
    requires ValidTable(t, maps)
    ensures var r := SymbolFontFor(maps, t.firstSymbol, ch);
      && (r == NO_FONT <==> forall i :: 0 <= i < |maps| ==> !InMap(maps[i], ch))
      && (r != NO_FONT ==> exists i :: 0 <= i < |maps| && InMap(maps[i], ch)
                                       && (forall k :: 0 <= k < i ==> !InMap(maps[k], ch))
                                       && r == t.firstSymbol + maps[i].fontIdx)
      && (r != NO_FONT ==> t.firstSymbol <= r < t.firstFallback)
  {
    match FirstMapWith(maps, ch, 0)
    case None =>
    case Some(i) =>
      assert InMap(maps[i], ch);
  }

  // ---------------------------------------------------------------------
  // Box drawing

  /** The characters font_for_cell draws with the box font. */
  predicate IsBoxChar(ch: nat)
  {
    || 0x2500 <= ch <= 0x259f
    || 0xe0b0 <= ch <= 0xe0b4
    || ch == 0xe0b6 || ch == 0xe0b8 || ch == 0xe0ba || ch == 0xe0bc || ch == 0xe0be
  }

  /** The characters font_for_cell treats as blank. */
  predicate IsBlankChar(ch: nat)
  {
    ch == 0 || ch == 32 || ch == 9
  }

  /** box_glyph_id: a small identifier per box-drawing or powerline character, 0xff for any other. */
  function BoxGlyphId(ch: nat): (g: nat)
    ensures g <= 0xc4 || g == 0xff
  {
    if 0x2500 <= ch <= 0x259f then ch - 0x2500
    else if 0xe0b0 <= ch <= 0xe0d4 then 0xa0 + ch - 0xe0b0
    else 0xff
  }

  /**
   * Every character drawn with the box font gets its own identifier, never
   * the 0xff of the other characters, so no two of them share a sprite
   * of the box font.
   */
  lemma BoxGlyphIdsDistinct(a: nat, b: nat)
    requires IsBoxChar(a) && IsBoxChar(b) && a != b
    ensures BoxGlyphId(a) != 0xff && BoxGlyphId(b) != 0xff
    ensures BoxGlyphId(a) != BoxGlyphId(b)
  {
  }

  // ---------------------------------------------------------------------
  // Fallback fonts

  /** A registered font serves a request when its style flags match and it covers the cell. */
  predicate Serves(f: Font, w: Want, be: Backend)
  {
    f.bold == w.bold && f.italic == w.italic && f.emojiPresentation == w.emoji
    && CoversCell(f.face, w.cell, be)
  }

  /** The first font in fonts[from..to) that serves the request. */
  function FirstServing(fonts: seq<Font>, from: nat, to: nat, w: Want, be: Backend): (r: Option<nat>)
    requires from <= to <= |fonts|
    decreases (to as int) - (from as int)
    ensures r.None? ==> forall j :: from <= j < to ==> !Serves(fonts[j], w, be)
    ensures r.Some? ==> from <= r.value < to && Serves(fonts[r.value], w, be)
                        && forall j :: from <= j < r.value ==> !Serves(fonts[j], w, be)
  {
    if from == to then None
    else if Serves(fonts[from], w, be) then Some(from)
    else FirstServing(fonts, from + 1, to, w, be)
  }

  /**
   * The base font load_fallback_font hands the system: for bold the bi
   * font whenever an italic font exists (whether or not the cell is
   * italic), else the bold font; otherwise italic or medium; medium when
   * the chosen one is missing.
   */
  function FallbackBase(t: FontTable, bold: bool, italic: bool): int
  {
    var f := if bold then (if t.italic > 0 then t.bi else t.bold)
             else if italic then t.italic else t.medium;
    if f < 0 then t.medium else f
  }

  lemma FallbackBaseIsLoaded(t: FontTable, maps: seq<SymbolMap>, bold: bool, italic: bool)
    requires ValidTable(t, maps)
    ensures InRange(FallbackBase(t, bold, italic), t)
  {
  }

  /** A font index and the font table after the call that produced it. */
  datatype Loaded = Loaded(idx: int, table: FontTable)

  /** The face the system proposes for a request, from the base font of its style. */
  function ProposedFace(t: FontTable, maps: seq<SymbolMap>, w: Want, be: Backend): Option<nat>
    requires ValidTable(t, maps)
  {
    FallbackBaseIsLoaded(t, maps, w.bold, w.italic);
    be.createFallback(t.fonts[FallbackBase(t, w.bold, w.italic)].face, w.cell, w.bold, w.italic, w.emoji)
  }

  /**
   * load_fallback_font: refuse when more than 100 fallbacks exist, when the
   * system proposes no face, or when the proposed face does not cover the
   * cell; otherwise register the face, with the requested style, as the
   * next fallback font.
   */
  function LoadFallback(t: FontTable, maps: seq<SymbolMap>, w: Want, be: Backend): (r: Loaded)
    requires ValidTable(t, maps)
    ensures ValidTable(r.table, maps)
    ensures r.idx == MISSING_FONT <==>
              t.fallbackCount > MAX_FALLBACK_FONTS || ProposedFace(t, maps, w, be).None?
              || !CoversCell(ProposedFace(t, maps, w, be).value, w.cell, be)
    ensures r.idx == MISSING_FONT ==> r.table == t
    ensures r.idx != MISSING_FONT ==>
              && r.idx == |t.fonts| == t.firstFallback + t.fallbackCount
              && |r.table.fonts| == |t.fonts| + 1 && r.table.fonts[..|t.fonts|] == t.fonts
              && Serves(r.table.fonts[r.idx], w, be)
              && r.table == t.(fonts := r.table.fonts, fallbackCount := t.fallbackCount + 1)
  {
    if t.fallbackCount > MAX_FALLBACK_FONTS then Loaded(MISSING_FONT, t)
    else match ProposedFace(t, maps, w, be)
      case None => Loaded(MISSING_FONT, t)
      case Some(face) =>
        if !CoversCell(face, w.cell, be) then Loaded(MISSING_FONT, t)
        else
          var fonts := t.fonts + [Font(face, w.bold, w.italic, w.emoji)];
          assert fonts[..|t.fonts|] == t.fonts;
          Loaded(|t.fonts|, t.(fonts := fonts, fallbackCount := t.fallbackCount + 1))
  }

  /** What a cell asks of a fallback font: its bold and italic bits and its emoji presentation. */
  function WantOf(cpu: CPUCell, gpu: GPUCell, be: Backend): Want
  {
    var st := AttrsToCursor(gpu.attrs);
    Want(cpu, st.bold, st.italic, HasEmojiPresentation(cpu, gpu, be))
  }

  /** fallback_font: the first registered fallback serving the cell, else a newly loaded one. */
  function FallbackFont(t: FontTable, maps: seq<SymbolMap>, cpu: CPUCell, gpu: GPUCell, be: Backend): Loaded
    requires ValidTable(t, maps)
  {
    var w := WantOf(cpu, gpu, be);
    match FirstServing(t.fonts, t.firstFallback, |t.fonts|, w, be)
    case Some(j) => Loaded(j, t)
    case None => LoadFallback(t, maps, w, be)
  }

  /**
   * fallback_font answers either MISSING_FONT with the table unchanged, or
   * a fallback font serving the cell: the earliest registered one, or,
   * when none serves it, a new one appended to the table.
   */
  lemma FallbackFontServes(t: FontTable, maps: seq<SymbolMap>, cpu: CPUCell, gpu: GPUCell, be: Backend)
    requires ValidTable(t, maps)
    ensures var r := FallbackFont(t, maps, cpu, gpu, be); var w := WantOf(cpu, gpu, be);
      && ValidTable(r.table, maps)
      && (r.idx == MISSING_FONT ==>
            && r.table == t
            && forall j :: t.firstFallback <= j < |t.fonts| ==> !Serves(t.fonts[j], w, be))
      && (r.idx != MISSING_FONT ==>
            && r.table.firstFallback <= r.idx < |r.table.fonts|
            && Serves(r.table.fonts[r.idx], w, be)
            && forall j :: t.firstFallback <= j < r.idx ==> !Serves(r.table.fonts[j], w, be))
      && (r.table != t ==> r.idx == |t.fonts| && r.table.fonts[..|t.fonts|] == t.fonts)
  {
    var w := WantOf(cpu, gpu, be);
    var r := FallbackFont(t, maps, cpu, gpu, be);
    match FirstServing(t.fonts, t.firstFallback, |t.fonts|, w, be)
    case Some(j) =>
    case None =>
      var l := LoadFallback(t, maps, w, be);
      if l.idx != MISSING_FONT {
        forall j | t.firstFallback <= j < l.idx
          ensures !Serves(l.table.fonts[j], w, be)
        {
          assert l.table.fonts[j] == l.table.fonts[..|t.fonts|][j];
        }
      }
  }

  /**
   * A fallback font is looked for before one is loaded: once fallback_font
   * has registered a font for a cell, asking again for the same cell finds
   * that font and loads nothing.
   */
  lemma FallbackFontIdempotent(t: FontTable, maps: seq<SymbolMap>, cpu: CPUCell, gpu: GPUCell, be: Backend)
    requires ValidTable(t, maps)
    requires FallbackFont(t, maps, cpu, gpu, be).idx != MISSING_FONT
    ensures var r := FallbackFont(t, maps, cpu, gpu, be);
      FallbackFont(r.table, maps, cpu, gpu, be) == Loaded(r.idx, r.table)
  {
    var r := FallbackFont(t, maps, cpu, gpu, be);
    var w := WantOf(cpu, gpu, be);
    FallbackFontServes(t, maps, cpu, gpu, be);
    assert r.table.firstFallback == t.firstFallback;
  }

  // ---------------------------------------------------------------------
  // font_for_cell

  /** The font index and flags font_for_cell reports, with the table after the call. */
  datatype Choice = Choice(idx: int, isFallback: bool, isEmojiPresentation: bool, table: FontTable)

  /** The styled base font for the cell's BI_VAL, medium when that style has no font. */
  function StyledFont(t: FontTable, a: Attrs): int
  {
    var bi := BiVal(a);
    var f := if bi == 0 then t.medium else if bi == 1 then t.bold else if bi == 2 then t.italic else t.bi;
    if f < 0 then t.medium else f
  }

  lemma StyledFontIsLoaded(t: FontTable, maps: seq<SymbolMap>, a: Attrs)
    requires ValidTable(t, maps)
    ensures InRange(StyledFont(t, a), t)
  {
  }

  /**
   * font_for_cell: blank and box-drawing characters first, then the symbol
   * maps, then the styled base font when the cell has no emoji
   * presentation and the font covers it, else a fallback font.
   */
  function FontForCell(t: FontTable, maps: seq<SymbolMap>, cpu: CPUCell, gpu: GPUCell, be: Backend): (r: Choice)
    requires ValidTable(t, maps)
    ensures ValidTable(r.table, maps)
    ensures r.idx != NO_FONT
    ensures r.idx == MISSING_FONT || r.idx == BLANK_FONT || 0 <= r.idx < |r.table.fonts|
    ensures |t.fonts| <= |r.table.fonts| && r.table.fonts[..|t.fonts|] == t.fonts
  {
    if IsBlankChar(cpu.ch) then Choice(BLANK_FONT, false, false, t)
    else if IsBoxChar(cpu.ch) then Choice(BOX_FONT, false, false, t)
    else
      var s := SymbolFontFor(maps, t.firstSymbol, cpu.ch);
      SymbolFontIsFirstMap(t, maps, cpu.ch);
      if s > -1 then Choice(s, false, false, t)
      else
        var base := StyledFont(t, gpu.attrs);
        var emoji := HasEmojiPresentation(cpu, gpu, be);
        StyledFontIsLoaded(t, maps, gpu.attrs);
        if !emoji && CoversCell(t.fonts[base].face, cpu, be) then Choice(base, false, emoji, t)
        else
          var l := FallbackFont(t, maps, cpu, gpu, be);
          FallbackFontServes(t, maps, cpu, gpu, be);
          Choice(l.idx, true, emoji, l.table)
  }

  /**
   * Blank characters get BLANK_FONT and box-drawing characters BOX_FONT,
   * before any symbol map is consulted; a symbol map then wins over every
   * styled font. None of these touches the table or sets a flag.
   */
  lemma FontForCellShortcuts(t: FontTable, maps: seq<SymbolMap>, cpu: CPUCell, gpu: GPUCell, be: Backend)
    requires ValidTable(t, maps)
    ensures var r := FontForCell(t, maps, cpu, gpu, be);
      && (IsBlankChar(cpu.ch) ==> r == Choice(BLANK_FONT, false, false, t))
      && (!IsBlankChar(cpu.ch) && IsBoxChar(cpu.ch) ==> r == Choice(BOX_FONT, false, false, t))
      && (!IsBlankChar(cpu.ch) && !IsBoxChar(cpu.ch) && SymbolFontFor(maps, t.firstSymbol, cpu.ch) != NO_FONT ==>
            r == Choice(SymbolFontFor(maps, t.firstSymbol, cpu.ch), false, false, t)
            && t.firstSymbol <= r.idx < t.firstFallback)
  {
    SymbolFontIsFirstMap(t, maps, cpu.ch);
  }

  /**
   * Past the shortcuts, the cell keeps its styled font exactly when it has
   * no emoji presentation and that font covers it; otherwise it is a
   * fallback cell and gets a fallback font serving it, or MISSING_FONT.
   */
  lemma FontForCellStyledOrFallback(t: FontTable, maps: seq<SymbolMap>, cpu: CPUCell, gpu: GPUCell, be: Backend)
    requires ValidTable(t, maps)
    requires !IsBlankChar(cpu.ch) && !IsBoxChar(cpu.ch) && SymbolFontFor(maps, t.firstSymbol, cpu.ch) == NO_FONT
    ensures var r := FontForCell(t, maps, cpu, gpu, be); var base := StyledFont(t, gpu.attrs);
      && InRange(base, t)
      && r.isEmojiPresentation == HasEmojiPresentation(cpu, gpu, be)
      && (!r.isFallback <==> !HasEmojiPresentation(cpu, gpu, be) && CoversCell(t.fonts[base].face, cpu, be))
      && (!r.isFallback ==> r == Choice(base, false, false, t))
      && (r.isFallback && r.idx != MISSING_FONT ==>
            r.table.firstFallback <= r.idx && Serves(r.table.fonts[r.idx], WantOf(cpu, gpu, be), be))
  {
    SymbolFontIsFirstMap(t, maps, cpu.ch);
    StyledFontIsLoaded(t, maps, gpu.attrs);
    FallbackFontServes(t, maps, cpu, gpu, be);
  }

  /** fallback_font changes the table only by appending fallback fonts: the styled fonts stay where they were. */
  lemma FallbackKeepsStyles(t: FontTable, maps: seq<SymbolMap>, cpu: CPUCell, gpu: GPUCell, be: Backend)
    requires ValidTable(t, maps)
    ensures var l := FallbackFont(t, maps, cpu, gpu, be);
      && l.table == t.(fonts := l.table.fonts, fallbackCount := l.table.fallbackCount)
      && |t.fonts| <= |l.table.fonts| && l.table.fonts[..|t.fonts|] == t.fonts
  {
  }

  /** Past the shortcuts, a cell with emoji presentation or not covered by its styled font gets fallback_font's answer. */
  lemma FontForCellFallbackBranch(t: FontTable, maps: seq<SymbolMap>, cpu: CPUCell, gpu: GPUCell, be: Backend)
    requires ValidTable(t, maps)
    requires !IsBlankChar(cpu.ch) && !IsBoxChar(cpu.ch) && SymbolFontFor(maps, t.firstSymbol, cpu.ch) == NO_FONT
    requires 0 <= StyledFont(t, gpu.attrs) < |t.fonts|
    requires HasEmojiPresentation(cpu, gpu, be) || !CoversCell(t.fonts[StyledFont(t, gpu.attrs)].face, cpu, be)
    ensures var l := FallbackFont(t, maps, cpu, gpu, be);
      FontForCell(t, maps, cpu, gpu, be) == Choice(l.idx, true, HasEmojiPresentation(cpu, gpu, be), l.table)
  {
  }

  /** A fallback cell: asked again against the table the first call left, it gets the same fallback font. */
  lemma FallbackCellIdempotent(t: FontTable, maps: seq<SymbolMap>, cpu: CPUCell, gpu: GPUCell, be: Backend)
    requires ValidTable(t, maps)
    requires !IsBlankChar(cpu.ch) && !IsBoxChar(cpu.ch) && SymbolFontFor(maps, t.firstSymbol, cpu.ch) == NO_FONT
    requires FontForCell(t, maps, cpu, gpu, be).isFallback && FontForCell(t, maps, cpu, gpu, be).idx != MISSING_FONT
    ensures var r := FontForCell(t, maps, cpu, gpu, be);
      FontForCell(r.table, maps, cpu, gpu, be) == r
  {
    var l := FallbackFont(t, maps, cpu, gpu, be);
    var base := StyledFont(t, gpu.attrs);
    FontForCellStyledOrFallback(t, maps, cpu, gpu, be);
    FontForCellFallbackBranch(t, maps, cpu, gpu, be);
    FallbackKeepsStyles(t, maps, cpu, gpu, be);
    FallbackFontServes(t, maps, cpu, gpu, be);
    FallbackFontIdempotent(t, maps, cpu, gpu, be);
    assert StyledFont(l.table, gpu.attrs) == base;
    assert l.table.fonts[base] == t.fonts[base] by {
      assert l.table.fonts[..|t.fonts|][base] == t.fonts[base];
    }
    FontForCellFallbackBranch(l.table, maps, cpu, gpu, be);
  }

  /**
   * Choosing a font is stable: asking again for the same cell, against the
   * table the first call left, gives the same font and loads nothing more.
   */
  lemma FontForCellIdempotent(t: FontTable, maps: seq<SymbolMap>, cpu: CPUCell, gpu: GPUCell, be: Backend)
    requires ValidTable(t, maps)
    requires FontForCell(t, maps, cpu, gpu, be).idx != MISSING_FONT
    ensures var r := FontForCell(t, maps, cpu, gpu, be);
      FontForCell(r.table, maps, cpu, gpu, be) == r
  {
    var r := FontForCell(t, maps, cpu, gpu, be);
    FontForCellShortcuts(t, maps, cpu, gpu, be);
    if !IsBlankChar(cpu.ch) && !IsBoxChar(cpu.ch) && SymbolFontFor(maps, t.firstSymbol, cpu.ch) == NO_FONT {
      FontForCellStyledOrFallback(t, maps, cpu, gpu, be);
      if r.isFallback {
        FallbackCellIdempotent(t, maps, cpu, gpu, be);
      }
    }
  }

  /** The cap admits 101 fallback fonts: with 100 registered, one more is still loaded. */
  lemma HundredAndFirstFallbackLoads(t: FontTable, maps: seq<SymbolMap>, w: Want, be: Backend)
    requires ValidTable(t, maps) && t.fallbackCount == MAX_FALLBACK_FONTS
    requires ProposedFace(t, maps, w, be).Some? && CoversCell(ProposedFace(t, maps, w, be).value, w.cell, be)
    ensures LoadFallback(t, maps, w, be).table.fallbackCount == MAX_FALLBACK_FONTS + 1
  {
  }
}
