/**
 * The cursor part of `cell_update_uniform_block` in kitty/shaders.c: which
 * sprite the cursor is drawn with, where it is placed, and how many cells it
 * spans, written into the mapped uniform block of the cell program.
 */
module CursorUniform {

  /** `CursorShape` of kitty/data-types.h (without the NUM_OF_CURSOR_SHAPES sentinel). */
  datatype CursorShape = NoCursorShape | Block | Beam | Underline

  /** The sprite indices of the cursor shapes. */
  const BLOCK_IDX: nat := 0
  const BEAM_IDX: nat := 6
  const UNDERLINE_IDX: nat := 7
  const UNFOCUSED_IDX: nat := 8

  /** What the render call knows about the cursor. */
  datatype Cursor = Cursor(isVisible: bool, isFocused: bool, shape: CursorShape)

  /** The cursor fields of the uniform block. */
  datatype CursorFields = CursorFields(x: nat, y: nat, w: nat, spriteIdx: nat)

  /** The sprite of a focused cursor: beam and underline have their own, every other shape is a block. */
  function FocusedSprite(shape: CursorShape): (idx: nat)
    ensures idx == BEAM_IDX <==> shape == Beam
    ensures idx == UNDERLINE_IDX <==> shape == Underline
    ensures idx == BLOCK_IDX <==> shape == Block || shape == NoCursorShape
  {
    match shape
    case Beam => BEAM_IDX
    case Underline => UNDERLINE_IDX
    case _ => BLOCK_IDX
  }

  /**
   * The cursor fields after the update. An invisible cursor is parked at
   * (columns, lines), just outside the screen, and its sprite index is not
   * written, so the previous value stays and still decides the width.
   */
  function Fields(c: Cursor, cursorX: nat, cursorY: nat, columns: nat, lines: nat,
                  charWidth: nat, previousIdx: nat): (f: CursorFields)
    ensures c.isVisible ==> f.x == cursorX && f.y == cursorY
    ensures !c.isVisible ==> f.x == columns && f.y == lines && f.spriteIdx == previousIdx
    ensures c.isVisible && !c.isFocused ==> f.spriteIdx == UNFOCUSED_IDX
    ensures c.isVisible && c.isFocused ==> f.spriteIdx in {BLOCK_IDX, BEAM_IDX, UNDERLINE_IDX}
    ensures f.w == f.x + 1 <==> (f.spriteIdx == BLOCK_IDX || f.spriteIdx == UNDERLINE_IDX) && charWidth > 1
    ensures f.w == f.x || f.w == f.x + 1
  {
    var idx := if !c.isVisible then previousIdx
               else if c.isFocused then FocusedSprite(c.shape)
               else UNFOCUSED_IDX;
    var x := if c.isVisible then cursorX else columns;
    var y := if c.isVisible then cursorY else lines;
    var w := if (idx == BLOCK_IDX || idx == UNDERLINE_IDX) && charWidth > 1 then x + 1 else x;
    CursorFields(x, y, w, idx)
  }

  /** A focused visible cursor over a wide character spans two cells unless it is a beam. */
  lemma WideCursorSpansTwoCells(shape: CursorShape, cursorX: nat, cursorY: nat, columns: nat, lines: nat,
                                charWidth: nat, previousIdx: nat)
    requires charWidth > 1
    ensures var f := Fields(Cursor(true, true, shape), cursorX, cursorY, columns, lines, charWidth, previousIdx);
      f.w == cursorX + 1 <==> shape != Beam
  {
  }

  /** An unfocused cursor is a hollow box one cell wide whatever the character under it. */
  lemma UnfocusedCursorIsOneCell(shape: CursorShape, cursorX: nat, cursorY: nat, columns: nat, lines: nat,
                                 charWidth: nat, previousIdx: nat)
    ensures var f := Fields(Cursor(true, false, shape), cursorX, cursorY, columns, lines, charWidth, previousIdx);
      f.spriteIdx == UNFOCUSED_IDX && f.w == cursorX
  {
  }

  /** The mapped uniform block of the cell program (its cursor fields). */
  class CellRenderData {
    var cursorX: nat
    var cursorY: nat
    var cursorW: nat
    var cursorFgSpriteIdx: nat

    function State(): CursorFields
      reads this
    {
      CursorFields(cursorX, cursorY, cursorW, cursorFgSpriteIdx)
    }

    /** The cursor part of `cell_update_uniform_block`. */
    method UpdateCursor(c: Cursor, screenCursorX: nat, screenCursorY: nat, columns: nat, lines: nat,
                        charWidth: nat)
      modifies this
      ensures State() == Fields(c, screenCursorX, screenCursorY, columns, lines, charWidth,
                                old(cursorFgSpriteIdx))
    {
      if c.isVisible {
        cursorX := screenCursorX;
        cursorY := screenCursorY;
        if c.isFocused {
          match c.shape {
            case Beam => cursorFgSpriteIdx := BEAM_IDX;
            case Underline => cursorFgSpriteIdx := UNDERLINE_IDX;
            case _ => cursorFgSpriteIdx := BLOCK_IDX;
          }
        } else {
          cursorFgSpriteIdx := UNFOCUSED_IDX;
        }
      } else {
        cursorX := columns;
        cursorY := lines;
      }
      cursorW := cursorX;
      if (cursorFgSpriteIdx == BLOCK_IDX || cursorFgSpriteIdx == UNDERLINE_IDX) && charWidth > 1 {
        cursorW := cursorW + 1;
      }
    }
  }
}
