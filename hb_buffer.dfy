/**
 * load_hb_buffer of kitty/fonts.c: the run's cells are flattened into the
 * codepoint sequence handed to the shaping engine, through the fixed
 * 4096-entry shape_buffer, one chunk at a time.
 */
module HbBuffer {
  import opened DataTypes
  import opened Grouping

  const SHAPE_BUFFER_SIZE: nat := 4096

  /** A chunk is closed once it holds this many codepoints: arraysz(shape_buffer) - 20 - arraysz(cc_idx). */
  const CHUNK_LIMIT: nat := SHAPE_BUFFER_SIZE - 20 - 2

  /** A cell's contribution: its character, then codepoint_for_mark of each combining mark. */
  function CellCodepoints(c: RunCell, marks: Marks): (r: seq<nat>)
    ensures |r| == NumCodepointsInCell(c.cpu) && r[0] == c.cpu.ch
    ensures forall k :: 1 <= k < |r| ==> r[k] == marks.codepointForMark(MarksOf(c.cpu)[k - 1])
  {
    var ms := MarksOf(c.cpu);
    [c.cpu.ch] + seq(|ms|, k requires 0 <= k < |ms| => marks.codepointForMark(ms[k]))
  }

  /**
   * The buffer contents the shaper should see: every cell's codepoints, where
   * the cell after a double-width cell (its trailing half) is skipped.
   */
  function Flattened(cells: seq<RunCell>, marks: Marks, i: nat): seq<nat>
    decreases |cells| - i
  {
    if i >= |cells| then []
    else CellCodepoints(cells[i], marks)
         + Flattened(cells, marks, if Width(cells[i].gpu.attrs) == 2 then i + 2 else i + 1)
  }

  /**
   * The loop of load_hb_buffer as written, from cell i with the previous
   * width and the current chunk's count: a full chunk is handed over and the
   * next one starts with count 0 AND previous width 0.
   */
  function FillAsWritten(cells: seq<RunCell>, marks: Marks, i: nat, prevWidth: nat, num: nat): seq<nat>
    requires i <= |cells|
    decreases |cells| - i, if num >= CHUNK_LIMIT then 1 else 0
  {
    if i == |cells| then []
    else if num >= CHUNK_LIMIT then FillAsWritten(cells, marks, i, 0, 0)
    else if prevWidth == 2 then FillAsWritten(cells, marks, i + 1, 0, num)
    else
      var cp := CellCodepoints(cells[i], marks);
      cp + FillAsWritten(cells, marks, i + 1, Width(cells[i].gpu.attrs), num + |cp|)
  }

  /** The corrected loop: the previous width survives a chunk boundary. */
  function Fill(cells: seq<RunCell>, marks: Marks, i: nat, prevWidth: nat, num: nat): seq<nat>
    requires i <= |cells|
    decreases |cells| - i, if num >= CHUNK_LIMIT then 1 else 0
  {
    if i == |cells| then []
    else if num >= CHUNK_LIMIT then Fill(cells, marks, i, prevWidth, 0)
    else if prevWidth == 2 then Fill(cells, marks, i + 1, 0, num)
    else
      var cp := CellCodepoints(cells[i], marks);
      cp + Fill(cells, marks, i + 1, Width(cells[i].gpu.attrs), num + |cp|)
  }

  /** One turn of the corrected loop. */
  lemma FillUnfold(cells: seq<RunCell>, marks: Marks, i: nat, prevWidth: nat, num: nat)
    requires i < |cells| && num < CHUNK_LIMIT
    ensures prevWidth == 2 ==> Fill(cells, marks, i, prevWidth, num) == Fill(cells, marks, i + 1, 0, num)
    ensures prevWidth != 2 ==>
      Fill(cells, marks, i, prevWidth, num)
      == CellCodepoints(cells[i], marks)
         + Fill(cells, marks, i + 1, Width(cells[i].gpu.attrs), num + |CellCodepoints(cells[i], marks)|)
  {
  }

  /** One turn of the loop as written, on a cell that is not a trailing half. */
  lemma AsWrittenUnfold(cells: seq<RunCell>, marks: Marks, i: nat, prevWidth: nat, num: nat)
    requires i < |cells| && num < CHUNK_LIMIT && prevWidth != 2
    ensures FillAsWritten(cells, marks, i, prevWidth, num)
            == CellCodepoints(cells[i], marks)
               + FillAsWritten(cells, marks, i + 1, Width(cells[i].gpu.attrs), num + |CellCodepoints(cells[i], marks)|)
  {
  }

  /** A full chunk is handed over: the next one starts from count 0. */
  lemma FillChunkBoundary(cells: seq<RunCell>, marks: Marks, i: nat, prevWidth: nat, num: nat)
    requires i <= |cells| && num >= CHUNK_LIMIT
    ensures Fill(cells, marks, i, prevWidth, num) == Fill(cells, marks, i, prevWidth, 0)
  {
  }

  /** With the width carried over, chunking never changes what the shaper sees. */
  lemma {:induction false} FillIsFlattened(cells: seq<RunCell>, marks: Marks, i: nat, prevWidth: nat, num: nat)
    requires i <= |cells|
    ensures Fill(cells, marks, i, prevWidth, num) == Flattened(cells, marks, if prevWidth == 2 then i + 1 else i)
    decreases |cells| - i, if num >= CHUNK_LIMIT then 1 else 0
  {
    if i == |cells| {
    } else if num >= CHUNK_LIMIT {
      FillChunkBoundary(cells, marks, i, prevWidth, num);
      FillIsFlattened(cells, marks, i, prevWidth, 0);
    } else if prevWidth == 2 {
      FillUnfold(cells, marks, i, prevWidth, num);
      FillIsFlattened(cells, marks, i + 1, 0, num);
    } else {
      var w := Width(cells[i].gpu.attrs);
      var cp := CellCodepoints(cells[i], marks);
      FillUnfold(cells, marks, i, prevWidth, num);
      FillIsFlattened(cells, marks, i + 1, w, num + |cp|);
      if w == 2 {
        assert Flattened(cells, marks, i) == cp + Flattened(cells, marks, i + 2);
      } else {
        assert Flattened(cells, marks, i) == cp + Flattened(cells, marks, i + 1);
      }
    }
  }

  /** Within one chunk the code as written agrees with the corrected loop. */
  lemma {:induction false} ShortRunsUnaffected(cells: seq<RunCell>, marks: Marks, i: nat, prevWidth: nat, num: nat)
    requires i <= |cells| && num + 3 * (|cells| - i) <= CHUNK_LIMIT
    ensures FillAsWritten(cells, marks, i, prevWidth, num) == Fill(cells, marks, i, prevWidth, num)
    decreases |cells| - i
  {
    if i < |cells| {
      if prevWidth == 2 {
        ShortRunsUnaffected(cells, marks, i + 1, 0, num);
      } else {
        var w := Width(cells[i].gpu.attrs);
        ShortRunsUnaffected(cells, marks, i + 1, w, num + |CellCodepoints(cells[i], marks)|);
      }
    }
  }

  /** One cell of the inner loop: its character, then each non-zero combining mark, pushed to shape_buffer. */
  method PushCell(c: RunCell, marks: Marks, shapeBuffer: array<nat>, num: nat) returns (num': nat)
    requires num + 3 <= shapeBuffer.Length
    modifies shapeBuffer
    ensures num' == num + |CellCodepoints(c, marks)|
    ensures shapeBuffer[..num'] == old(shapeBuffer[..num]) + CellCodepoints(c, marks)
  {
    ghost var before := shapeBuffer[..num];
    shapeBuffer[num] := c.cpu.ch;
    num' := num + 1;
    var j := 0;
    while j < 2 && MarkAt(c.cpu, j) != 0
      invariant 0 <= j <= |MarksOf(c.cpu)| && num' == num + 1 + j
      invariant shapeBuffer[..num'] == before + CellCodepoints(c, marks)[..j + 1]
    {
      shapeBuffer[num'] := marks.codepointForMark(MarkAt(c.cpu, j));
      num' := num' + 1;
      j := j + 1;
    }
    assert CellCodepoints(c, marks)[..j + 1] == CellCodepoints(c, marks);
  }

  /** Pushing a cell's codepoints moves them from what is still to come into the buffer. */
  method PushStep(c: RunCell, marks: Marks, shapeBuffer: array<nat>, num: nat, ghost rest: seq<nat>,
                  ghost target: seq<nat>)
    returns (num': nat)
    requires num + 3 <= shapeBuffer.Length
    requires shapeBuffer[..num] + (CellCodepoints(c, marks) + rest) == target
    modifies shapeBuffer
    ensures num' == num + |CellCodepoints(c, marks)|
    ensures shapeBuffer[..num'] + rest == target
  {
    ghost var before := shapeBuffer[..num];
    ghost var cp := CellCodepoints(c, marks);
    assert before + (cp + rest) == (before + cp) + rest;
    num' := PushCell(c, marks, shapeBuffer, num);
  }

  /** One turn of load_hb_buffer's inner loop: skip a trailing half, or push a cell's codepoints. */
  method FillStep(cells: seq<RunCell>, marks: Marks, shapeBuffer: array<nat>, n: nat, prevWidth: nat, num: nat,
                  ghost target: seq<nat>)
    returns (n': nat, prevWidth': nat, num': nat)
    requires n < |cells| && num < CHUNK_LIMIT && shapeBuffer.Length == SHAPE_BUFFER_SIZE
    requires shapeBuffer[..num] + Fill(cells, marks, n, prevWidth, num) == target
    modifies shapeBuffer
    ensures n' == n + 1 && num <= num' <= num + 3
    ensures shapeBuffer[..num'] + Fill(cells, marks, n', prevWidth', num') == target
  {
    if prevWidth == 2 {
      FillUnfold(cells, marks, n, prevWidth, num);
      return n + 1, 0, num;
    }
    FillUnfold(cells, marks, n, prevWidth, num);
    num' := PushStep(cells[n], marks, shapeBuffer, num,
                     Fill(cells, marks, n + 1, Width(cells[n].gpu.attrs), num + |CellCodepoints(cells[n], marks)|), target);
    prevWidth' := Width(cells[n].gpu.attrs);
    n' := n + 1;
  }

  /**
   * One chunk of load_hb_buffer: cells are pushed into shape_buffer until the
   * run ends or the chunk limit is reached; returns where the next chunk starts.
   */
  method FillChunk(cells: seq<RunCell>, marks: Marks, shapeBuffer: array<nat>, start: nat, startWidth: nat)
    returns (n: nat, prevWidth: nat, num: nat)
    requires start < |cells| && shapeBuffer.Length == SHAPE_BUFFER_SIZE
    modifies shapeBuffer
    ensures start < n <= |cells| && num <= SHAPE_BUFFER_SIZE
    ensures shapeBuffer[..num] + Fill(cells, marks, n, prevWidth, 0) == Fill(cells, marks, start, startWidth, 0)
  {
    ghost var target := Fill(cells, marks, start, startWidth, 0);
    n, prevWidth, num := start, startWidth, 0;
    assert shapeBuffer[..num] + target == target;
    while n < |cells| && num < CHUNK_LIMIT
      invariant start <= n <= |cells| && num <= CHUNK_LIMIT + 2
      invariant num > 0 ==> start < n
      invariant shapeBuffer[..num] + Fill(cells, marks, n, prevWidth, num) == target
      decreases |cells| - n
    {
      n, prevWidth, num := FillStep(cells, marks, shapeBuffer, n, prevWidth, num, target);
    }
    if num >= CHUNK_LIMIT {
      FillChunkBoundary(cells, marks, n, prevWidth, num);
    }
  }

  /**
   * load_hb_buffer (with the width carried across chunks): each chunk filled
   * in shape_buffer is appended to the shaper's buffer, which ends up holding
   * the run's flattened codepoints.
   */
  method LoadHbBuffer(cells: seq<RunCell>, marks: Marks, shapeBuffer: array<nat>) returns (contents: seq<nat>)
    requires shapeBuffer.Length == SHAPE_BUFFER_SIZE
    modifies shapeBuffer
    ensures contents == Flattened(cells, marks, 0)
  {
    FillIsFlattened(cells, marks, 0, 0, 0);
    contents := [];
    var n: nat := 0;
    var prevWidth: nat := 0;
    while n < |cells|
      invariant n <= |cells|
      invariant contents + Fill(cells, marks, n, prevWidth, 0) == Fill(cells, marks, 0, 0, 0)
      decreases |cells| - n
    {
      var num;
      ghost var rest := Fill(cells, marks, n, prevWidth, 0);
      n, prevWidth, num := FillChunk(cells, marks, shapeBuffer, n, prevWidth);
      assert contents + rest == (contents + shapeBuffer[..num]) + Fill(cells, marks, n, prevWidth, 0);
      contents := contents + shapeBuffer[..num];
    }
  }
}

module HbBufferFindings {
  import opened DataTypes
  import opened Grouping
  import opened HbBuffer

  const NARROW_A: RunCell := RunCell(CPUCell(97, 0, 0), GPUCell(0, 0, 0, 0, 0, 0, 1))
  const WIDE: RunCell := RunCell(CPUCell(0x4E00, 0, 0), GPUCell(0, 0, 0, 0, 0, 0, 2))
  const TRAILER: RunCell := RunCell(CPUCell(0, 0, 0), GPUCell(0, 0, 0, 0, 0, 0, 0))

  /** CHUNK_LIMIT - 1 narrow cells, then a double-width cell and its trailing half. */
  function ChunkExample(): seq<RunCell>
  {
    seq(CHUNK_LIMIT - 1, _ => NARROW_A) + [WIDE, TRAILER]
  }

  lemma {:induction false} NarrowPrefix(cells: seq<RunCell>, marks: Marks, i: nat, pw: nat)
    requires cells == ChunkExample() && i <= CHUNK_LIMIT - 1 && pw != 2
    ensures FillAsWritten(cells, marks, i, pw, i)
            == seq(CHUNK_LIMIT - 1 - i, _ => 97) + FillAsWritten(cells, marks, CHUNK_LIMIT - 1, 1, CHUNK_LIMIT - 1)
    decreases CHUNK_LIMIT - 1 - i
  {
    if i < CHUNK_LIMIT - 1 {
      assert cells[i] == NARROW_A;
      assert CellCodepoints(NARROW_A, marks) == [97];
      AsWrittenUnfold(cells, marks, i, pw, i);
      NarrowPrefix(cells, marks, i + 1, 1);
      assert [97] + seq(CHUNK_LIMIT - 1 - (i + 1), _ => 97) == seq(CHUNK_LIMIT - 1 - i, _ => 97);
    } else {
      assert cells[i] == WIDE;
      AsWrittenUnfold(cells, marks, i, pw, i);
      AsWrittenUnfold(cells, marks, i, 1, i);
      assert seq(0, _ => 97) == [];
    }
  }

  /**
   * As written, the trailing half of a double-width cell that closes a chunk
   * is sent to the shaper: the new chunk starts with the previous width reset
   * to 0, so ChunkExample yields one codepoint more than its cells hold, and
   * the run's glyphs no longer line up with its cells.
   */
  lemma AsWrittenSendsTrailingHalf(marks: Marks)
    ensures var cells := ChunkExample(); var r := FillAsWritten(cells, marks, 0, 0, 0);
      |r| == CHUNK_LIMIT + 1 && r[CHUNK_LIMIT] == TRAILER.cpu.ch
      && |Flattened(cells, marks, 0)| == CHUNK_LIMIT
  {
    var cells := ChunkExample();
    NarrowPrefix(cells, marks, 0, 0);
    assert cells[CHUNK_LIMIT - 1] == WIDE && cells[CHUNK_LIMIT] == TRAILER;
    assert CellCodepoints(WIDE, marks) == [WIDE.cpu.ch];
    assert CellCodepoints(TRAILER, marks) == [TRAILER.cpu.ch];
    var tail := FillAsWritten(cells, marks, CHUNK_LIMIT - 1, 1, CHUNK_LIMIT - 1);
    assert |cells| == CHUNK_LIMIT + 1;
    assert FillAsWritten(cells, marks, CHUNK_LIMIT + 1, 0, 1) == [];
    assert FillAsWritten(cells, marks, CHUNK_LIMIT, 0, 0) == [TRAILER.cpu.ch] + FillAsWritten(cells, marks, CHUNK_LIMIT + 1, 0, 1);
    assert FillAsWritten(cells, marks, CHUNK_LIMIT, 2, CHUNK_LIMIT) == FillAsWritten(cells, marks, CHUNK_LIMIT, 0, 0);
    assert tail == [WIDE.cpu.ch, TRAILER.cpu.ch];
    FillIsFlattened(cells, marks, 0, 0, 0);
    CorrectedSkipsTrailingHalf(cells, marks);
  }

  lemma {:induction false} CorrectedSkipsTrailingHalf(cells: seq<RunCell>, marks: Marks)
    requires cells == ChunkExample()
    ensures |Flattened(cells, marks, 0)| == CHUNK_LIMIT
  {
    FlattenedNarrow(cells, marks, 0);
    assert cells[CHUNK_LIMIT - 1] == WIDE;
    assert CellCodepoints(WIDE, marks) == [WIDE.cpu.ch];
  }

  lemma {:induction false} FlattenedNarrow(cells: seq<RunCell>, marks: Marks, i: nat)
    requires cells == ChunkExample() && i <= CHUNK_LIMIT - 1
    ensures |Flattened(cells, marks, i)| == CHUNK_LIMIT - 1 - i + |Flattened(cells, marks, CHUNK_LIMIT - 1)|
    decreases CHUNK_LIMIT - 1 - i
  {
    if i < CHUNK_LIMIT - 1 {
      assert cells[i] == NARROW_A;
      assert |CellCodepoints(NARROW_A, marks)| == 1;
      FlattenedNarrow(cells, marks, i + 1);
    }
  }
}
