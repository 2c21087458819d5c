# kitty glyph-to-cell bookkeeping, modelled in Dafny

This project models the part of kitty's text renderer that decides which glyph
ends up in which cell, and where its pixels live in the GPU sprite atlas:

- **Sprite tracker** (`GPUSpriteTracker`, `do_increment`, `sprite_tracker_set_layout`/`set_limits`):
  the integer state machine that walks atlas slots (x, y, z) row by row and layer by layer, and
  reports exhaustion once the layer index reaches `MIN(UINT16_MAX, max_array_len)` with
  `max_array_len` clamped to `0xfff` (`SpriteTracker`, `tracker.dfy`).
- **Sprite-position cache** (`sprite_position_for`, `extra_glyphs_equal`, clear/free): 1024 buckets
  indexed by `glyph & 1023`, each an overflow chain appended in place, keyed by glyph, the
  extra glyphs up to the first zero, and the ligature index (`SpriteCache`, `sprite_cache.dfy`).
- **Special-glyph cache** (`special_glyph_cache_for`, `is_special_glyph`, `is_empty_glyph`): the
  same table shape, memoising two per-glyph bits (`SpecialCache`, `special_cache.dfy`).
- **Group builder** (`shape_run`, `check_cell_consumed`, `num_codepoints_in_cell`,
  `group_state_move_glyph_to_next_group`, `merge_groups_for_pua_space_ligature`,
  `split_run_at_offset`): it partitions a run of cells into groups of at most 9 glyphs and 9
  cells from HarfBuzz's glyph stream. A pure specification (`Grouping`, `grouping.dfy`) and the
  imperative `GroupState` class proved equal to it (`GroupStates`, `group_state.dfy`).
- **HarfBuzz buffer loading** (`load_hb_buffer`): the flattening of cells into codepoints through the
  4096-entry `shape_buffer`, a chunk being closed once it holds 4074 codepoints (`HbBuffer`, `hb_buffer.dfy`).
- **Rendering groups into sprites** (`render_groups`' extra-glyph packing, `render_group`,
  `set_cell_sprite`): slot assignment, the rendered/colored flags and the colored bit of
  `sprite_z` (`Render`, `render.dfy`).
- **Font selection** (`font_for_cell`, `in_symbol_maps`, `box_glyph_id`, `has_cell_text`,
  `has_emoji_presentation`, `fallback_font`, `load_fallback_font`): a decision procedure over the
  font table of a font group (`FontSelect`, `font_select.dfy`), and the `FontGroup` object that
  owns the table (`CellFonts`, `font_for_cell.dfy`).
- **Font-group list** (`trim_unused_font_groups`, `add_font_group`, `font_group_for`)
  (`FontGroups`, `font_groups.dfy`).
- **Pixel buffers** (`render_alpha_mask`, `concat_cells`) (`Pixels`, `pixels.dfy`).
- **Sprite texture in shaders.c** (`NEW_SPRITE_MAP`, `alloc_sprite_map`, `realloc_sprite_texture`,
  `send_sprite_to_gpu`), over an abstract GPU that holds 3-D textures (`SpriteTexture`,
  `sprite_texture.dfy`), and the cursor fields of `cell_update_uniform_block` (`CursorUniform`,
  `cursor_uniform.dfy`).
- **Cell attribute macros and array helpers of data-types.h** (`DataTypes`, `data_types.dfy`).
- **CoreText font-name matching** (`create_font_map`, `all_fonts_map`, `find_best_match`,
  `resolve_family`, `get_font_files`, `font_for_family` in `kitty/fonts/core_text.py`)
  (`CoreTextFonts`, `core_text.dfy`).

Where the code has a defect, the model keeps both halves: a member that does what the code does
(named `...AsWritten`, or taking `asWritten: bool`), a lemma that exhibits the defect on a named
input, and the corrected member that the rest of the model uses, with the intended property
proved about it. The members that model the corrected behaviour are listed under "## Left out"
and each defect is tabulated under "## Findings".

The documentation of the program and its code differ in two places; the model follows the code:

- The documentation says that for a 4 x 2 x 2 atlas the 17th allocation fails. The code reports
  the error on the 16th call, the one that hands out the last valid slot
  (`SpriteTracker.AsWrittenHandsOutSlotBeyondCap`).
- The documentation allows at most 100 fallback fonts. The code tests `> 100`, so a 101st
  fallback font is still loaded (`FontSelect.HundredAndFirstFallbackLoads`).

## Model

| member | source | states |
|---|---|---|
| SpriteTracker.Limits.constructor | kitty/fonts.c:473-476 | the process-wide limits start at 1024 for both the texture size and the array length |
| SpriteTracker.Limits.SetLimits | kitty/fonts.c:473-476 | the texture size is stored as given; the array length is clamped to `0xfff`, so the layer cap equals it |
| SpriteTracker.Limits.LayerCap | kitty/fonts.c:497 | the layer cap is at most `UINT16_MAX` and at most `max_array_len`, and equals `max_array_len` whenever that fits in 16 bits |
| SpriteTracker.Clamp | kitty/fonts.c:755-756 | `MIN(MAX(1, v), UINT16_MAX)`: the result is in `[1, UINT16_MAX]` and equals `v` when `v` is already there |
| SpriteTracker.LayoutFor | kitty/fonts.c:754-761 | a fresh layout is valid, at slot 0, with `ynum == 1`, and with `xnum`/`max_y` the clamped quotients of the texture size by the cell size |
| SpriteTracker.Next | kitty/fonts.c:486-503 | one increment keeps the layout valid, moves strictly past the current slot and every earlier one, keeps `xnum`/`max_y`, never shrinks `ynum`, and reports exhaustion exactly when `z` changes to a value at or above the cap |
| SpriteTracker.NextAdvancesOne | kitty/fonts.c:486-503 | an increment advances the row-major linear slot index by exactly one |
| SpriteTracker.LinearDetermines | kitty/fonts.c:486-503 | two layouts of the same shape with the same linear index are at the same (x, y, z) |
| SpriteTracker.AdvanceLinear | kitty/fonts.c:486-503 | n increments advance the linear index by n |
| SpriteTracker.NoDuplicateSlots | kitty/fonts.c:486-503 | different numbers of increments reach different slots: the tracker never hands out a slot twice |
| SpriteTracker.Tracker.constructor | kitty/fonts.c:754-761 | a new tracker holds `LayoutFor` of the limits and cell size |
| SpriteTracker.Tracker.SetLayout | kitty/fonts.c:754-761 | re-laying out resets the tracker to `LayoutFor` of the limits and cell size |
| SpriteTracker.Tracker.Increment | kitty/fonts.c:486-503 | `do_increment` moves the fields to `Next` of the old layout and returns its exhaustion flag (error 2) |
| SpriteTracker.Tracker.CurrentLayout | kitty/fonts.c:651-657 | returns `xnum`, `ynum` and `z` |
| SpriteTracker.AllocateAsWritten | kitty/fonts.c:538-597 | the code's allocation: the slot handed out is always the current (x, y, z), whatever the cap |
| SpriteTracker.Allocate | kitty/fonts.c:486-503 | the intended allocation: a slot is handed out iff the current layer is below the cap; it is then the current (x, y, z), below the cap, never flagged exhausted, and the tracker advances once; otherwise nothing changes and exhaustion is reported |
| SpriteTracker.AsWrittenHandsOutSlotBeyondCap | kitty/fonts.c:486-503 | on a 2 x 1 x 1 atlas the code reports exhaustion while handing out the last valid slot, then hands out a slot in layer 1 with no error |
| SpriteTracker.AllocateRefusesBeyondCap | kitty/fonts.c:486-503 | on the same atlas the intended allocator hands out both slots without error and refuses the third |
| SpriteTracker.AllocateCapacity | kitty/fonts.c:486-503 | from slot 0, n allocations reach linear index `min(n, xnum * max_y * cap)`, and the next one succeeds iff `n < xnum * max_y * cap`: exactly the atlas capacity is handed out |
| SpriteTracker.AllocateN | kitty/fonts.c:486-503 | n intended allocations keep the layout valid and its `xnum` and `max_y` |
| SpriteTracker.LayerBelowCap | kitty/fonts.c:486-503 | the layer is below the cap iff the linear index is below the capacity |
| SpriteCache.BucketOf | kitty/fonts.c:547 | the bucket `glyph & 1023` is below 1024 |
| SpriteCache.FirstZero | kitty/fonts.c:513-523 | the result is the first index at or after i holding 0, or the end of the array |
| SpriteCache.ExtraGlyphsEqual | kitty/fonts.c:513-523 | `extra_glyphs_equal` holds iff both arrays agree at every index up to and including `a`'s first zero, iff their parts before the first zero are equal |
| SpriteCache.EqualFromMeans | kitty/fonts.c:513-523 | the scan from any index whose prefix already agrees decides equality of the significant parts |
| SpriteCache.MatchesIsKeyEquality | kitty/fonts.c:553-566 | a node matches a key iff glyph, significant extra glyphs and ligature index are equal |
| SpriteCache.Walk | kitty/fonts.c:550-580 | the chain walk passes only filled non-matching nodes and stops at the first matching node (a hit) or at the first free node or the end of the chain (a miss) |
| SpriteCache.Store | kitty/fonts.c:582-591 | storing a node writes that one position (appending at the end) and leaves every other node |
| SpriteCache.Locate | kitty/fonts.c:538-597 | the table keeps 1024 buckets and the layout stays valid (the effect is stated by `LocateEffect`) |
| SpriteCache.LocateAsWritten | kitty/fonts.c:538-597 | the code's lookup always returns a filled node that matches the key, and reports exhaustion only on the call that moved `z` to the cap |
| SpriteCache.LocateGrows | kitty/fonts.c:538-597 | a lookup never shortens a chain nor changes a filled node, and a found node is filled and matches the key |
| SpriteCache.EmptyTable | kitty/fonts.c:673-683 | the empty table satisfies the cache invariant for every layout |
| SpriteCache.LocateReturnsKey | kitty/fonts.c:538-597 | on a valid table a found node is filled and matches the key |
| SpriteCache.LocateEffect | kitty/fonts.c:538-597 | a lookup either finds the key without changing anything, or fills exactly one previously free node of the key's bucket with the key and the pre-increment slot and advances the tracker by one, or (only when the layer is at the cap) refuses and changes nothing |
| SpriteCache.LocateIdempotent | kitty/fonts.c:538-597 | repeating a lookup returns the same node and changes nothing: at most one slot is ever allocated per key |
| SpriteCache.LocateKeepsInv | kitty/fonts.c:538-597 | a lookup preserves the invariant: chains have their filled nodes first, keys are distinct, every node is in its own bucket, slots are issued, distinct and below the cap |
| SpriteCache.Cleared | kitty/fonts.c:699-705 | a cleared node is not filled, not rendered and not colored |
| SpriteCache.SpriteMap.constructor | kitty/fonts.c:547-550 | a new cache is the empty table of 1024 buckets |
| SpriteCache.SpriteMap.PositionFor | kitty/fonts.c:538-597 | the in-place lookup leaves the buckets and tracker exactly as `Locate` says and keeps the invariant |
| SpriteCache.SpriteMap.PositionForAsWritten | kitty/fonts.c:538-597 | the in-place lookup as written leaves the buckets and tracker exactly as `LocateAsWritten` says |
| SpriteCache.SpriteMap.Clear | kitty/fonts.c:714-720 | `clear_sprite_map` keeps every chain's length and clears every node, keeping the invariant |
| SpriteCache.SpriteMap.Free | kitty/fonts.c:660-670 | `free_sprite_positions` leaves the empty table |
| SpriteCacheFindings.AsWrittenReportsErrorWithLastSlot | kitty/fonts.c:538-597 | on a 2 x 1 x 1 atlas at its last slot, the code fills the node and reports exhaustion; the corrected lookup fills the same node without error |
| SpriteCacheFindings.AsWrittenFillsBeyondCap | kitty/fonts.c:538-597 | once the layer is at the cap, the code fills a node with a slot in layer 1 and no error, while the corrected lookup refuses and leaves the table empty |
| SpecialCache.BucketOf | kitty/fonts.c:609 | the bucket is below 1024 |
| SpecialCache.WalkAsWritten | kitty/fonts.c:608-640 | the code's walk, which stops at a node with glyph 0 or the glyph sought, ends inside the chain or at its end |
| SpecialCache.Walk | kitty/fonts.c:608-640 | the corrected walk passes only used nodes of other glyphs and stops at the first unused node or the glyph's own node |
| SpecialCache.WalkIsFirstStop | kitty/fonts.c:608-640 | the corrected walk stops exactly at the first node that is unused or holds the glyph |
| SpecialCache.Store | kitty/fonts.c:630-638 | storing writes node i (appending at the end) and keeps every other node |
| SpecialCache.Classify | kitty/fonts.c:1875-1914 | recording a bit keeps the glyph, marks the bit as known, keeps a node whose bit is already known, and otherwise sets the value bit iff the computed value is true |
| SpecialCache.QueryAsWritten | kitty/fonts.c:608-640 | the code's query keeps the 1024 buckets |
| SpecialCache.Query | kitty/fonts.c:608-640 | the corrected query keeps the 1024 buckets (its meaning is stated by `QueryAnswer`) |
| SpecialCache.EmptyTable | kitty/fonts.c:673-683 | the empty table is valid and records nothing |
| SpecialCache.QueryAnswer | kitty/fonts.c:1875-1914 | a query answers the recorded bit if there is one and the computed value otherwise, and afterwards that answer is recorded |
| SpecialCache.QueryMemoised | kitty/fonts.c:1875-1914 | a second query of the same glyph and kind returns the same answer and changes nothing, whatever value it would compute |
| SpecialCache.QueryKeepsInv | kitty/fonts.c:608-640 | a query keeps the table invariant (one node per glyph per bucket, in its own bucket) |
| SpecialCache.QueryKeepsOthers | kitty/fonts.c:608-640 | a query changes no other glyph's record and no other kind's record |
| SpecialCache.QueryKeepsOtherKind | kitty/fonts.c:1875-1914 | querying one bit of a glyph leaves its other bit's record unchanged |
| SpecialCache.QueryKeepsOtherGlyph | kitty/fonts.c:608-640 | querying a glyph leaves the records of other glyphs of its bucket unchanged |
| SpecialCache.AsWrittenForgetsSpecial | kitty/fonts.c:608-640 | with the code's glyph-0 test, after glyph 0 is classified, glyph 1024 is classified special, then queried for emptiness, then reported not special |
| SpecialCache.FirstQueryLeaves1024 | kitty/fonts.c:608-640 | after classifying glyph 0 on an empty table, glyph 1024 has no record yet |
| SpecialCache.CorrectedRecordsSpecial | kitty/fonts.c:608-640 | with the corrected test the same first two queries record glyph 1024 as special |
| SpecialCache.CorrectedRemembersSpecial | kitty/fonts.c:608-640 | with the corrected test the same four queries report glyph 1024 special both times |
| SpecialCache.SpecialGlyphCache.constructor | kitty/fonts.c:609 | a new cache is the empty table |
| SpecialCache.SpecialGlyphCache.CacheFor | kitty/fonts.c:608-640 | the in-place walk returns the corrected stop position and stores the glyph there, appending a zero node at the end of the chain |
| SpecialCache.SpecialGlyphCache.IsSpecialGlyph | kitty/fonts.c:1875-1890 | `is_special_glyph` answers `Query` for the special bit, the computed value being "the cell has a codepoint and the glyph is not its cmap glyph" |
| SpecialCache.SpecialGlyphCache.IsEmptyGlyph | kitty/fonts.c:1903-1914 | `is_empty_glyph` answers `Query` for the empty bit, computed by the face |
| SpecialCache.SpecialGlyphCache.Record | kitty/fonts.c:1875-1914 | recording any bit in place answers `Query` |
| SpecialCache.SpecialGlyphCache.Clear | kitty/fonts.c:729-744 | `clear_special_glyph_cache` keeps chain lengths, zeroes every node, and leaves nothing recorded |
| SpecialCache.SpecialGlyphCache.Free | kitty/fonts.c:673-683 | freeing leaves the empty table |
| Grouping.MarksOf | kitty/fonts.c:1790-1796 | a cell's marks are at most two, all non-zero |
| Grouping.NumCodepointsInCell | kitty/fonts.c:1790-1796 | a cell has 1 plus its number of non-zero marks codepoints, between 1 and 3 |
| Grouping.CheckCellConsumed | kitty/fonts.c:1924-1971 | before the cell's last codepoint the result is width 0, same cell, one more consumed; on the last one it is the cell's width, the cell position moves by `max(1, width)` and the count resets to 0 |
| Grouping.ConsumeWholeCell | kitty/fonts.c:1924-1971 | consuming a cell codepoint by codepoint yields the base character, then each mark's codepoint (VS15/VS16 as 0), and the cell's width exactly on its last codepoint |
| Grouping.ConsumeAdvances | kitty/fonts.c:2114-2120 | the consume loop advances `cell_idx` by exactly the cells it reports consumed |
| Grouping.SplitOverlongShape | kitty/fonts.c:2122-2136 | an overlong glyph becomes successive single-glyph groups, each with 1 to 9 cells, consecutive from its start cell and ending at start + consumed; earlier groups are untouched |
| Grouping.AdmitRule | kitty/fonts.c:2056-2088 | a glyph joins the current group iff the group is empty, or it is special after an empty glyph, or it is not special after a non-special glyph, and the group holds fewer than 9 glyphs and 9 cells; otherwise it opens a new group at the current cell |
| Grouping.AbsorbRest | kitty/fonts.c:2093-2111 | the last glyph takes the remaining cells: `cell_idx` reaches the run length even though `num_cells` is clamped to 9 |
| Grouping.Place | kitty/fonts.c:2023-2155 | placing one glyph advances `glyph_idx` by one, keeps the cache and records the special/empty flags |
| Grouping.Classify | kitty/fonts.c:2026-2033 | classification keeps a well-formed cache and a non-special glyph is never treated as empty |
| Grouping.ClassifyAnswers | kitty/fonts.c:2026-2033 | the special flag is the recorded one if the cache has it, else whether the current codepoint is not 0 and maps to another glyph; the empty flag is false for a non-special glyph and otherwise the recorded one or what the face says; the cache afterwards records both answers and keeps its invariant |
| Grouping.RunKeepsTiled | kitty/fonts.c:2023-2155 | the shaping loop keeps the groups within their caps and contiguous from cell 0 |
| Grouping.ShapeRunTiles | kitty/fonts.c:1984-2156 | `shape_run` (with the corrected move) yields groups within the caps of 9 glyphs and 9 cells, the first at cell 0, each non-empty group starting where the previous one ends, ending at or before `cell_idx`; the last group ends at `cell_idx` unless it was clamped to 9 cells |
| Grouping.ShapeRunReachesLastCell | kitty/fonts.c:2093-2111 | with at least one glyph, the run with the code's move and the run with the corrected move both end with `cell_idx` at or past the last cell |
| Grouping.ShapeRunGlyphsInRange | kitty/fonts.c:1984-2156 | every group's glyphs lie within the glyph stream |
| Grouping.AddRepeatedlyClosedForm | kitty/fonts.c:2162-2176 | adding `groups[1]` t times adds t times its cells and min(9, ...) of its glyphs, and keeps the first group's other fields |
| Grouping.MergeCounts | kitty/fonts.c:2162-2176 | the merged group is a space ligature at the first group's start, with `n0 + k*n1` cells and `min(9, g0 + k*g1)` glyphs, k being the number of later groups |
| Grouping.SplitFromFirstHolder | kitty/fonts.c:2191-2215 | the split range is that of the first group containing the offset if it is splittable (more than one cell, a special glyph, first cell of width 1), and (0, 0) otherwise |
| Grouping.SplitRangeIsHolder | kitty/fonts.c:2191-2215 | a non-(0, 0) split range is the range of a splittable group containing the offset |
| GroupingFindings.AsWrittenMovedGroupSkipsCells | kitty/fonts.c:2141 | on a run where a glyph is moved to the next group, the code starts the moved group at cell 11 although the previous group ends at cell 6 |
| GroupingFindings.CorrectedMoveTilesExample | kitty/fonts.c:2141 | with the move at the glyph's start cell the same run is tiled by three groups covering all its cells |
| GroupingFindings.MoveExampleRun | kitty/fonts.c:1984-2156 | on that run, with either move, the loop produces the three groups of `ExampleGroups` |
| GroupStates.EmitSplit | kitty/fonts.c:2122-2136 | the loop that emits overlong groups produces `SplitOverlong` |
| GroupStates.GroupState.constructor | kitty/fonts.c:1829-1844 | a new state has one empty group and zero indexes |
| GroupStates.GroupState.CheckCellConsumed | kitty/fonts.c:1924-1971 | the in-place step returns and stores what `Grouping.CheckCellConsumed` computes and changes nothing else |
| GroupStates.GroupState.ConsumeCodepoint | kitty/fonts.c:2114-2120 | one turn of the consume loop moves the state one codepoint along `Consume` |
| GroupStates.GroupState.MoveGlyphToNextGroup | kitty/fonts.c:1764-1775 | moving the glyph leaves the groups as `Grouping.MoveGlyphToNextGroup` from the given start cell and changes nothing else |
| GroupStates.GroupState.AdmitGlyph | kitty/fonts.c:2056-2088 | the in-place admission leaves the groups as `Admit` and changes nothing else |
| GroupStates.GroupState.AbsorbRemainingCells | kitty/fonts.c:2093-2111 | the in-place absorption leaves groups and `cell_idx` as `AbsorbRest` |
| GroupStates.GroupState.ConsumeCodepoints | kitty/fonts.c:2114-2120 | the consume loop leaves the cell cursor, `cell_idx` and the count as `Consume` |
| GroupStates.GroupState.FileConsumedCells | kitty/fonts.c:2121-2150 | filing the consumed cells leaves the groups as the corrected `AfterConsume` |
| GroupStates.GroupState.EmitOverlongGroups | kitty/fonts.c:2122-2136 | the glyph is removed from the current group and the groups become `SplitOverlong` from the start cell |
| GroupStates.GroupState.AddConsumedCells | kitty/fonts.c:2138-2148 | the glyph's cells are added to the current group, after moving the glyph to a new group when the cell cap would be exceeded, and a fresh empty group follows a non-special glyph |
| GroupStates.GroupState.PlaceGlyph | kitty/fonts.c:2023-2155 | one loop turn leaves the state as `Place` |
| GroupStates.GroupState.ShapeRun | kitty/fonts.c:1984-2156 | `shape_run` leaves the state as the corrected `Grouping.ShapeRun` and keeps the glyph cache valid |
| GroupStates.GroupState.MergeGroupsForPuaSpaceLigature | kitty/fonts.c:2162-2176 | the groups become the single merged group |
| GroupStates.GroupState.SplitRunAtOffset | kitty/fonts.c:2191-2215 | the loop returns `Grouping.SplitRunAtOffset` |
| HbBuffer.CellCodepoints | kitty/fonts.c:1447-1488 | a cell contributes its base character followed by its marks' codepoints, 1 to 3 in all |
| HbBuffer.FillChunkBoundary | kitty/fonts.c:1447-1488 | a full chunk starts the next one with an empty buffer and the same cell state |
| HbBuffer.FillIsFlattened | kitty/fonts.c:1447-1488 | the corrected chunked fill yields exactly the flattened codepoints of the run, the trailing half of a wide cell skipped, regardless of chunking |
| HbBuffer.ShortRunsUnaffected | kitty/fonts.c:1447-1488 | on runs that fit in one chunk the code's fill and the corrected fill agree |
| HbBuffer.PushCell | kitty/fonts.c:1466-1478 | pushing a cell appends exactly its codepoints to the buffer |
| HbBuffer.FillChunk | kitty/fonts.c:1451-1483 | one chunk consumes at least one cell, stays within the buffer, and what it writes followed by the rest equals the whole fill |
| HbBuffer.LoadHbBuffer | kitty/fonts.c:1447-1488 | the codepoints sent to HarfBuzz, chunk after chunk, are the corrected flattening of the run |
| HbBufferFindings.AsWrittenSendsTrailingHalf | kitty/fonts.c:1451-1463 | on 4073 narrow cells followed by a wide cell and its trailing half, the code sends 4075 codepoints, the last being the trailing half, where the flattening has 4074 |
| HbBufferFindings.CorrectedSkipsTrailingHalf | kitty/fonts.c:1460-1463 | the corrected flattening of the same run has 4074 codepoints |
| Render.SpriteZDecodes | kitty/fonts.c:1497-1504 | `sprite_z` keeps the layer below bit 14 and has bit 14 set iff the sprite is colored |
| Render.SpriteZInjective | kitty/fonts.c:1497-1504 | distinct (layer, colored) pairs give distinct `sprite_z` |
| Render.SetCellSprite | kitty/fonts.c:1497-1504 | only the sprite coordinates of the cell change, and `sprite_z` decodes to the slot's layer and colored flag |
| Render.GlyphIds | kitty/fonts.c:2236-2244 | the glyph ids are the shaped infos' codepoints, in order |
| Render.OtherGlyphs | kitty/fonts.c:2240-2248 | the extra glyphs of a group are at most 8 |
| Render.PackedKeyIsSignificant | kitty/fonts.c:2240-2248 | the packed array's significant part is the group's other glyphs up to the first zero |
| Render.PackIgnoresJunk | kitty/fonts.c:2240-2248 | what the uninitialised tail of `ed` holds never changes the key |
| Render.PackExtraGlyphs | kitty/fonts.c:2240-2248 | the packing loop yields `Packed` of the group's other glyphs |
| Render.Requests | kitty/fonts.c:2225-2268 | groups are rendered in order up to the first group with no cells |
| Render.LocateAll | kitty/fonts.c:1560-1569 | the per-cell lookups return one node per cell unless a lookup fails |
| Render.LocateAllNodes | kitty/fonts.c:1560-1569 | the lookups keep existing chains and each returned node holds the key of its cell |
| Render.ApplyMarks | kitty/fonts.c:1609-1612 | marking sets the flags of exactly the group's nodes |
| Render.ApplySetsCells | kitty/fonts.c:1609-1612 | each of the group's cells gets its node's sprite and no other cell changes |
| Render.RenderGroupSpec | kitty/fonts.c:1544-1626 | `render_group` (corrected allocator) keeps 1024 buckets, a valid layout and the cell count |
| Render.RenderGroupKeepsInv | kitty/fonts.c:1544-1626 | rendering a group keeps the sprite-cache invariant |
| Render.RenderGroupTouchesOnlyItsCells | kitty/fonts.c:1544-1626 | a failed group changes no cell, and no cell outside the group's cells changes |
| Render.RenderGroupShowsCachedSprites | kitty/fonts.c:1544-1626 | after a successful group, each of its cells shows the sprite cached for (glyph, extra glyphs, its index) |
| Render.CachedSlotsDistinct | kitty/fonts.c:538-597 | two cached keys of different ligature index have different slots, both below the cap |
| Render.ShownSpritesDistinct | kitty/fonts.c:1609-1612 | on a valid table with fewer than 0x4000 layers, cells showing the cached sprites of different ligature indices have different sprite coordinates |
| Render.RenderGroupSpritesDistinct | kitty/fonts.c:1544-1626 | two cells of a rendered group never show the same sprite |
| Render.RenderGroupMarksRendered | kitty/fonts.c:1572-1612 | after a successful group its first sprite is rendered, and if it was not before, every sprite of the group is rendered with the rasteriser's colored flag |
| Render.LocateSprites | kitty/fonts.c:1560-1569 | the lookup loop over the cache object does what `LocateAll` says |
| Render.ApplySprites | kitty/fonts.c:1609-1612 | the flag and cell loop does what `Apply` says |
| Render.RenderGroup | kitty/fonts.c:1544-1626 | the in-place `render_group` does what `RenderGroupSpec` says and keeps the invariant |
| Render.RenderAll | kitty/fonts.c:2225-2268 | rendering a list of groups keeps 1024 buckets, a valid layout and the cell count |
| Render.RenderAllKeepsInv | kitty/fonts.c:2225-2268 | rendering a list of groups keeps the sprite-cache invariant |
| Render.RenderGroups | kitty/fonts.c:2225-2268 | `render_groups` does what `RenderAll` of its requests says and keeps the invariant |
| RenderFindings.LocateAllAsWritten | kitty/fonts.c:1560-1569 | with the code's lookup a group fails exactly when some lookup reports the error |
| RenderFindings.AsWrittenAbandonsGroupOnLastSlot | kitty/fonts.c:1562-1568 | with the code's lookup a group whose cell gets the last valid slot is abandoned; the corrected model renders it |
| RenderFindings.AsWrittenRendersBeyondCap | kitty/fonts.c:1562-1568 | with the code's lookup a group past the cap is rendered into layer 1; the corrected model refuses it |
| FontSelect.SelectorsDoNotNeedGlyphs | kitty/fonts.c:1048-1062 | a cell whose marks are VS15/VS16 is covered iff its base character is |
| FontSelect.UncoveredMarkRefuses | kitty/fonts.c:1048-1062 | a face lacking a non-selector mark does not cover the cell |
| FontSelect.FirstMapWith | kitty/fonts.c:1215-1222 | the result is the first symbol map containing the character, or none contains it |
| FontSelect.SymbolFontIsFirstMap | kitty/fonts.c:1215-1222 | `in_symbol_maps` returns NO_FONT iff no map contains the character, and otherwise the first map's font, among the symbol fonts |
| FontSelect.BoxGlyphId | kitty/fonts.c:1324-1335 | box glyph ids are at most 0xc4, or 0xff for other characters |
| FontSelect.BoxGlyphIdsDistinct | kitty/fonts.c:1324-1335 | distinct box-drawing characters get distinct glyph ids, none 0xff |
| FontSelect.FirstServing | kitty/fonts.c:1185-1205 | the result is the first fallback font of the right style that covers the cell, or none does |
| FontSelect.FallbackBaseIsLoaded | kitty/fonts.c:1107-1174 | the face a fallback is derived from is a loaded font |
| FontSelect.LoadFallback | kitty/fonts.c:1107-1174 | MISSING_FONT iff more than 100 fallbacks exist, no face is proposed, or it lacks coverage; then nothing changes; otherwise the new font is appended at the end, serves the request, and only the fallback count changes |
| FontSelect.FallbackFontServes | kitty/fonts.c:1185-1205 | the result is the first serving fallback, or a newly loaded serving font, or MISSING_FONT with no existing fallback serving |
| FontSelect.FallbackFontIdempotent | kitty/fonts.c:1185-1205 | asking again after a successful fallback returns the same font and loads nothing |
| FontSelect.StyledFontIsLoaded | kitty/fonts.c:1271-1287 | the styled font chosen by bold/italic is a loaded font |
| FontSelect.FontForCell | kitty/fonts.c:1240-1300 | the result is a real index, MISSING_FONT or BLANK_FONT, the table stays valid and existing fonts are kept |
| FontSelect.FontForCellShortcuts | kitty/fonts.c:1252-1270 | blank characters give BLANK_FONT, box characters BOX_FONT, symbol-mapped characters their symbol font, with no change to the table |
| FontSelect.FontForCellStyledOrFallback | kitty/fonts.c:1034-1038 | the emoji-presentation flag is `has_emoji_presentation` (width 2, emoji, no VS15), and the styled font is used iff the cell has no emoji presentation and the font covers it; otherwise a serving fallback |
| FontSelect.FontForCellFallbackBranch | kitty/fonts.c:1289-1297 | a cell with emoji presentation, or one its styled font does not cover, gets `fallback_font`'s answer, flagged as a fallback |
| FontSelect.FallbackKeepsStyles | kitty/fonts.c:1107-1205 | fallback only appends fonts and bumps the fallback count |
| FontSelect.FontForCellIdempotent | kitty/fonts.c:1240-1300 | asking again for the same cell returns the same choice and loads nothing |
| FontSelect.FallbackCellIdempotent | kitty/fonts.c:1185-1300 | once a cell got a fallback font, asking again on the new table returns the same answer |
| FontSelect.HundredAndFirstFallbackLoads | kitty/fonts.c:1109 | with exactly 100 fallbacks a covering face is still registered, as the 101st |
| CellFonts.HasCellText | kitty/fonts.c:1048-1062 | the mark loop answers `CoversCell` |
| CellFonts.InSymbolMaps | kitty/fonts.c:1215-1222 | the map loop answers `SymbolFontFor` |
| CellFonts.FontGroup.constructor | kitty/fonts.c:1240-1300 | the group holds the given font table |
| CellFonts.FontGroup.LoadFallbackFont | kitty/fonts.c:1107-1174 | `load_fallback_font` does what `LoadFallback` says to the group's table |
| CellFonts.FontGroup.FallbackFont | kitty/fonts.c:1185-1205 | `fallback_font` does what `FontSelect.FallbackFont` says |
| CellFonts.FontGroup.FontForCell | kitty/fonts.c:1240-1300 | `font_for_cell` does what `FontSelect.FontForCell` says |
| FontGroups.KeptMembers | kitty/fonts.c:345-375 | a group is kept iff it was in the list and some window uses it |
| FontGroups.KeptAllUsed | kitty/fonts.c:345-375 | when every group is used, trimming changes nothing |
| FontGroups.KeptIdempotent | kitty/fonts.c:359-375 | trimming twice is trimming once |
| FontGroups.KeptSubsequence | kitty/fonts.c:359-375 | the kept groups keep their relative order |
| FontGroups.KeptDistinct | kitty/fonts.c:359-375 | kept groups have distinct ids |
| FontGroups.FirstWithMetrics | kitty/fonts.c:410-433 | the result is the first group of the given size, or there is none |
| FontGroups.GroupFor | kitty/fonts.c:410-433 | the returned group has the requested size |
| FontGroups.GroupForReusesOrAppends | kitty/fonts.c:381-433 | an existing group of that size is returned with nothing changed (the first one); otherwise the unused groups are dropped and a group with a fresh id is appended last |
| FontGroups.GroupForKeepsIdsFresh | kitty/fonts.c:381-433 | ids stay distinct and below the next id |
| FontGroups.GroupForIdempotent | kitty/fonts.c:410-433 | asking again for the same size returns the same group and changes nothing |
| FontGroups.FontGroupList.TrimUnusedFontGroups | kitty/fonts.c:359-375 | the memmove loop leaves exactly `Kept` of the old groups |
| FontGroups.FontGroupList.constructor | kitty/fonts.c:381-398 | a new list is empty with no id issued |
| FontGroups.FontGroupList.FontGroupIsUnused | kitty/fonts.c:345-353 | a group is unused iff no window holds its id |
| FontGroups.FontGroupList.ShiftDown | kitty/fonts.c:366-368 | the memmove drops element i of the first n + 1 and keeps the order of the rest |
| FontGroups.FontGroupList.AddFontGroup | kitty/fonts.c:381-398 | trims when the list is non-empty, then grows by one slot |
| FontGroups.FontGroupList.AppendGroupFor | kitty/fonts.c:381-433 | trimming, adding and initialising leave the kept groups followed by the new group |
| FontGroups.FontGroupList.FontGroupFor | kitty/fonts.c:410-433 | `font_group_for` does what `GroupFor` says |
| Pixels.Blend | kitty/fonts.c:1354-1375 | the blended pixel is opaque white in its top 24 bits and its alpha is the saturating sum |
| Pixels.BlendAccumulates | kitty/fonts.c:1354-1375 | blending twice is blending once with the summed alpha |
| Pixels.AtInjective | kitty/fonts.c:1354-1375 | different pixels of a region are different buffer positions |
| Pixels.ClearedCanvasTakesMask | kitty/fonts.c:1354-1375 | on a cleared canvas each pixel of the destination region becomes `0xffffff00` plus its mask byte |
| Pixels.RenderAlphaMask | kitty/fonts.c:1354-1375 | every pixel of the destination region is blended with its source byte, and every other pixel is unchanged |
| Pixels.PixelBytes | kitty/fonts.c:2984-3031 | every pixel becomes four bytes |
| Pixels.PixelBytesRoundTrip | kitty/fonts.c:2984-3031 | for 32-bit pixels the bytes are big-endian and recombine into the pixel |
| Pixels.CoverageIsAlpha | kitty/fonts.c:2984-3031 | an 8-bit coverage value becomes white (or black when 0) with the coverage as alpha |
| Pixels.StripPlacesCellsSideBySide | kitty/fonts.c:2984-3031 | byte k of pixel i of row r of cell c lands at row r, after c whole cell rows, in the strip |
| Pixels.BufferHoldsStrip | kitty/fonts.c:2984-3031 | the strip has `4 * w * h * num_cells` bytes |
| Pixels.PackRow | kitty/fonts.c:2998-3025 | packing a row appends exactly its bytes |
| Pixels.PackPixel | kitty/fonts.c:3006-3026 | one pixel writes its four bytes at the output position and keeps what was written before |
| Pixels.PackCellsRow | kitty/fonts.c:3003-3028 | one pixel row of every cell, side by side, is appended to the output |
| Pixels.FillStrip | kitty/fonts.c:2984-3031 | the row and cell loops fill the buffer with the strip |
| Pixels.ConcatCells | kitty/fonts.c:2984-3031 | `concat_cells` returns a buffer of the strip's size holding the strip |
| SpriteTexture.UploadWritesOneTile | kitty/shaders.c:231-245 | an upload writes exactly the one cell-sized tile at the slot's pixel position and layer |
| SpriteTexture.Gpu.NewTexture | kitty/shaders.c:141-162 | a new texture name is fresh, non-zero, and holds a blank texture of the given size |
| SpriteTexture.Gpu.constructor | kitty/shaders.c:137-186 | the GPU starts with no texture and no name issued |
| SpriteTexture.Gpu.CopyImage | kitty/shaders.c:87-129 | copying changes only the destination texture |
| SpriteTexture.Gpu.DeleteTexture | kitty/shaders.c:176 | deleting removes just that texture |
| SpriteTexture.Gpu.SubImage | kitty/shaders.c:235-245 | uploading changes only the named texture |
| SpriteTexture.CopiedRows | kitty/shaders.c:168 | the copied row count is at least 1 and at least `last_ynum` |
| SpriteTexture.CoveredSlotInside | kitty/shaders.c:218-245 | when the texture covers the tracker, every slot handed out so far is inside it |
| SpriteTexture.NextReachable | kitty/fonts.c:486-503 | an increment keeps the tracker in the states reachable from a fresh layout |
| SpriteTexture.SentSpriteFits | kitty/shaders.c:212-245 | the tile of a sprite sent after the increment lies inside the texture as it is after the send |
| SpriteTexture.ReallocCovers | kitty/shaders.c:152-185 | a reallocated texture covers the tracker |
| SpriteTexture.FirstSendAllocates | kitty/shaders.c:219-221 | the first send to a new map reallocates and records z + 1 layers and `ynum` rows |
| SpriteTexture.SendKeepsCover | kitty/shaders.c:212-222 | after any send the texture still covers the tracker |
| SpriteTexture.CopyRegionFits | kitty/shaders.c:165-173 | the copied region fits in the new texture |
| SpriteTexture.GlLimits.constructor | kitty/shaders.c:41 | the GL limits start at 0, meaning not yet queried |
| SpriteTexture.SpriteMap.constructor | kitty/shaders.c:59-67 | a new map has `xnum = ynum = 1`, `last_num_of_layers = 1`, `last_ynum = -1` and no texture |
| SpriteTexture.SpriteMap.Regrown | kitty/shaders.c:152-177 | the new texture is `xnum * cell_width` by `ynum * cell_height` with `z + 1` layers |
| SpriteTexture.SpriteMap.Realloc | kitty/shaders.c:137-186 | the old texture (if any) is replaced by a fresh one holding `Regrown`, and `last_num_of_layers = z + 1`, `last_ynum = ynum` |
| SpriteTexture.SpriteMap.Send | kitty/shaders.c:212-246 | the texture is regrown iff `z >= last_num_of_layers` or `z == 0 && ynum > last_ynum`, and then the tile is uploaded at `(x * cell_width, y * cell_height, z)` |
| SpriteTexture.AllocSpriteMap | kitty/shaders.c:44-69 | the GL limits (capped on Apple) are queried and passed to the tracker only the first time; the map starts as `NEW_SPRITE_MAP` with those limits and the cell size |
| CursorUniform.FocusedSprite | kitty/shaders.c:450-470 | beam gives 6, underline 7, block (and no shape) 0 |
| CursorUniform.Fields | kitty/shaders.c:450-486 | a visible cursor is at the screen cursor, an invisible one at (columns, lines) with the old sprite; unfocused gives 8; `cursor_w` is `cursor_x + 1` iff block or underline over a character wider than 1 |
| CursorUniform.WideCursorSpansTwoCells | kitty/shaders.c:475-486 | a focused visible cursor over a wide character spans two cells iff it is not a beam |
| CursorUniform.UnfocusedCursorIsOneCell | kitty/shaders.c:460-486 | an unfocused visible cursor uses sprite 8 and spans one cell |
| CursorUniform.CellRenderData.UpdateCursor | kitty/shaders.c:450-486 | the uniform block's cursor fields become `Fields` of the cursor |
| DataTypes.StyleRoundTrip | kitty/data-types.h:159-166 | unpacking packed attributes recovers `decoration & 3`, bold, italic, reverse, strikethrough and dim, and the width when it is at most 3 |
| DataTypes.WideWidthCorruptsDecoration | kitty/data-types.h:159-162 | a width of 4, or-ed in unmasked, reads back as decoration 1 |
| DataTypes.BiValIsBoldItalic | kitty/data-types.h:122-124 | `BI_VAL` is bold + 2 * italic |
| DataTypes.Cursor.ApplyAttrs | kitty/data-types.h:164-166 | the cursor's style fields become the unpacked attributes, which pack back to the low 9 bits |
| DataTypes.Cursor.constructor | kitty/data-types.h:164-166 | a new cursor holds the given style |
| DataTypes.AttrsRoundTrip | kitty/data-types.h:159-166 | packing the unpacked style with the width bits gives back the low 9 bits |
| DataTypes.ClearSpritePosition | kitty/data-types.h:441-444 | the sprite coordinates become 0 and nothing else changes |
| DataTypes.ShiftedLeft | kitty/data-types.h:446-449 | cell k takes cell k + num's value for `at <= k < xnum - num`, every other cell is kept |
| DataTypes.Line.LeftShift | kitty/data-types.h:446-455 | the line is shifted left; if cell `at` then has width other than 1 it is blanked (character 0, which `CHAR_IS_BLANK` accepts, attrs 0, sprite cleared) |
| DataTypes.GrownCapacity | kitty/data-types.h:457-467 | the capacity is unchanged when it suffices, and otherwise becomes `max(initial_cap, 2 * old, num)` |
| DataTypes.Vector.EnsureSpaceFor | kitty/data-types.h:457-467 | the array is grown to `GrownCapacity`, old elements are kept, and the new tail is zeroed when asked |
| DataTypes.RemovedAt | kitty/data-types.h:469-475 | the elements after i move left by one and the others stay |
| DataTypes.RemoveAt | kitty/data-types.h:469-475 | the count drops by one and the array becomes `RemovedAt` |
| DataTypes.RemovedAtDropsOne | kitty/data-types.h:469-475 | the first count - 1 elements are the old ones with element i removed |
| CoreTextFonts.DropSpaces | kitty/fonts/core_text.py:51 | skipping whitespace leaves a suffix starting with a non-space |
| CoreTextFonts.CollapseIsCollapsed | kitty/fonts/core_text.py:51 | after collapsing there are no two consecutive spaces and no other whitespace |
| CoreTextFonts.CollapseIdempotent | kitty/fonts/core_text.py:51 | collapsing twice is collapsing once |
| CoreTextFonts.CollapseChars | kitty/fonts/core_text.py:51 | every character of the result is a space or a character of the input |
| CoreTextFonts.NormalizeIdempotent | kitty/fonts/core_text.py:51 | normalising a family name twice is normalising it once |
| CoreTextFonts.Append | kitty/fonts/core_text.py:26-28 | `setdefault(k, []).append(v)` adds k to the keys and nothing else |
| CoreTextFonts.CreateFontMap | kitty/fonts/core_text.py:20-29 | the loop builds `BuildMap` of the fonts |
| CoreTextFonts.IndexedIsBuckets | kitty/fonts/core_text.py:20-29 | a key is present iff some font files under it, and its list is those fonts in input order |
| CoreTextFonts.BucketMembers | kitty/fonts/core_text.py:20-29 | a font is in a key's list iff it is one of the fonts and files under that key |
| CoreTextFonts.EveryFontIsFiled | kitty/fonts/core_text.py:20-29 | every font is filed under its own key in each map |
| CoreTextFonts.MissingNamesAreEmpty | kitty/fonts/core_text.py:23-28 | a font with no names is filed under "" and " " |
| CoreTextFonts.Rank | kitty/fonts/core_text.py:56-59 | the score ranks are 0 to 3 |
| CoreTextFonts.RankOrdersScores | kitty/fonts/core_text.py:56-59 | the rank orders candidates exactly as the (style_match, monospace_match) tuple does |
| CoreTextFonts.SortIsStable | kitty/fonts/core_text.py:65 | the sort keeps the order of candidates of equal score |
| CoreTextFonts.SortIsPermutation | kitty/fonts/core_text.py:65 | the sort is a permutation |
| CoreTextFonts.SortIsOrdered | kitty/fonts/core_text.py:65 | the sorted candidates are in ascending score |
| CoreTextFonts.TopRankIsMaximal | kitty/fonts/core_text.py:56-66 | the top rank is held by some candidate and no candidate exceeds it |
| CoreTextFonts.BestIsLastOfTop | kitty/fonts/core_text.py:65-66 | the best match is the last candidate of the top score |
| CoreTextFonts.BestIsLastMaximal | kitty/fonts/core_text.py:65-66 | the best match has the maximal score and no later candidate has as high a score |
| CoreTextFonts.BestMatchChoice | kitty/fonts/core_text.py:49-78 | ps_map is tried first, then full_map, each returning a maximal candidate; otherwise a requested face with monospace and the requested bold/italic, for the family if family_map has it and Menlo otherwise |
| CoreTextFonts.BestMatchOnlyReorders | kitty/fonts/core_text.py:62-66 | the in-place sort only reorders the cached candidate lists |
| CoreTextFonts.ResolveFamily | kitty/fonts/core_text.py:87-92 | the resolved name is never "monospace" in any case |
| CoreTextFonts.ResolveFamilyCases | kitty/fonts/core_text.py:87-92 | 'auto' becomes the main family only for bold or italic, 'monospace' in any case becomes Menlo, every other name is kept |
| CoreTextFonts.ResolveIgnoresMainFamily | kitty/fonts/core_text.py:87-92 | for regular style the main family plays no part |
| CoreTextFonts.AttrKeysDistinct | kitty/fonts/core_text.py:101-104 | the four style keys are distinct |
| CoreTextFonts.ReorderedChoice | kitty/fonts/core_text.py:62-78 | a lookup in a map whose lists were resorted by earlier lookups still returns a maximal PostScript candidate of the original lists, else a maximal full-name candidate, else the requested family or Menlo |
| CoreTextFonts.FacesForReorders | kitty/fonts/core_text.py:98-106 | the lookups of `get_font_files` only reorder the cached candidate lists |
| CoreTextFonts.FontFilesChoice | kitty/fonts/core_text.py:98-106 | each of the four faces is the best-ranked PostScript candidate of its normalised resolved family in the map the call started from, else the best-ranked full-name candidate, else a request for that family or for Menlo |
| CoreTextFonts.FontCatalog.constructor | kitty/fonts/core_text.py:32-37 | no map is cached and no medium family recorded |
| CoreTextFonts.FontCatalog.AllFontsMap | kitty/fonts/core_text.py:32-37 | the map is built once from all fonts and returned from the cache afterwards |
| CoreTextFonts.FontCatalog.FindBestMatch | kitty/fonts/core_text.py:49-78 | returns `BestMatch` on the cached map, stores the resorted map, and the face echoes the requested style |
| CoreTextFonts.FontCatalog.GetFontFiles | kitty/fonts/core_text.py:96-108 | the answer has exactly the keys medium, bold, italic and bi; the face under each is the one the four lookups of `attr_map` find in turn, each the best match of its resolved family in its style on the map the previous lookups left; the cache holds the map the last lookup left, each face echoes its style, and the medium family is recorded |
| CoreTextFonts.FontCatalog.FaceOf | kitty/fonts/core_text.py:98-106 | one iteration finds the best match of the resolved family in its style on the cached map, caches the resorted map, the face echoes its style, and the family is recorded only for medium |
| CoreTextFonts.FontCatalog.FontForFamily | kitty/fonts/core_text.py:111-113 | the face is the best match of the resolved family in regular style, returned with its bold and italic flags |

## Left out

- SpriteCache.Locate, SpriteCache.SpriteMap.PositionFor: model the intended allocator, which refuses once the layer reaches the cap and does not report an error with the last valid slot; the code's behaviour is `SpriteCache.LocateAsWritten` and `SpriteCache.SpriteMap.PositionForAsWritten` (see "## Findings").
- Render.LocateAll, Render.RenderGroupSpec, Render.RenderGroup, Render.RenderAll, Render.RenderGroups: are built on the intended allocator; with the code's lookup (`RenderFindings.LocateAllAsWritten`) a group is abandoned on the last valid slot and rendered into layer `cap`.
- SpriteTracker.Tracker.Increment, SpriteCache.SpriteMap.PositionFor, Render.RenderGroup: take the layer cap as a parameter `cap`, which stands for `SpriteTracker.Limits.LayerCap()` of the process-wide limits.
- SpecialCache.SpecialGlyphCache.CacheFor, SpecialCache.SpecialGlyphCache.IsSpecialGlyph, SpecialCache.SpecialGlyphCache.IsEmptyGlyph, SpecialCache.SpecialGlyphCache.Record: use the corrected free-node test (a node is free when neither bit is known), not the code's `glyph == 0` test; the code's walk is `SpecialCache.WalkAsWritten`/`SpecialCache.QueryAsWritten`.
- GroupStates.GroupState.ShapeRun, GroupStates.GroupState.FileConsumedCells: move an overflowing glyph to a group starting at the glyph's first cell, not at the already-advanced `cell_idx` of the code; the code's move is `Grouping.ShapeRunAsWritten` (`Grouping.AfterConsume` with `asWritten`).
- HbBuffer.LoadHbBuffer, HbBuffer.FillChunk: skip the trailing half of a wide cell across chunk boundaries; the code resets the previous width at each chunk, which is `HbBuffer.FillAsWritten`.
- CoreTextFonts.Lower: folds only 'A' to 'Z'; Python's `str.lower()` folds all of Unicode, so names such as "ÉCOLE" and "école" share a key in the program but not in the model. This carries into `CoreTextFonts.Key`, `CoreTextFonts.BuildMap`, `CoreTextFonts.CreateFontMap` and `CoreTextFonts.BestMatch`.
- FontGroups.GroupFor, FontGroups.FirstWithMetrics, FontGroups.FontGroupList.FontGroupFor: a group's size (`Metrics`: point size and the two DPIs) is made of integers, whereas the code compares C doubles with `==`; NaN and negative zero are not modelled.
- Pixels.RenderAlphaMask, Pixels.ConcatCells: masks and pixels are `nat`; the `uint8` and `uint32` ranges are not enforced by the types (the lemmas that need them, `Pixels.ClearedCanvasTakesMask` and `Pixels.PixelBytesRoundTrip`, require them).
- Grouping.CellAt: a read past the end of the run returns a blank cell of width 1, whereas the code reads the memory past the run's last cell; the model does not say what is there.
- Grouping.Classify, Grouping.ShapeRun, Grouping.ShapeRunAsWritten: classify glyphs through the corrected special-glyph cache (`SpecialCache.Query`), so `ShapeRunAsWritten` carries the code's group move but not the code's `glyph == 0` free-node test; that test is modelled on its own by `SpecialCache.QueryAsWritten`.
- Grouping.ShapeRun: the glyph stream is an input (HarfBuzz shaping, `shape` at kitty/fonts.c:1811-1862, is not part of this model), and so are the face queries `glyph_id_for_codepoint` and `is_glyph_empty`.
- FontSelect.FontForCell, FontSelect.LoadFallback: `face_has_codepoint`, `is_emoji`, `create_fallback_face` and the face's bold/italic/emoji flags are parameters of a `Backend` record; VS15, VS16 and `codepoint_for_mark` (unicode-data.h is not part of this model) are a `Marks` record.
- Render.RenderGroupSpec: `render_glyphs_in_cells`, `clear_canvas`, `extract_cell_from_canvas` and the upload are one parameter `rasterise` that returns the colored flag; `is_emoji` is a parameter.
- SpriteTexture.Gpu: OpenGL is an abstract store of 3-D textures by name; filtering and wrap parameters, unit binding and `ensure_sprite_map` (kitty/shaders.c:189-200, which only reallocates when there is no texture yet) are not modelled.
- CursorUniform.Fields: the cursor colours, opacity and the rest of `cell_update_uniform_block` (kitty/shaders.c:405-537) are not modelled.
- CoreTextFonts.FontCatalog.FontForFamily: requires that `get_font_files` has run (`mediumFamily.Some?`); called before it, the code raises AttributeError on `get_font_files.medium_family` (kitty/fonts/core_text.py:112), and the model does not model that exception.
- CoreTextFonts.FontCatalog: `coretext_all_fonts` is a parameter, `log_error` is dropped and `list_fonts` is not modelled.
- SpriteCache.SpriteMap, SpecialCache.SpecialGlyphCache: the overflow chains are sequences per bucket rather than linked nodes; their memory layout and `calloc` failure are not modelled.
- SpriteCache.BucketOf, SpecialCache.BucketOf: glyph ids are unbounded naturals, whereas `glyph_index` is a fixed-width C integer (its declaration, in fonts.h, is not part of this model); the bucket index `glyph & 1023` is written as `glyph % 1024`, which agrees with it on every natural.
- Out-of-memory `fatal` paths, Python error reporting (`sprite_map_set_error`, `PyErr_Print`) and debug output are not modelled.

## Findings

| source | as written | input that shows it | evidently intended | confidence | as-written member | corrected member |
|---|---|---|---|---|---|---|
| kitty/fonts.c:2141 | `group_state_move_glyph_to_next_group` starts the new group at `cell_idx`, which the consume loop has already advanced past the glyph's cells | a run of 12 narrow cells whose first glyph takes 6 cells and whose second glyph (special) takes 5, overflowing the 9-cell cap: the moved group starts at cell 11, leaving cells 6-10 in no group | the moved group starts at the glyph's first cell (`start_cell_idx`), so groups tile the run | not executed | GroupingFindings.AsWrittenMovedGroupSkipsCells | GroupingFindings.CorrectedMoveTilesExample |
| kitty/fonts.c:486-503 | `do_increment` sets error 2 on the call that moves `z` to the cap; that call has already handed out the last valid slot, and later calls hand out slots in layer `cap` with no error | a 2 x 1 atlas with a cap of 1 layer: the 2nd allocation returns slot (1, 0, 0) with error 2, the 3rd returns (0, 0, 1) without error | every slot below the cap is handed out without error, and no slot at or above the cap is handed out | not executed | SpriteTracker.AsWrittenHandsOutSlotBeyondCap | SpriteTracker.AllocateCapacity |
| kitty/fonts.c:538-597 | `sprite_position_for` always fills the new node with the tracker's current slot and reports `do_increment`'s error; `render_group` (kitty/fonts.c:1562-1568) then abandons the group whose lookup got the last valid slot, and renders later groups into layer `cap` | the same atlas at slot (1, 0, 0): the glyph's node is filled and the group is abandoned; at (0, 0, 1): the node is filled with layer 1 and rendered | the lookup returns the last valid slot without error and refuses beyond the cap, leaving the table unchanged | not executed | RenderFindings.AsWrittenAbandonsGroupOnLastSlot | SpriteCache.LocateEffect |
| kitty/fonts.c:608-640 | `special_glyph_cache_for` takes a node with glyph 0 as free, although glyph 0 is a real glyph whose node carries classification bits | classify glyph 0, then glyph 1024 (same bucket) as special, then query 1024 for emptiness (which takes over glyph 0's node), then query 1024 as special: the answer is false | a node is free only when it holds no classification, so each glyph keeps its own node | not executed | SpecialCache.AsWrittenForgetsSpecial | SpecialCache.CorrectedRemembersSpecial |
| kitty/fonts.c:1452 | `load_hb_buffer` resets the previous cell's width at the start of every chunk | a run of 4073 narrow cells followed by a wide cell and its trailing half: the first chunk closes after the wide cell at 4074 codepoints, and the second chunk starts with the trailing half, which is sent, giving 4075 codepoints | the trailing half of a wide cell is never sent, whatever the chunking | not executed | HbBufferFindings.AsWrittenSendsTrailingHalf | HbBuffer.FillIsFlattened |
