/**
 * The rendering side of the group builder in kitty/fonts.c: render_groups
 * turns every finished group into a request (first glyph, the packed
 * ExtraGlyphs, cells), and render_group looks up one sprite per cell of the
 * group in the font's sprite map, marks the sprites rendered and coloured
 * the first time, and writes the sprite coordinates into the GPU cells
 * (set_cell_sprite). The rasteriser and the upload to the GPU are not part
 * of this model: what the rasteriser leaves in was_colored is a parameter.
 */
module Render {
  import opened Common
  import opened DataTypes
  import opened SpriteTracker
  import opened SpriteCache
  import opened Grouping

  /** The length of render_group's static sprite_position array: at most 16 cells of a group get sprites. */
  const MAX_SPRITES_PER_GROUP: nat := 16

  /** The bit set_cell_sprite ORs into sprite_z for a coloured sprite (bit 14). */
  const COLORED_SPRITE_BIT: nat := 0x4000

  // ---------------------------------------------------------------------
  // set_cell_sprite

  /** sprite_z of a cell: the 16-bit layer index, ORed with bit 14 when the sprite is coloured. */
  function SpriteZ(z: nat, colored: bool): nat
  {
    var z16 := z % 0x10000;
    if colored && (z16 / COLORED_SPRITE_BIT) % 2 == 0 then z16 + COLORED_SPRITE_BIT else z16
  }

  /** The colour bit lies above every layer index the atlas can hold (layers stop at 0xfff): z and the flag decode back. */
  lemma SpriteZDecodes(z: nat, colored: bool)
    requires z < COLORED_SPRITE_BIT
    ensures SpriteZ(z, colored) % COLORED_SPRITE_BIT == z
    ensures SpriteZ(z, colored) >= COLORED_SPRITE_BIT <==> colored
  {
  }

  /** Two sprites of the atlas give different sprite_z values unless they share layer and colour. */
  lemma SpriteZInjective(z1: nat, c1: bool, z2: nat, c2: bool)
    requires z1 < COLORED_SPRITE_BIT && z2 < COLORED_SPRITE_BIT
    requires SpriteZ(z1, c1) == SpriteZ(z2, c2)
    ensures z1 == z2 && c1 == c2
  {
    SpriteZDecodes(z1, c1);
    SpriteZDecodes(z2, c2);
  }

  /** set_cell_sprite: copy the sprite's coordinates into the cell; nothing else of the cell changes. */
  function SetCellSprite(c: GPUCell, sp: SpritePosition): (r: GPUCell)
    ensures r.(spriteX := c.spriteX, spriteY := c.spriteY, spriteZ := c.spriteZ) == c
    ensures sp.z < COLORED_SPRITE_BIT ==> r.spriteZ % COLORED_SPRITE_BIT == sp.z && (r.spriteZ >= COLORED_SPRITE_BIT <==> sp.colored)
  {
    c.(spriteX := sp.x, spriteY := sp.y, spriteZ := SpriteZ(sp.z, sp.colored))
  }

  // ---------------------------------------------------------------------
  // ExtraGlyphs packing in render_groups

  /** How many glyphs after the first render_groups copies: at most the 8 ExtraGlyphs holds. */
  function ExtraCount(g: Group): nat
  {
    if g.numGlyphs == 0 then 0 else Min(g.numGlyphs, MAX_GLYPHS_IN_GROUP) - 1
  }

  /** The glyph ids of a stretch of the shaped glyphs. */
  function GlyphIds(s: seq<GlyphInfo>): (r: seq<nat>)
    ensures |r| == |s| && forall j :: 0 <= j < |s| ==> r[j] == s[j].glyph
  {
    if s == [] then [] else [s[0].glyph] + GlyphIds(s[1..])
  }

  /** The group's glyphs after its first one, as many as ExtraGlyphs holds. */
  function OtherGlyphs(glyphs: seq<GlyphInfo>, g: Group): (o: seq<nat>)
    requires g.firstGlyph + g.numGlyphs <= |glyphs|
    ensures |o| <= MAX_EXTRA_GLYPHS
  {
    if ExtraCount(g) == 0 then [] else GlyphIds(glyphs[g.firstGlyph + 1 .. g.firstGlyph + 1 + ExtraCount(g)])
  }

  /**
   * The ExtraGlyphs render_groups builds on its stack: the other glyphs,
   * then a 0 when there is room, then whatever the uninitialised entries
   * held (junk).
   */
  function Packed(o: seq<nat>, junk: ExtraGlyphs): ExtraGlyphs
    requires |o| <= MAX_EXTRA_GLYPHS
  {
    seq(MAX_EXTRA_GLYPHS, j requires 0 <= j < MAX_EXTRA_GLYPHS => if j < |o| then o[j] else if j == |o| then 0 else junk[j])
  }

  /** The part of the packed glyphs the sprite cache compares: the other glyphs, cut after their first 0 or the terminator. */
  function PackedKey(o: seq<nat>): seq<nat>
    requires |o| <= MAX_EXTRA_GLYPHS
  {
    var t := if |o| < MAX_EXTRA_GLYPHS then o + [0] else o;
    t[..Min(FirstZero(t, 0) + 1, |t|)]
  }

  /** Within a common prefix that holds a 0, two sequences have the same first 0. */
  lemma {:induction false} FirstZeroOfPrefix(s: seq<nat>, t: seq<nat>, i: nat)
    requires i <= |t| <= |s| && s[..|t|] == t && FirstZero(t, i) < |t|
    ensures FirstZero(s, i) == FirstZero(t, i)
    decreases |t| - i
  {
    assert s[i] == t[i];
    if t[i] != 0 {
      FirstZeroOfPrefix(s, t, i + 1);
    }
  }

  /** The sprite-cache key of the packed glyphs depends on the group's glyphs only. */
  lemma PackedKeyIsSignificant(o: seq<nat>, junk: ExtraGlyphs)
    requires |o| <= MAX_EXTRA_GLYPHS
    ensures Significant(Packed(o, junk)) == PackedKey(o)
  {
    var ed := Packed(o, junk);
    var t := if |o| < MAX_EXTRA_GLYPHS then o + [0] else o;
    assert ed[..|t|] == t;
    var k := FirstZero(t, 0);
    if k < |t| {
      FirstZeroOfPrefix(ed, t, 0);
      assert ed[..k + 1] == t[..k + 1];
    } else {
      assert t[|t| - 1] != 0;
      assert |o| == MAX_EXTRA_GLYPHS && ed == t;
    }
  }

  /** Whatever the uninitialised entries held, the same group gets the same sprites. */
  lemma PackIgnoresJunk(o: seq<nat>, junk1: ExtraGlyphs, junk2: ExtraGlyphs)
    requires |o| <= MAX_EXTRA_GLYPHS
    ensures ExtraGlyphsEqual(Packed(o, junk1), Packed(o, junk2))
  {
    PackedKeyIsSignificant(o, junk1);
    PackedKeyIsSignificant(o, junk2);
    assert ExtraGlyphsEqual(Packed(o, junk1), Packed(o, junk2)) <==> Significant(Packed(o, junk1)) == Significant(Packed(o, junk2));
  }

  /** The loop of render_groups that fills ExtraGlyphs for one group. */
  method PackExtraGlyphs(glyphs: seq<GlyphInfo>, g: Group, junk: ExtraGlyphs) returns (ed: ExtraGlyphs)
    requires g.firstGlyph + g.numGlyphs <= |glyphs|
    ensures ed == Packed(OtherGlyphs(glyphs, g), junk)
  {
    ghost var o := OtherGlyphs(glyphs, g);
    ed := junk;
    var last: int := -1;
    var j := 1;
    while j < Min(MAX_EXTRA_GLYPHS + 1, g.numGlyphs)
      invariant 1 <= j <= Max(1, Min(MAX_EXTRA_GLYPHS + 1, g.numGlyphs)) && last == j - 2
      invariant forall k :: 0 <= k < j - 1 ==> ed[k] == o[k]
      invariant forall k :: j - 1 <= k < MAX_EXTRA_GLYPHS ==> ed[k] == junk[k]
    {
      last := j - 1;
      ed := ed[last := glyphs[g.firstGlyph + j].glyph];
      j := j + 1;
    }
    if last + 1 < MAX_EXTRA_GLYPHS {
      ed := ed[last + 1 := 0];
    }
  }

  // ---------------------------------------------------------------------
  // The requests render_groups makes

  /** The arguments render_groups passes to render_group for one group. */
  datatype Request = Request(firstCell: nat, numCells: nat, numGlyphs: nat, glyph: nat, extra: ExtraGlyphs)

  /** Every group's glyphs lie in the shaped glyph stream (what shape_run guarantees). */
  predicate GlyphsInRange(gs: seq<Group>, glyphs: seq<GlyphInfo>)
  {
    forall i :: 0 <= i < |gs| ==> gs[i].firstGlyph + gs[i].numGlyphs <= |glyphs|
  }

  /** The request for one group: its first glyph (0 for a group without glyphs), one glyph for a space ligature. */
  function RequestFor(g: Group, glyphs: seq<GlyphInfo>, junk: ExtraGlyphs): Request
    requires g.firstGlyph + g.numGlyphs <= |glyphs|
  {
    Request(g.firstCell, g.numCells, if g.isSpaceLigature then 1 else g.numGlyphs,
            if g.numGlyphs != 0 then glyphs[g.firstGlyph].glyph else 0,
            Packed(OtherGlyphs(glyphs, g), junk))
  }

  /** render_groups' walk: one request per group, stopping at the first group without cells. */
  function Requests(gs: seq<Group>, glyphs: seq<GlyphInfo>, junk: ExtraGlyphs): (r: seq<Request>)
    requires GlyphsInRange(gs, glyphs)
    ensures |r| <= |gs|
    ensures forall i :: 0 <= i < |r| ==> gs[i].numCells > 0 && r[i] == RequestFor(gs[i], glyphs, junk)
    ensures |r| < |gs| ==> gs[|r|].numCells == 0
  {
    if |gs| == 0 || gs[0].numCells == 0 then []
    else [RequestFor(gs[0], glyphs, junk)] + Requests(gs[1..], glyphs, junk)
  }

  // ---------------------------------------------------------------------
  // render_group on values

  /** The result of looking up the sprites of one group: the new table and tracker, the node indices found, error 2. */
  datatype Located = Located(buckets: seq<seq<SpritePosition>>, layout: Layout, nodes: seq<nat>, failed: bool)

  /** sprite_position_for for the ligature indices i..n-1 of one glyph, stopping at the first error. */
  function LocateAll(bs: seq<seq<SpritePosition>>, l: Layout, cap: nat, glyph: nat, extra: ExtraGlyphs, i: nat, n: nat): (r: Located)
    requires |bs| == CACHE_SIZE && ValidLayout(l) && i <= n
    ensures |r.buckets| == CACHE_SIZE && ValidLayout(r.layout)
    ensures |r.nodes| <= n - i && (!r.failed ==> |r.nodes| == n - i)
    decreases n - i
  {
    if i == n then Located(bs, l, [], false)
    else
      var lk := Locate(bs, l, cap, Key(glyph, extra, i));
      if lk.found.None? then Located(lk.buckets, lk.layout, [], true)
      else
        var rest := LocateAll(lk.buckets, lk.layout, cap, glyph, extra, i + 1, n);
        Located(rest.buckets, rest.layout, [lk.found.value] + rest.nodes, rest.failed)
  }

  /** Node k of the list is a filled node of the chain holding ligature index i + k of the glyph. */
  ghost predicate NodesHoldKeys(chain: seq<SpritePosition>, glyph: nat, extra: ExtraGlyphs, nodes: seq<nat>, i: nat)
  {
    forall k :: 0 <= k < |nodes| ==>
      nodes[k] < |chain| && chain[nodes[k]].filled && Matches(chain[nodes[k]], Key(glyph, extra, i + k))
  }

  /** A lookup series only grows chains and never rewrites a filled node. */
  lemma {:induction false} LocateAllGrows(bs: seq<seq<SpritePosition>>, l: Layout, cap: nat, glyph: nat,
                                          extra: ExtraGlyphs, i: nat, n: nat)
    requires |bs| == CACHE_SIZE && ValidLayout(l) && i <= n
    ensures var r := LocateAll(bs, l, cap, glyph, extra, i, n);
      && (forall c :: 0 <= c < CACHE_SIZE ==> |r.buckets[c]| >= |bs[c]|)
      && (forall c, k :: 0 <= c < CACHE_SIZE && 0 <= k < |bs[c]| && bs[c][k].filled ==> r.buckets[c][k] == bs[c][k])
    decreases n - i
  {
    if i < n {
      var lk := Locate(bs, l, cap, Key(glyph, extra, i));
      LocateGrows(bs, l, cap, Key(glyph, extra, i));
      LocateAllStep(bs, l, cap, glyph, extra, i, n);
      if lk.found.Some? {
        LocateAllGrows(lk.buckets, lk.layout, cap, glyph, extra, i + 1, n);
      }
    }
  }

  /** The k-th node a lookup series returns is a filled node holding ligature index i + k. */
  lemma {:induction false} LocateAllFinds(bs: seq<seq<SpritePosition>>, l: Layout, cap: nat, glyph: nat,
                                          extra: ExtraGlyphs, i: nat, n: nat)
    requires |bs| == CACHE_SIZE && ValidLayout(l) && i <= n
    ensures var r := LocateAll(bs, l, cap, glyph, extra, i, n);
      NodesHoldKeys(r.buckets[BucketOf(glyph)], glyph, extra, r.nodes, i)
    decreases n - i
  {
    if i < n {
      var lk := Locate(bs, l, cap, Key(glyph, extra, i));
      LocateAllStep(bs, l, cap, glyph, extra, i, n);
      if lk.found.Some? {
        var b := BucketOf(glyph);
        var idx := lk.found.value;
        LocateGrows(bs, l, cap, Key(glyph, extra, i));
        LocateAllGrows(lk.buckets, lk.layout, cap, glyph, extra, i + 1, n);
        LocateAllFinds(lk.buckets, lk.layout, cap, glyph, extra, i + 1, n);
        var rest := LocateAll(lk.buckets, lk.layout, cap, glyph, extra, i + 1, n);
        assert rest.buckets[b][idx] == lk.buckets[b][idx];
        var nodes := [idx] + rest.nodes;
        forall k | 0 <= k < |nodes|
          ensures nodes[k] < |rest.buckets[b]| && rest.buckets[b][nodes[k]].filled
                  && Matches(rest.buckets[b][nodes[k]], Key(glyph, extra, i + k))
        {
          if k > 0 {
            assert nodes[k] == rest.nodes[k - 1];
          }
        }
      }
    }
  }

  /**
   * The part of LocateAllFinds most callers need: chains only grow, and the
   * k-th node returned is a filled node of the glyph's bucket holding ligature index i + k.
   */
  lemma LocateAllNodes(bs: seq<seq<SpritePosition>>, l: Layout, cap: nat, glyph: nat,
                       extra: ExtraGlyphs, i: nat, n: nat)
    requires |bs| == CACHE_SIZE && ValidLayout(l) && i <= n
    ensures var r := LocateAll(bs, l, cap, glyph, extra, i, n);
      && (forall c :: 0 <= c < CACHE_SIZE ==> |r.buckets[c]| >= |bs[c]|)
      && NodesHoldKeys(r.buckets[BucketOf(glyph)], glyph, extra, r.nodes, i)
  {
    LocateAllGrows(bs, l, cap, glyph, extra, i, n);
    LocateAllFinds(bs, l, cap, glyph, extra, i, n);
  }

  /** A sprite after render_group has rendered it, or unchanged on the path that finds it rendered already. */
  function Marked(n: SpritePosition, mark: bool, colored: bool): SpritePosition
  {
    if mark then n.(rendered := true, colored := colored) else n
  }

  datatype Applied = Applied(chain: seq<SpritePosition>, cells: seq<GPUCell>)

  /**
   * The last loop of render_group from index i: mark sprite i rendered and
   * coloured (when mark), then copy it into cell first + i.
   */
  function Apply(chain: seq<SpritePosition>, cells: seq<GPUCell>, first: nat, nodes: seq<nat>,
                 mark: bool, colored: bool, i: nat): (r: Applied)
    requires i <= |nodes| && first + |nodes| <= |cells|
    requires forall j :: i <= j < |nodes| ==> nodes[j] < |chain|
    ensures |r.chain| == |chain| && |r.cells| == |cells|
    decreases |nodes| - i
  {
    if i == |nodes| then Applied(chain, cells)
    else
      var chain1 := chain[nodes[i] := Marked(chain[nodes[i]], mark, colored)];
      var cells1 := cells[first + i := SetCellSprite(cells[first + i], chain1[nodes[i]])];
      Apply(chain1, cells1, first, nodes, mark, colored, i + 1)
  }

  /** The sprites named by nodes[i..] are marked (when mark); no other sprite changes. */
  lemma {:induction false} ApplyMarks(chain: seq<SpritePosition>, cells: seq<GPUCell>, first: nat, nodes: seq<nat>,
                                      mark: bool, colored: bool, i: nat)
    requires i <= |nodes| && first + |nodes| <= |cells|
    requires forall j :: i <= j < |nodes| ==> nodes[j] < |chain|
    ensures var r := Apply(chain, cells, first, nodes, mark, colored, i);
      forall k :: 0 <= k < |chain| ==> r.chain[k] == if k in nodes[i..] then Marked(chain[k], mark, colored) else chain[k]
    decreases |nodes| - i
  {
    if i < |nodes| {
      var chain1 := chain[nodes[i] := Marked(chain[nodes[i]], mark, colored)];
      var cells1 := cells[first + i := SetCellSprite(cells[first + i], chain1[nodes[i]])];
      ApplyMarks(chain1, cells1, first, nodes, mark, colored, i + 1);
      assert nodes[i..] == [nodes[i]] + nodes[i + 1..];
    }
  }

  /** Cell first + j gets sprite nodes[j] as marked; the cells outside the group are untouched. */
  lemma {:induction false} ApplySetsCells(chain: seq<SpritePosition>, cells: seq<GPUCell>, first: nat, nodes: seq<nat>,
                                          mark: bool, colored: bool, i: nat)
    requires i <= |nodes| && first + |nodes| <= |cells|
    requires forall j :: i <= j < |nodes| ==> nodes[j] < |chain|
    ensures var r := Apply(chain, cells, first, nodes, mark, colored, i);
      && (forall j :: i <= j < |nodes| ==>
            r.cells[first + j] == SetCellSprite(cells[first + j], Marked(chain[nodes[j]], mark, colored)))
      && (forall k :: 0 <= k < |cells| && !(first + i <= k < first + |nodes|) ==> r.cells[k] == cells[k])
    decreases |nodes| - i
  {
    if i < |nodes| {
      var chain1 := chain[nodes[i] := Marked(chain[nodes[i]], mark, colored)];
      var cells1 := cells[first + i := SetCellSprite(cells[first + i], chain1[nodes[i]])];
      ApplySetsCells(chain1, cells1, first, nodes, mark, colored, i + 1);
      forall j | i < j < |nodes|
        ensures Marked(chain1[nodes[j]], mark, colored) == Marked(chain[nodes[j]], mark, colored)
      {
      }
    }
  }

  /** The state render_group works on: one font's sprite map, the tracker, and the GPU cells of the line. */
  datatype Frame = Frame(buckets: seq<seq<SpritePosition>>, layout: Layout, cells: seq<GPUCell>)

  /** The cells of a request that get sprites: at most 16. */
  function SpriteCount(req: Request): nat
  {
    Min(MAX_SPRITES_PER_GROUP, req.numCells)
  }

  /** What render_group needs of its state: a sprite map, a valid tracker, and the group's cells inside the line. */
  predicate Fits(f: Frame, cpu: seq<CPUCell>, req: Request)
  {
    |f.buckets| == CACHE_SIZE && ValidLayout(f.layout) && req.numCells >= 1
    && req.firstCell + SpriteCount(req) <= |f.cells| && req.firstCell < |cpu|
  }

  /** The guess render_group hands the rasteriser: a double-width cell holding an emoji. */
  function InitialColored(f: Frame, cpu: seq<CPUCell>, req: Request, isEmoji: nat -> bool): bool
    requires Fits(f, cpu, req)
  {
    Width(f.cells[req.firstCell].attrs) == 2 && isEmoji(cpu[req.firstCell].ch)
  }

  /**
   * render_group: look up one sprite per cell (ligature index = cell), give
   * up on an error; if the first sprite is rendered already only copy the
   * sprites into the cells, otherwise mark them all rendered with the
   * colour the rasteriser reports and copy them. The Boolean is the error.
   */
  function RenderGroupSpec(f: Frame, cpu: seq<CPUCell>, cap: nat, req: Request,
                           isEmoji: nat -> bool, rasterise: (Request, bool) -> bool): (r: (Frame, bool))
    requires Fits(f, cpu, req)
    ensures |r.0.buckets| == CACHE_SIZE && ValidLayout(r.0.layout) && |r.0.cells| == |f.cells|
  {
    var loc := LocateAll(f.buckets, f.layout, cap, req.glyph, req.extra, 0, SpriteCount(req));
    LocateAllNodes(f.buckets, f.layout, cap, req.glyph, req.extra, 0, SpriteCount(req));
    if loc.failed then (Frame(loc.buckets, loc.layout, f.cells), true)
    else
      var b := BucketOf(req.glyph);
      var chain := loc.buckets[b];
      var fast := chain[loc.nodes[0]].rendered;
      var colored := rasterise(req, InitialColored(f, cpu, req, isEmoji));
      var a := Apply(chain, f.cells, req.firstCell, loc.nodes, !fast, colored, 0);
      (Frame(loc.buckets[b := a.chain], loc.layout, a.cells), false)
  }

  // ---------------------------------------------------------------------
  // What render_group guarantees

  /** A lookup series keeps the table invariant. */
  lemma {:induction false} LocateAllKeepsInv(bs: seq<seq<SpritePosition>>, l: Layout, cap: nat, glyph: nat,
                                             extra: ExtraGlyphs, i: nat, n: nat)
    requires TableInv(bs, l, cap) && i <= n
    ensures var r := LocateAll(bs, l, cap, glyph, extra, i, n); TableInv(r.buckets, r.layout, cap)
    decreases n - i
  {
    if i < n {
      var lk := Locate(bs, l, cap, Key(glyph, extra, i));
      LocateKeepsInv(bs, l, cap, Key(glyph, extra, i));
      if lk.found.Some? {
        LocateAllKeepsInv(lk.buckets, lk.layout, cap, glyph, extra, i + 1, n);
      }
    }
  }

  /** The lookup series leaves the glyph's chain with a filled prefix and distinct keys. */
  lemma LocateAllKeepsChain(bs: seq<seq<SpritePosition>>, l: Layout, cap: nat, glyph: nat,
                            extra: ExtraGlyphs, i: nat, n: nat)
    requires TableInv(bs, l, cap) && i <= n
    ensures var c := LocateAll(bs, l, cap, glyph, extra, i, n).buckets[BucketOf(glyph)];
      FilledPrefix(c) && DistinctKeys(c)
  {
    LocateAllKeepsInv(bs, l, cap, glyph, extra, i, n);
  }

  /** Two nodes that differ at most in their rendered and colored flags. */
  predicate SameKeyAndSlot(a: SpritePosition, b: SpritePosition)
  {
    a.(rendered := b.rendered, colored := b.colored) == b
  }

  /** Rewriting the flags of a chain's nodes keeps the table invariant (it speaks of keys and slots only). */
  lemma FlagsKeepInv(bs: seq<seq<SpritePosition>>, l: Layout, cap: nat, b: nat, chain: seq<SpritePosition>)
    requires TableInv(bs, l, cap) && b < CACHE_SIZE && |chain| == |bs[b]|
    requires forall k :: 0 <= k < |chain| ==> SameKeyAndSlot(chain[k], bs[b][k])
    ensures TableInv(bs[b := chain], l, cap)
  {
    var bs': seq<seq<SpritePosition>> := bs[b := chain];
    forall c: nat, k: nat | c < |bs| && k < |bs[c]|
      ensures NodeAt(bs', c, k).filled == NodeAt(bs, c, k).filled
      ensures NodeAt(bs', c, k).glyph == NodeAt(bs, c, k).glyph
      ensures (NodeAt(bs', c, k).x, NodeAt(bs', c, k).y, NodeAt(bs', c, k).z)
           == (NodeAt(bs, c, k).x, NodeAt(bs, c, k).y, NodeAt(bs, c, k).z)
      ensures ChainAt(bs'[c], k).filled == ChainAt(bs[c], k).filled
      ensures KeyOf(ChainAt(bs'[c], k)) == KeyOf(ChainAt(bs[c], k))
    {
    }
  }

  /** Rewriting the flags of a chain's nodes keeps its filled prefix and its distinct keys. */
  lemma FlagsKeepChain(chain: seq<SpritePosition>, chain': seq<SpritePosition>)
    requires FilledPrefix(chain) && DistinctKeys(chain) && |chain'| == |chain|
    requires forall k :: 0 <= k < |chain'| ==> SameKeyAndSlot(chain'[k], chain[k])
    ensures FilledPrefix(chain') && DistinctKeys(chain')
  {
    forall k | 0 <= k < |chain'|
      ensures ChainAt(chain', k).filled == ChainAt(chain, k).filled
      ensures KeyOf(ChainAt(chain', k)) == KeyOf(ChainAt(chain, k))
    {
    }
  }

  /** render_group keeps the sprite map's invariant against the tracker. */
  lemma RenderGroupKeepsInv(f: Frame, cpu: seq<CPUCell>, cap: nat, req: Request,
                            isEmoji: nat -> bool, rasterise: (Request, bool) -> bool)
    requires Fits(f, cpu, req) && TableInv(f.buckets, f.layout, cap)
    ensures var r := RenderGroupSpec(f, cpu, cap, req, isEmoji, rasterise).0; TableInv(r.buckets, r.layout, cap)
  {
    var loc := LocateAll(f.buckets, f.layout, cap, req.glyph, req.extra, 0, SpriteCount(req));
    LocateAllKeepsInv(f.buckets, f.layout, cap, req.glyph, req.extra, 0, SpriteCount(req));
    LocateAllNodes(f.buckets, f.layout, cap, req.glyph, req.extra, 0, SpriteCount(req));
    if !loc.failed {
      var b := BucketOf(req.glyph);
      var chain := loc.buckets[b];
      var fast := chain[loc.nodes[0]].rendered;
      var colored := rasterise(req, InitialColored(f, cpu, req, isEmoji));
      ApplyMarks(chain, f.cells, req.firstCell, loc.nodes, !fast, colored, 0);
      var a := Apply(chain, f.cells, req.firstCell, loc.nodes, !fast, colored, 0);
      FlagsKeepInv(loc.buckets, loc.layout, cap, b, a.chain);
    }
  }

  /** The node the sprite map holds for a key, if any: what sprite_position_for returns without allocating. */
  function Cached(bs: seq<seq<SpritePosition>>, k: Key): Option<SpritePosition>
    requires |bs| == CACHE_SIZE
  {
    var chain := bs[BucketOf(k.glyph)];
    var p := Walk(chain, k, 0);
    if p.Hit? then Some(chain[p.index]) else None
  }

  /** In a chain of the table, a filled node holding the key is the one the lookup finds. */
  lemma FoundIsCached(bs: seq<seq<SpritePosition>>, k: Key, i: nat)
    requires |bs| == CACHE_SIZE && FilledPrefix(bs[BucketOf(k.glyph)]) && DistinctKeys(bs[BucketOf(k.glyph)])
    requires i < |bs[BucketOf(k.glyph)]| && bs[BucketOf(k.glyph)][i].filled && Matches(bs[BucketOf(k.glyph)][i], k)
    ensures Cached(bs, k) == Some(bs[BucketOf(k.glyph)][i])
  {
    var c := bs[BucketOf(k.glyph)];
    forall m | 0 <= m < i
      ensures c[m].filled && !Matches(c[m], k)
    {
      assert ChainAt(c, m) == c[m] && ChainAt(c, i) == c[i];
      MatchesIsKeyEquality(c[m], k);
      MatchesIsKeyEquality(c[i], k);
    }
    WalkPrefix(c, k, 0, i);
  }

  /** Cells first..first+n-1 of `cells` show, over `before`, the sprites `bs` caches for ligature indices 0..n-1. */
  ghost predicate ShowsCached(bs: seq<seq<SpritePosition>>, cells: seq<GPUCell>, before: seq<GPUCell>, first: nat,
                              glyph: nat, extra: ExtraGlyphs, n: nat)
    requires |bs| == CACHE_SIZE && first + n <= |cells| && first + n <= |before|
  {
    forall j :: 0 <= j < n ==>
      var sp := Cached(bs, Key(glyph, extra, j));
      sp.Some? && cells[first + j] == SetCellSprite(before[first + j], sp.value)
  }

  /** Marking and copying the sprites found for ligature indices 0..|nodes|-1 puts in each cell the sprite cached for its index. */
  lemma AppliedSpritesAreCached(bs: seq<seq<SpritePosition>>, glyph: nat, extra: ExtraGlyphs,
                                nodes: seq<nat>, cells: seq<GPUCell>, first: nat, mark: bool, colored: bool)
    requires |bs| == CACHE_SIZE && FilledPrefix(bs[BucketOf(glyph)]) && DistinctKeys(bs[BucketOf(glyph)])
    requires first + |nodes| <= |cells| && NodesHoldKeys(bs[BucketOf(glyph)], glyph, extra, nodes, 0)
    ensures var b := BucketOf(glyph);
      var a := Apply(bs[b], cells, first, nodes, mark, colored, 0);
      var bs' := bs[b := a.chain];
      && (forall k :: 0 <= k < |cells| && !(first <= k < first + |nodes|) ==> a.cells[k] == cells[k])
      && (forall j :: 0 <= j < |nodes| ==>
            var sp := Cached(bs', Key(glyph, extra, j));
            sp == Some(Marked(bs[b][nodes[j]], mark, colored))
            && a.cells[first + j] == SetCellSprite(cells[first + j], sp.value))
      && ShowsCached(bs', a.cells, cells, first, glyph, extra, |nodes|)
  {
    var b := BucketOf(glyph);
    var chain := bs[b];
    ApplyMarks(chain, cells, first, nodes, mark, colored, 0);
    ApplySetsCells(chain, cells, first, nodes, mark, colored, 0);
    var a := Apply(chain, cells, first, nodes, mark, colored, 0);
    var bs' := bs[b := a.chain];
    FlagsKeepChain(chain, a.chain);
    forall j | 0 <= j < |nodes|
      ensures var sp := Cached(bs', Key(glyph, extra, j));
        sp == Some(Marked(chain[nodes[j]], mark, colored))
        && a.cells[first + j] == SetCellSprite(cells[first + j], sp.value)
    {
      var k := nodes[j];
      assert k in nodes[0..];
      assert bs'[b][k] == Marked(chain[k], mark, colored);
      FoundIsCached(bs', Key(glyph, extra, j), k);
    }
  }

  /** render_group writes the group's cells only, and after an error none at all. */
  lemma RenderGroupTouchesOnlyItsCells(f: Frame, cpu: seq<CPUCell>, cap: nat, req: Request,
                                       isEmoji: nat -> bool, rasterise: (Request, bool) -> bool)
    requires Fits(f, cpu, req) && TableInv(f.buckets, f.layout, cap)
    ensures var (r, failed) := RenderGroupSpec(f, cpu, cap, req, isEmoji, rasterise);
      && (failed ==> r.cells == f.cells)
      && (forall k :: 0 <= k < |f.cells| && !(req.firstCell <= k < req.firstCell + SpriteCount(req)) ==> r.cells[k] == f.cells[k])
  {
    var n := SpriteCount(req);
    var loc := LocateAll(f.buckets, f.layout, cap, req.glyph, req.extra, 0, n);
    LocateAllNodes(f.buckets, f.layout, cap, req.glyph, req.extra, 0, n);
    if !loc.failed {
      var b := BucketOf(req.glyph);
      var fast := loc.buckets[b][loc.nodes[0]].rendered;
      var colored := rasterise(req, InitialColored(f, cpu, req, isEmoji));
      ApplySetsCells(loc.buckets[b], f.cells, req.firstCell, loc.nodes, !fast, colored, 0);
    }
  }

  /** After a successful render_group, cell j of the group shows the sprite the map holds for (glyph, extra glyphs, j). */
  lemma RenderGroupShowsCachedSprites(f: Frame, cpu: seq<CPUCell>, cap: nat, req: Request,
                                      isEmoji: nat -> bool, rasterise: (Request, bool) -> bool)
    requires Fits(f, cpu, req) && TableInv(f.buckets, f.layout, cap)
    ensures var (r, failed) := RenderGroupSpec(f, cpu, cap, req, isEmoji, rasterise);
      !failed ==> ShowsCached(r.buckets, r.cells, f.cells, req.firstCell, req.glyph, req.extra, SpriteCount(req))
  {
    var n := SpriteCount(req);
    var loc := LocateAll(f.buckets, f.layout, cap, req.glyph, req.extra, 0, n);
    if !loc.failed {
      LocateAllNodes(f.buckets, f.layout, cap, req.glyph, req.extra, 0, n);
      LocateAllKeepsChain(f.buckets, f.layout, cap, req.glyph, req.extra, 0, n);
      var fast := loc.buckets[BucketOf(req.glyph)][loc.nodes[0]].rendered;
      var colored := rasterise(req, InitialColored(f, cpu, req, isEmoji));
      AppliedSpritesAreCached(loc.buckets, req.glyph, req.extra, loc.nodes, f.cells, req.firstCell, !fast, colored);
    }
  }

  /** The cached nodes of two different keys hold different atlas slots. */
  lemma CachedSlotsDistinct(bs: seq<seq<SpritePosition>>, l: Layout, cap: nat, k1: Key, k2: Key)
    requires TableInv(bs, l, cap) && BucketOf(k1.glyph) == BucketOf(k2.glyph)
    requires k1.ligatureIndex != k2.ligatureIndex
    requires Cached(bs, k1).Some? && Cached(bs, k2).Some?
    ensures var n1, n2 := Cached(bs, k1).value, Cached(bs, k2).value;
      (n1.x, n1.y, n1.z) != (n2.x, n2.y, n2.z) && n1.z < cap && n2.z < cap
  {
    var b := BucketOf(k1.glyph);
    var p1, p2 := Walk(bs[b], k1, 0), Walk(bs[b], k2, 0);
    assert p1.index != p2.index;
    assert NodeAt(bs, b, p1.index) == Cached(bs, k1).value && NodeAt(bs, b, p2.index) == Cached(bs, k2).value;
  }

  /** Cells that show the cached sprites of different ligature indices show different sprites. */
  lemma ShownSpritesDistinct(bs: seq<seq<SpritePosition>>, l: Layout, cap: nat, cells: seq<GPUCell>, before: seq<GPUCell>,
                             req: Request, j1: nat, j2: nat)
    requires TableInv(bs, l, cap) && cap <= COLORED_SPRITE_BIT
    requires req.firstCell + SpriteCount(req) <= |cells| && req.firstCell + SpriteCount(req) <= |before|
    requires ShowsCached(bs, cells, before, req.firstCell, req.glyph, req.extra, SpriteCount(req))
    requires j1 < SpriteCount(req) && j2 < SpriteCount(req) && j1 != j2
    ensures var c1, c2 := cells[req.firstCell + j1], cells[req.firstCell + j2];
      (c1.spriteX, c1.spriteY, c1.spriteZ) != (c2.spriteX, c2.spriteY, c2.spriteZ)
  {
    var k1, k2 := Key(req.glyph, req.extra, j1), Key(req.glyph, req.extra, j2);
    CachedSlotsDistinct(bs, l, cap, k1, k2);
    var n1, n2 := Cached(bs, k1).value, Cached(bs, k2).value;
    if n1.x == n2.x && n1.y == n2.y && SpriteZ(n1.z, n1.colored) == SpriteZ(n2.z, n2.colored) {
      SpriteZInjective(n1.z, n1.colored, n2.z, n2.colored);
    }
  }

  /**
   * No two cells of a group share a sprite: after a successful render_group
   * the sprite coordinates of cells j1 != j2 differ (the atlas has fewer
   * than 0x4000 layers, so the colour bit cannot make two layers collide).
   */
  lemma RenderGroupSpritesDistinct(f: Frame, cpu: seq<CPUCell>, cap: nat, req: Request,
                                   isEmoji: nat -> bool, rasterise: (Request, bool) -> bool, j1: nat, j2: nat)
    requires Fits(f, cpu, req) && TableInv(f.buckets, f.layout, cap) && cap <= COLORED_SPRITE_BIT
    requires j1 < SpriteCount(req) && j2 < SpriteCount(req) && j1 != j2
    ensures var (r, failed) := RenderGroupSpec(f, cpu, cap, req, isEmoji, rasterise);
      var c1, c2 := r.cells[req.firstCell + j1], r.cells[req.firstCell + j2];
      !failed ==> (c1.spriteX, c1.spriteY, c1.spriteZ) != (c2.spriteX, c2.spriteY, c2.spriteZ)
  {
    var (r, failed) := RenderGroupSpec(f, cpu, cap, req, isEmoji, rasterise);
    if !failed {
      RenderGroupShowsCachedSprites(f, cpu, cap, req, isEmoji, rasterise);
      RenderGroupKeepsInv(f, cpu, cap, req, isEmoji, rasterise);
      ShownSpritesDistinct(r.buckets, r.layout, cap, r.cells, f.cells, req, j1, j2);
    }
  }

  /** The first node a lookup series settles on: the node already cached for the key, or the node it fills. */
  lemma LocateAllFirst(bs: seq<seq<SpritePosition>>, l: Layout, cap: nat, glyph: nat, extra: ExtraGlyphs, i: nat, n: nat)
    requires |bs| == CACHE_SIZE && ValidLayout(l) && i < n
    ensures var r := LocateAll(bs, l, cap, glyph, extra, i, n); var k := Key(glyph, extra, i);
      |r.nodes| > 0 ==>
        r.nodes[0] < |r.buckets[BucketOf(glyph)]| &&
        r.buckets[BucketOf(glyph)][r.nodes[0]] == if Cached(bs, k).Some? then Cached(bs, k).value else FilledNode(k, l)
  {
    var k := Key(glyph, extra, i);
    var b := BucketOf(glyph);
    var lk := Locate(bs, l, cap, k);
    if lk.found.Some? {
      var idx := lk.found.value;
      assert idx < |lk.buckets[b]| && lk.buckets[b][idx].filled;
      LocateAllGrows(lk.buckets, lk.layout, cap, glyph, extra, i + 1, n);
    }
  }

  /** Whether the sprite map already holds a rendered sprite for a key. */
  predicate WasRendered(bs: seq<seq<SpritePosition>>, k: Key)
    requires |bs| == CACHE_SIZE
  {
    Cached(bs, k).Some? && Cached(bs, k).value.rendered
  }

  /**
   * The rendered and colored flags of render_group: after a successful call
   * the first sprite of the group is rendered; when it was not rendered
   * before, every sprite of the group is now rendered and carries the
   * colour the rasteriser reported.
   */
  lemma RenderGroupMarksRendered(f: Frame, cpu: seq<CPUCell>, cap: nat, req: Request,
                                 isEmoji: nat -> bool, rasterise: (Request, bool) -> bool)
    requires Fits(f, cpu, req) && TableInv(f.buckets, f.layout, cap)
    ensures var (r, failed) := RenderGroupSpec(f, cpu, cap, req, isEmoji, rasterise);
      var colored := rasterise(req, InitialColored(f, cpu, req, isEmoji));
      !failed ==>
        && WasRendered(r.buckets, Key(req.glyph, req.extra, 0))
        && (!WasRendered(f.buckets, Key(req.glyph, req.extra, 0)) ==>
              forall j :: 0 <= j < SpriteCount(req) ==>
                var sp := Cached(r.buckets, Key(req.glyph, req.extra, j));
                sp.Some? && sp.value.rendered && sp.value.colored == colored)
  {
    var n := SpriteCount(req);
    var loc := LocateAll(f.buckets, f.layout, cap, req.glyph, req.extra, 0, n);
    LocateAllKeepsChain(f.buckets, f.layout, cap, req.glyph, req.extra, 0, n);
    LocateAllNodes(f.buckets, f.layout, cap, req.glyph, req.extra, 0, n);
    LocateAllFirst(f.buckets, f.layout, cap, req.glyph, req.extra, 0, n);
    if !loc.failed {
      var b := BucketOf(req.glyph);
      var fast := loc.buckets[b][loc.nodes[0]].rendered;
      var colored := rasterise(req, InitialColored(f, cpu, req, isEmoji));
      AppliedSpritesAreCached(loc.buckets, req.glyph, req.extra, loc.nodes, f.cells, req.firstCell, !fast, colored);
    }
  }

  // ---------------------------------------------------------------------
  // render_group and render_groups in place

  /** One lookup of the series. */
  lemma LocateAllStep(bs: seq<seq<SpritePosition>>, l: Layout, cap: nat, glyph: nat, extra: ExtraGlyphs, i: nat, n: nat)
    requires |bs| == CACHE_SIZE && ValidLayout(l) && i < n
    ensures var lk := Locate(bs, l, cap, Key(glyph, extra, i));
      LocateAll(bs, l, cap, glyph, extra, i, n)
      == if lk.found.None? then Located(lk.buckets, lk.layout, [], true)
         else var rest := LocateAll(lk.buckets, lk.layout, cap, glyph, extra, i + 1, n);
           Located(rest.buckets, rest.layout, [lk.found.value] + rest.nodes, rest.failed)
  {
  }

  /** The lookups from ligature index i on, appended to the nodes found so far, complete the series `target`. */
  ghost predicate Resumes(target: Located, bs: seq<seq<SpritePosition>>, l: Layout, cap: nat, glyph: nat,
                          extra: ExtraGlyphs, i: nat, n: nat, nodes: seq<nat>)
  {
    && |bs| == CACHE_SIZE && ValidLayout(l) && i <= n
    && var rest := LocateAll(bs, l, cap, glyph, extra, i, n);
      target == Located(rest.buckets, rest.layout, nodes + rest.nodes, rest.failed)
  }

  /** One turn of render_group's first loop: the lookup of ligature index i, as a step of the series. */
  method LocateNext(sm: SpriteMap, t: Tracker, cap: nat, glyph: nat, extra: ExtraGlyphs, i: nat, n: nat,
                    ghost target: Located, ghost nodes: seq<nat>)
    returns (found: Option<nat>)
    requires sm.Valid(t.State(), cap) && t.Valid() && i < n
    requires Resumes(target, sm.buckets[..], t.State(), cap, glyph, extra, i, n, nodes)
    modifies sm.buckets, t
    ensures sm.Valid(t.State(), cap) && t.Valid()
    ensures found.None? ==> target == Located(sm.buckets[..], t.State(), nodes, true)
    ensures found.Some? ==> Resumes(target, sm.buckets[..], t.State(), cap, glyph, extra, i + 1, n, nodes + [found.value])
  {
    ghost var bs, l := sm.buckets[..], t.State();
    var exhausted;
    found, exhausted := sm.PositionFor(t, cap, Key(glyph, extra, i));
    LocateAllStep(bs, l, cap, glyph, extra, i, n);
    if found.None? {
      assert nodes + [] == nodes;
    } else {
      var now := LocateAll(sm.buckets[..], t.State(), cap, glyph, extra, i + 1, n);
      assert nodes + ([found.value] + now.nodes) == (nodes + [found.value]) + now.nodes;
    }
  }

  /** render_group's first loop: sprite_position_for for ligature indices 0..n-1, stopping at the first error. */
  method LocateSprites(sm: SpriteMap, t: Tracker, cap: nat, glyph: nat, extra: ExtraGlyphs, n: nat)
    returns (nodes: seq<nat>, failed: bool)
    requires sm.Valid(t.State(), cap) && t.Valid()
    modifies sm.buckets, t
    ensures sm.Valid(t.State(), cap) && t.Valid()
    ensures Located(sm.buckets[..], t.State(), nodes, failed)
      == LocateAll(old(sm.buckets[..]), old(t.State()), cap, glyph, extra, 0, n)
  {
    ghost var target := LocateAll(sm.buckets[..], t.State(), cap, glyph, extra, 0, n);
    assert [] + target.nodes == target.nodes;
    nodes := [];
    var i := 0;
    while i < n
      invariant i <= n && sm.Valid(t.State(), cap) && t.Valid()
      invariant Resumes(target, sm.buckets[..], t.State(), cap, glyph, extra, i, n, nodes)
    {
      var found := LocateNext(sm, t, cap, glyph, extra, i, n, target, nodes);
      if found.None? {
        return nodes, true;
      }
      nodes := nodes + [found.value];
      i := i + 1;
    }
    assert nodes + [] == nodes;
    failed := false;
  }

  /** render_group's last loops: mark each sprite (when mark) and copy it into its cell. */
  method ApplySprites(sm: SpriteMap, gpu: array<GPUCell>, b: nat, nodes: seq<nat>, first: nat, mark: bool, colored: bool)
    requires sm.buckets.Length == CACHE_SIZE && b < CACHE_SIZE && first + |nodes| <= gpu.Length
    requires forall j :: 0 <= j < |nodes| ==> nodes[j] < |sm.buckets[b]|
    modifies sm.buckets, gpu
    ensures var a := Apply(old(sm.buckets[b]), old(gpu[..]), first, nodes, mark, colored, 0);
      sm.buckets[..] == old(sm.buckets[..])[b := a.chain] && gpu[..] == a.cells
  {
    ghost var target := Apply(sm.buckets[b], gpu[..], first, nodes, mark, colored, 0);
    ghost var bs0 := sm.buckets[..];
    var j := 0;
    while j < |nodes|
      invariant j <= |nodes| && |sm.buckets[b]| == |bs0[b]|
      invariant sm.buckets[..] == bs0[b := sm.buckets[b]]
      invariant Apply(sm.buckets[b], gpu[..], first, nodes, mark, colored, j) == target
    {
      var chain := sm.buckets[b];
      sm.buckets[b] := chain[nodes[j] := Marked(chain[nodes[j]], mark, colored)];
      gpu[first + j] := SetCellSprite(gpu[first + j], sm.buckets[b][nodes[j]]);
      j := j + 1;
    }
  }

  /** render_group on a font's sprite map, the group's tracker and the line's GPU cells; returns whether error 2 was raised. */
  method RenderGroup(sm: SpriteMap, t: Tracker, cap: nat, gpu: array<GPUCell>, cpu: seq<CPUCell>, req: Request,
                     isEmoji: nat -> bool, rasterise: (Request, bool) -> bool) returns (failed: bool)
    requires sm.Valid(t.State(), cap) && t.Valid()
    requires Fits(Frame(sm.buckets[..], t.State(), gpu[..]), cpu, req)
    modifies sm.buckets, t, gpu
    ensures sm.Valid(t.State(), cap) && t.Valid()
    ensures (Frame(sm.buckets[..], t.State(), gpu[..]), failed)
      == RenderGroupSpec(old(Frame(sm.buckets[..], t.State(), gpu[..])), cpu, cap, req, isEmoji, rasterise)
  {
    ghost var f0 := Frame(sm.buckets[..], t.State(), gpu[..]);
    var n := Min(MAX_SPRITES_PER_GROUP, req.numCells);
    ghost var loc := LocateAll(f0.buckets, f0.layout, cap, req.glyph, req.extra, 0, n);
    LocateAllNodes(f0.buckets, f0.layout, cap, req.glyph, req.extra, 0, n);
    RenderGroupKeepsInv(f0, cpu, cap, req, isEmoji, rasterise);
    var nodes;
    nodes, failed := LocateSprites(sm, t, cap, req.glyph, req.extra, n);
    assert loc == Located(sm.buckets[..], t.State(), nodes, failed);
    if failed {
      assert RenderGroupSpec(f0, cpu, cap, req, isEmoji, rasterise) == (Frame(loc.buckets, loc.layout, f0.cells), true);
      return;
    }
    var b := req.glyph % CACHE_SIZE;
    var fast := sm.buckets[b][nodes[0]].rendered;
    var wasColored := Width(gpu[req.firstCell].attrs) == 2 && isEmoji(cpu[req.firstCell].ch);
    var colored := rasterise(req, wasColored);
    ghost var a := Apply(loc.buckets[b], f0.cells, req.firstCell, loc.nodes, !fast, colored, 0);
    assert RenderGroupSpec(f0, cpu, cap, req, isEmoji, rasterise) == (Frame(loc.buckets[b := a.chain], loc.layout, a.cells), false);
    ApplySprites(sm, gpu, b, nodes, req.firstCell, !fast, colored);
  }

  /** Every request fits the line: it has cells, and its sprite cells and first CPU cell lie inside the line. */
  predicate AllFit(reqs: seq<Request>, numCells: nat, numCpu: nat)
  {
    forall i :: 0 <= i < |reqs| ==>
      reqs[i].numCells >= 1 && reqs[i].firstCell + SpriteCount(reqs[i]) <= numCells && reqs[i].firstCell < numCpu
  }

  /** render_groups: render_group for each request in turn; an error in one group does not stop the next. */
  function RenderAll(f: Frame, cpu: seq<CPUCell>, cap: nat, reqs: seq<Request>,
                     isEmoji: nat -> bool, rasterise: (Request, bool) -> bool): (r: Frame)
    requires |f.buckets| == CACHE_SIZE && ValidLayout(f.layout) && AllFit(reqs, |f.cells|, |cpu|)
    ensures |r.buckets| == CACHE_SIZE && ValidLayout(r.layout) && |r.cells| == |f.cells|
    decreases |reqs|
  {
    if reqs == [] then f
    else RenderAll(RenderGroupSpec(f, cpu, cap, reqs[0], isEmoji, rasterise).0, cpu, cap, reqs[1..], isEmoji, rasterise)
  }

  /** Rendering a run of groups keeps the sprite map's invariant. */
  lemma {:induction false} RenderAllKeepsInv(f: Frame, cpu: seq<CPUCell>, cap: nat, reqs: seq<Request>,
                                             isEmoji: nat -> bool, rasterise: (Request, bool) -> bool)
    requires TableInv(f.buckets, f.layout, cap) && AllFit(reqs, |f.cells|, |cpu|)
    ensures var r := RenderAll(f, cpu, cap, reqs, isEmoji, rasterise); TableInv(r.buckets, r.layout, cap)
    decreases |reqs|
  {
    if reqs != [] {
      RenderGroupKeepsInv(f, cpu, cap, reqs[0], isEmoji, rasterise);
      var f1 := RenderGroupSpec(f, cpu, cap, reqs[0], isEmoji, rasterise).0;
      assert AllFit(reqs[1..], |f1.cells|, |cpu|);
      RenderAllKeepsInv(f1, cpu, cap, reqs[1..], isEmoji, rasterise);
    }
  }

  /** One group of the run. */
  lemma RenderAllStep(f: Frame, cpu: seq<CPUCell>, cap: nat, reqs: seq<Request>,
                      isEmoji: nat -> bool, rasterise: (Request, bool) -> bool)
    requires |f.buckets| == CACHE_SIZE && ValidLayout(f.layout) && AllFit(reqs, |f.cells|, |cpu|) && reqs != []
    ensures var f1 := RenderGroupSpec(f, cpu, cap, reqs[0], isEmoji, rasterise).0;
      AllFit(reqs[1..], |f1.cells|, |cpu|)
      && RenderAll(f, cpu, cap, reqs, isEmoji, rasterise) == RenderAll(f1, cpu, cap, reqs[1..], isEmoji, rasterise)
  {
  }

  /** The body of render_groups' loop for a group with cells: build its request and render it. */
  method RenderOneGroup(sm: SpriteMap, t: Tracker, cap: nat, gpu: array<GPUCell>, cpu: seq<CPUCell>,
                        g: Group, glyphs: seq<GlyphInfo>, junk: ExtraGlyphs,
                        isEmoji: nat -> bool, rasterise: (Request, bool) -> bool)
    requires sm.Valid(t.State(), cap) && t.Valid() && g.firstGlyph + g.numGlyphs <= |glyphs|
    requires Fits(Frame(sm.buckets[..], t.State(), gpu[..]), cpu, RequestFor(g, glyphs, junk))
    modifies sm.buckets, t, gpu
    ensures sm.Valid(t.State(), cap) && t.Valid()
    ensures Frame(sm.buckets[..], t.State(), gpu[..])
      == RenderGroupSpec(old(Frame(sm.buckets[..], t.State(), gpu[..])), cpu, cap, RequestFor(g, glyphs, junk), isEmoji, rasterise).0
  {
    var glyph := if g.numGlyphs != 0 then glyphs[g.firstGlyph].glyph else 0;
    var ed := PackExtraGlyphs(glyphs, g, junk);
    var numGlyphs := if g.isSpaceLigature then 1 else g.numGlyphs;
    var req := Request(g.firstCell, g.numCells, numGlyphs, glyph, ed);
    var _ := RenderGroup(sm, t, cap, gpu, cpu, req, isEmoji, rasterise);
  }

  /** One turn of render_groups' loop, stated against the rest of the run: what is left to render still ends at `target`. */
  method RenderNext(sm: SpriteMap, t: Tracker, cap: nat, gpu: array<GPUCell>, cpu: seq<CPUCell>,
                    g: Group, glyphs: seq<GlyphInfo>, junk: ExtraGlyphs,
                    isEmoji: nat -> bool, rasterise: (Request, bool) -> bool,
                    ghost rest: seq<Request>, ghost target: Frame)
    requires sm.Valid(t.State(), cap) && t.Valid() && g.firstGlyph + g.numGlyphs <= |glyphs|
    requires rest != [] && rest[0] == RequestFor(g, glyphs, junk) && AllFit(rest, gpu.Length, |cpu|)
    requires RenderAll(Frame(sm.buckets[..], t.State(), gpu[..]), cpu, cap, rest, isEmoji, rasterise) == target
    modifies sm.buckets, t, gpu
    ensures sm.Valid(t.State(), cap) && t.Valid() && AllFit(rest[1..], gpu.Length, |cpu|)
    ensures RenderAll(Frame(sm.buckets[..], t.State(), gpu[..]), cpu, cap, rest[1..], isEmoji, rasterise) == target
  {
    RenderAllStep(Frame(sm.buckets[..], t.State(), gpu[..]), cpu, cap, rest, isEmoji, rasterise);
    RenderOneGroup(sm, t, cap, gpu, cpu, g, glyphs, junk, isEmoji, rasterise);
  }

  /** render_groups over the groups shape_run built, rendering each into the line's GPU cells. */
  method RenderGroups(sm: SpriteMap, t: Tracker, cap: nat, gpu: array<GPUCell>, cpu: seq<CPUCell>,
                      groups: seq<Group>, glyphs: seq<GlyphInfo>, junk: ExtraGlyphs,
                      isEmoji: nat -> bool, rasterise: (Request, bool) -> bool)
    requires sm.Valid(t.State(), cap) && t.Valid() && GlyphsInRange(groups, glyphs)
    requires AllFit(Requests(groups, glyphs, junk), gpu.Length, |cpu|)
    modifies sm.buckets, t, gpu
    ensures sm.Valid(t.State(), cap) && t.Valid()
    ensures Frame(sm.buckets[..], t.State(), gpu[..])
      == RenderAll(old(Frame(sm.buckets[..], t.State(), gpu[..])), cpu, cap, Requests(groups, glyphs, junk), isEmoji, rasterise)
  {
    ghost var reqs := Requests(groups, glyphs, junk);
    ghost var target := RenderAll(Frame(sm.buckets[..], t.State(), gpu[..]), cpu, cap, reqs, isEmoji, rasterise);
    var i := 0;
    while i < |groups|
      invariant i <= |reqs| && sm.Valid(t.State(), cap) && t.Valid() && AllFit(reqs[i..], gpu.Length, |cpu|)
      invariant RenderAll(Frame(sm.buckets[..], t.State(), gpu[..]), cpu, cap, reqs[i..], isEmoji, rasterise) == target
    {
      if groups[i].numCells == 0 {
        break;
      }
      assert reqs[i..][0] == reqs[i] == RequestFor(groups[i], glyphs, junk) && reqs[i..][1..] == reqs[i + 1..];
      RenderNext(sm, t, cap, gpu, cpu, groups[i], glyphs, junk, isEmoji, rasterise, reqs[i..], target);
      i := i + 1;
    }
    assert reqs[i..] == [];
  }
}

/** render_group's lookups over the sprite lookup as written. */
module RenderFindings {
  import opened Common
  import opened SpriteTracker
  import opened SpriteCache
  import opened SpriteCacheFindings
  import opened Render

  /**
   * render_group's first loop as written: every ligature index is looked up
   * with sprite_position_for as written, and the group is abandoned on the
   * first error 2 even though that lookup filled a node.
   */
  function LocateAllAsWritten(bs: seq<seq<SpritePosition>>, l: Layout, cap: nat, glyph: nat, extra: ExtraGlyphs,
                              i: nat, n: nat): (r: Located)
    requires |bs| == CACHE_SIZE && ValidLayout(l) && i <= n
    ensures |r.buckets| == CACHE_SIZE && ValidLayout(r.layout)
    ensures |r.nodes| <= n - i && (!r.failed <==> |r.nodes| == n - i)
    decreases n - i
  {
    if i == n then Located(bs, l, [], false)
    else
      var lk := LocateAsWritten(bs, l, cap, Key(glyph, extra, i));
      if lk.exhausted then Located(lk.buckets, lk.layout, [], true)
      else
        var rest := LocateAllAsWritten(lk.buckets, lk.layout, cap, glyph, extra, i + 1, n);
        Located(rest.buckets, rest.layout, [lk.found.value] + rest.nodes, rest.failed)
  }

  /**
   * A one-cell group whose lookup takes the last slot below the cap: as
   * written render_group gives up on it; the corrected lookups render it.
   */
  lemma AsWrittenAbandonsGroupOnLastSlot()
    ensures var l := Layout(1, 0, 0, 2, 1, 1);
      && LocateAllAsWritten(EmptyTable(), l, 1, 5, NO_EXTRA, 0, 1).failed
      && !LocateAll(EmptyTable(), l, 1, 5, NO_EXTRA, 0, 1).failed
  {
    var l := Layout(1, 0, 0, 2, 1, 1);
    var k := Key(5, NO_EXTRA, 0);
    AsWrittenReportsErrorWithLastSlot();
    assert LocateAllAsWritten(EmptyTable(), l, 1, 5, NO_EXTRA, 0, 1).failed;
    var c := Locate(EmptyTable(), l, 1, k);
    assert LocateAll(c.buckets, c.layout, 1, 5, NO_EXTRA, 1, 1).nodes == [];
  }

  /**
   * Once the tracker is at the cap layer, as written a one-cell group is
   * rendered into a sprite of layer 1 (beyond the single allowed layer); the
   * corrected lookups give up on it.
   */
  lemma AsWrittenRendersBeyondCap()
    ensures var l := Layout(0, 0, 1, 2, 1, 1);
      var w := LocateAllAsWritten(EmptyTable(), l, 1, 5, NO_EXTRA, 0, 1);
      && !w.failed && w.nodes == [0] && w.buckets[5][0].z == 1
      && LocateAll(EmptyTable(), l, 1, 5, NO_EXTRA, 0, 1).failed
  {
    var l := Layout(0, 0, 1, 2, 1, 1);
    var k := Key(5, NO_EXTRA, 0);
    AsWrittenFillsBeyondCap();
    var lk := LocateAsWritten(EmptyTable(), l, 1, k);
    assert LocateAllAsWritten(lk.buckets, lk.layout, 1, 5, NO_EXTRA, 1, 1) == Located(lk.buckets, lk.layout, [], false);
  }
}
