/**
 * The sprite map of kitty/shaders.c: the GPU array texture that holds the
 * rendered cells, and the bookkeeping that decides when it must grow, how
 * large it becomes, which region of the old texture is carried over, and
 * where a sprite is uploaded.
 *
 * The OpenGL context is modelled by `Gpu`, a table of texture objects, each
 * an abstract 3-D image of texels addressed (x, y, layer).
 */
module SpriteTexture {
  import opened Common
  import SpriteTracker

  /** A texel address: (x, y, layer), in pixels. */
  type Texel = (nat, nat, nat)

  /** A texture object: its size and its contents. */
  datatype Texture = Texture(width: nat, height: nat, layers: nat, texel: Texel -> nat)

  /** Contents of freshly allocated storage (undefined in OpenGL; zero here). */
  function Blank(p: Texel): nat { 0 }

  /** The box [0, w) x [0, h) x [0, n) anchored at the origin. */
  predicate InBox(p: Texel, w: nat, h: nat, n: nat)
  {
    p.0 < w && p.1 < h && p.2 < n
  }

  /** The w x h tile whose top-left texel is (x, y) in layer z. */
  predicate InTile(p: Texel, x: nat, y: nat, z: nat, w: nat, h: nat)
  {
    p.2 == z && x <= p.0 < x + w && y <= p.1 < y + h
  }

  /** Row-major position of pixel (i, j) in a buffer w pixels wide. */
  function TileIndex(i: nat, j: nat, w: nat): nat { j * w + i }

  lemma TileIndexBound(i: nat, j: nat, w: nat, h: nat)
    requires i < w && j < h
    ensures TileIndex(i, j, w) < w * h
  {
    assert (j + 1) * w <= h * w by {
      SpriteTracker.MulMono(j + 1, h, w);
    }
  }

  /**
   * glCopyImageSubData (or its read-back fallback) from the origin: the
   * w x h x n box of src replaces that box of dst. A box outside either
   * texture is a GL error and leaves dst as it was.
   */
  function Copied(src: Texture, dst: Texture, w: nat, h: nat, n: nat): (r: Texture)
    ensures r.width == dst.width && r.height == dst.height && r.layers == dst.layers
  {
    if w <= src.width && h <= src.height && n <= src.layers
       && w <= dst.width && h <= dst.height && n <= dst.layers
    then dst.(texel := (p: Texel) => if InBox(p, w, h, n) then src.texel(p) else dst.texel(p))
    else dst
  }

  /**
   * glTexSubImage3D of one w x h image into layer z at (x, y): the tile takes
   * the row-major pixels of buf. A tile outside the texture is a GL error and
   * leaves it as it was.
   */
  function Uploaded(t: Texture, x: nat, y: nat, z: nat, w: nat, h: nat, buf: seq<nat>): (r: Texture)
    requires |buf| == w * h
    ensures r.width == t.width && r.height == t.height && r.layers == t.layers
  {
    if x + w <= t.width && y + h <= t.height && z < t.layers then
      t.(texel := (p: Texel) => if InTile(p, x, y, z, w, h) then TilePixel(x, y, w, h, buf, p) else t.texel(p))
    else t
  }

  /** The pixel of buf that lands on texel p of the tile anchored at (x, y). */
  function TilePixel(x: nat, y: nat, w: nat, h: nat, buf: seq<nat>, p: Texel): nat
    requires |buf| == w * h && x <= p.0 < x + w && y <= p.1 < y + h
  {
    TileIndexBound(p.0 - x, p.1 - y, w, h);
    buf[TileIndex(p.0 - x, p.1 - y, w)]
  }

  /** An upload that fits writes exactly the tile: every texel of it from buf, nothing else. */
  lemma UploadWritesOneTile(t: Texture, x: nat, y: nat, z: nat, w: nat, h: nat, buf: seq<nat>, p: Texel)
    requires |buf| == w * h
    requires x + w <= t.width && y + h <= t.height && z < t.layers
    ensures InTile(p, x, y, z, w, h) ==>
      TileIndex(p.0 - x, p.1 - y, w) < |buf|
      && Uploaded(t, x, y, z, w, h, buf).texel(p) == buf[TileIndex(p.0 - x, p.1 - y, w)]
    ensures !InTile(p, x, y, z, w, h) ==> Uploaded(t, x, y, z, w, h, buf).texel(p) == t.texel(p)
  {
    if InTile(p, x, y, z, w, h) {
      TileIndexBound(p.0 - x, p.1 - y, w, h);
    }
  }

  /** The texture objects of the OpenGL context and the names handed out so far. */
  class Gpu {
    var textures: map<nat, Texture>
    var issued: nat

    /** Every live name is non-zero and was handed out already. */
    ghost predicate Valid()
      reads this
    {
      forall name :: name in textures ==> 0 < name <= issued
    }

    constructor ()
      ensures Valid() && textures == map[] && issued == 0
    {
      textures := map[];
      issued := 0;
    }

    /** glGenTextures followed by glTexStorage3D: a new name with storage of the given size. */
    method NewTexture(width: nat, height: nat, layers: nat) returns (name: nat)
      requires Valid()
      modifies this
      ensures Valid()
      ensures name != 0 && name !in old(textures)
      ensures textures == old(textures)[name := Texture(width, height, layers, Blank)]
    {
      issued := issued + 1;
      name := issued;
      textures := textures[name := Texture(width, height, layers, Blank)];
    }

    /** copy_image_sub_data: the w x h x n box of src is copied into dst. */
    method CopyImage(src: nat, dst: nat, w: nat, h: nat, n: nat)
      requires Valid() && src in textures && dst in textures
      modifies this
      ensures Valid() && issued == old(issued)
      ensures textures == old(textures)[dst := Copied(old(textures)[src], old(textures)[dst], w, h, n)]
    {
      textures := textures[dst := Copied(textures[src], textures[dst], w, h, n)];
    }

    /** glDeleteTextures. */
    method DeleteTexture(name: nat)
      requires Valid()
      modifies this
      ensures Valid() && issued == old(issued)
      ensures textures == old(textures) - {name}
    {
      textures := textures - {name};
    }

    /** glTexSubImage3D of a single-layer image. */
    method SubImage(name: nat, x: nat, y: nat, z: nat, w: nat, h: nat, buf: seq<nat>)
      requires Valid() && name in textures && |buf| == w * h
      modifies this
      ensures Valid() && issued == old(issued)
      ensures textures == old(textures)[name := Uploaded(old(textures)[name], x, y, z, w, h, buf)]
    {
      textures := textures[name := Uploaded(textures[name], x, y, z, w, h, buf)];
    }
  }

  // ---------------------------------------------------------------------
  // The growth decision, at the level of atlas cells.

  /**
   * The test in `send_sprite_to_gpu`: the tracker has moved into a layer the
   * texture does not have, or it is still in layer 0 and uses more rows than
   * the texture has.
   */
  predicate NeedsRealloc(z: nat, ynum: nat, lastLayers: int, lastYnum: int)
  {
    z >= lastLayers || (z == 0 && ynum > lastYnum)
  }

  /** The rows a reallocation copies from the old texture: `MAX(1, last_ynum)`. */
  function CopiedRows(lastYnum: int): (r: nat)
    ensures r >= 1 && r >= lastYnum
  {
    Max(1, lastYnum)
  }

  /**
   * A tracker position that the allocator can reach from the origin: once it
   * has left layer 0 every row of a layer is in use.
   */
  predicate Reachable(l: SpriteTracker.Layout)
  {
    SpriteTracker.ValidLayout(l) && (l.z > 0 ==> l.ynum == l.maxY)
  }

  lemma NextReachable(l: SpriteTracker.Layout, cap: nat)
    requires Reachable(l)
    ensures Reachable(SpriteTracker.Next(l, cap).layout)
  {
  }

  /**
   * The texture, `last_num_of_layers` layers of `last_ynum` rows of cells,
   * holds every slot the tracker has reached: its layers run up to the
   * current one, and it has the rows of layer 0 in use or, once the tracker
   * has left layer 0, every row of a layer.
   */
  predicate Covers(lastLayers: int, lastYnum: int, l: SpriteTracker.Layout)
  {
    && lastLayers == l.z + 1
    && lastYnum <= l.maxY
    && (if l.z == 0 then l.ynum <= lastYnum else l.maxY <= lastYnum)
  }

  /** A slot at or before the tracker position in fill order. */
  predicate AtOrBefore(x: nat, y: nat, z: nat, l: SpriteTracker.Layout)
  {
    x < l.xnum && y < l.maxY && (z < l.z || (z == l.z && y <= l.y))
  }

  /** When the texture covers the tracker, every slot handed out so far lies inside it. */
  lemma CoveredSlotInside(lastLayers: int, lastYnum: int, l: SpriteTracker.Layout, x: nat, y: nat, z: nat)
    requires Reachable(l) && Covers(lastLayers, lastYnum, l) && AtOrBefore(x, y, z, l)
    ensures z < lastLayers && y < lastYnum && x < l.xnum
  {
  }

  /**
   * The sprite just handed out lands inside the texture: after the tracker
   * has moved past slot (x, y, z) of prev and `send_sprite_to_gpu` has grown
   * the texture when it had to, the cell-sized tile at
   * (x * cell_width, y * cell_height) in layer z fits in a texture of
   * xnum x last_ynum cells and last_num_of_layers layers.
   */
  lemma {:induction false} SentSpriteFits(lastLayers: int, lastYnum: int, prev: SpriteTracker.Layout,
                                          cap: nat, cellWidth: nat, cellHeight: nat)
    requires Reachable(prev) && Covers(lastLayers, lastYnum, prev)
    ensures var l := SpriteTracker.Next(prev, cap).layout;
      var after := AfterSend(lastLayers, lastYnum, l);
      && prev.x * cellWidth + cellWidth <= l.xnum * cellWidth
      && prev.y * cellHeight + cellHeight <= after.1 * cellHeight
      && prev.z < after.0
  {
    var l := SpriteTracker.Next(prev, cap).layout;
    var after := AfterSend(lastLayers, lastYnum, l);
    SendKeepsCover(lastLayers, lastYnum, prev, cap);
    NextReachable(prev, cap);
    assert AtOrBefore(prev.x, prev.y, prev.z, l);
    CoveredSlotInside(after.0, after.1, l, prev.x, prev.y, prev.z);
    SpriteTracker.MulMono(prev.x + 1, l.xnum, cellWidth);
    SpriteTracker.MulMono(prev.y + 1, after.1, cellHeight);
  }

  /** The layer count and row count after `send_sprite_to_gpu` has made its decision. */
  function AfterSend(lastLayers: int, lastYnum: int, l: SpriteTracker.Layout): (int, int)
  {
    if NeedsRealloc(l.z, l.ynum, lastLayers, lastYnum) then (l.z + 1, l.ynum) else (lastLayers, lastYnum)
  }

  /** A reallocated texture covers the tracker position it was sized for. */
  lemma {:induction false} ReallocCovers(l: SpriteTracker.Layout)
    requires Reachable(l)
    ensures Covers(l.z + 1, l.ynum, l)
  {
  }

  /** The first send of a new sprite map always allocates a texture (last_ynum starts at -1). */
  lemma FirstSendAllocates(l: SpriteTracker.Layout)
    ensures NeedsRealloc(l.z, l.ynum, 1, -1)
    ensures AfterSend(1, -1, l) == (l.z + 1, l.ynum)
  {
  }

  /**
   * The texture keeps covering the tracker: after one more slot is handed out
   * and `send_sprite_to_gpu` has grown the texture when it had to, the
   * texture covers the new position.
   */
  lemma {:induction false} SendKeepsCover(lastLayers: int, lastYnum: int, prev: SpriteTracker.Layout, cap: nat)
    requires Reachable(prev) && Covers(lastLayers, lastYnum, prev)
    ensures var l := SpriteTracker.Next(prev, cap).layout;
      var after := AfterSend(lastLayers, lastYnum, l);
      Covers(after.0, after.1, l)
  {
    var l := SpriteTracker.Next(prev, cap).layout;
    NextReachable(prev, cap);
  }

  /**
   * The region a reallocation copies lies inside both textures: the old
   * texture had at least `MAX(1, last_ynum)` rows and `last_num_of_layers`
   * layers, and the new one has at least as many.
   */
  lemma {:induction false} CopyRegionFits(lastLayers: int, lastYnum: int, prev: SpriteTracker.Layout, cap: nat)
    requires Reachable(prev) && Covers(lastLayers, lastYnum, prev) && lastYnum >= 1
    ensures var l := SpriteTracker.Next(prev, cap).layout;
      NeedsRealloc(l.z, l.ynum, lastLayers, lastYnum) ==>
        CopiedRows(lastYnum) <= l.ynum && lastLayers <= l.z + 1
  {
    var l := SpriteTracker.Next(prev, cap).layout;
    NextReachable(prev, cap);
    if NeedsRealloc(l.z, l.ynum, lastLayers, lastYnum) && l.z > 0 {
      assert l.ynum == l.maxY;
    }
  }

  // ---------------------------------------------------------------------
  // The sprite map object.

  /** The process-wide statics `max_texture_size` and `max_array_texture_layers`. */
  class GlLimits {
    var maxTextureSize: nat
    var maxArrayTextureLayers: nat

    /** Both statics start at zero: not yet queried. */
    constructor ()
      ensures maxTextureSize == 0 && maxArrayTextureLayers == 0
    {
      maxTextureSize := 0;
      maxArrayTextureLayers := 0;
    }
  }

  /** The cap applied on macOS, where GPUs with different capabilities may be used. */
  const APPLE_MAX_TEXTURE_SIZE: nat := 8192
  const APPLE_MAX_ARRAY_TEXTURE_LAYERS: nat := 512

  class SpriteMap {
    var cellWidth: nat
    var cellHeight: nat
    var xnum: int
    var ynum: int
    var x: int
    var y: int
    var z: int
    var lastNumOfLayers: int
    var lastYnum: int
    var textureId: nat
    var maxTextureSize: nat
    var maxArrayTextureLayers: nat

    /**
     * `NEW_SPRITE_MAP` with the limits and cell size filled in: one cell,
     * one layer, last_ynum -1 and no texture.
     */
    constructor (maxTextureSize: nat, maxArrayTextureLayers: nat, cellWidth: nat, cellHeight: nat)
      ensures this.xnum == 1 && this.ynum == 1 && this.x == 0 && this.y == 0 && this.z == 0
      ensures lastNumOfLayers == 1 && lastYnum == -1 && textureId == 0
      ensures this.maxTextureSize == maxTextureSize && this.maxArrayTextureLayers == maxArrayTextureLayers
      ensures this.cellWidth == cellWidth && this.cellHeight == cellHeight
    {
      this.xnum, this.ynum, this.x, this.y, this.z := 1, 1, 0, 0, 0;
      lastNumOfLayers := 1;
      lastYnum := -1;
      textureId := 0;
      this.maxTextureSize := maxTextureSize;
      this.maxArrayTextureLayers := maxArrayTextureLayers;
      this.cellWidth := cellWidth;
      this.cellHeight := cellHeight;
    }

    /**
     * The texture name is either 0 (no texture yet, fields as in `NEW_SPRITE_MAP`)
     * or a live texture whose height and layer count are the recorded ones.
     */
    ghost predicate Valid(gpu: Gpu)
      reads this, gpu
    {
      && gpu.Valid()
      && (textureId == 0 || textureId in gpu.textures)
      && lastNumOfLayers >= 1
      && (textureId == 0 ==> lastNumOfLayers == 1 && lastYnum == -1)
      && (textureId != 0 ==>
            gpu.textures[textureId].height == lastYnum * cellHeight
            && gpu.textures[textureId].layers == lastNumOfLayers)
    }

    /** The texture `realloc_sprite_texture` builds for the tracker position l. */
    function Regrown(gpu: Gpu, l: SpriteTracker.Layout): (t: Texture)
      reads this, gpu
      requires textureId == 0 || textureId in gpu.textures
      requires lastNumOfLayers >= 1
      ensures t.width == l.xnum * cellWidth && t.height == l.ynum * cellHeight && t.layers == l.z + 1
    {
      var blank := Texture(l.xnum * cellWidth, l.ynum * cellHeight, l.z + 1, Blank);
      if textureId == 0 then blank
      else Copied(gpu.textures[textureId], blank, l.xnum * cellWidth,
                  CopiedRows(lastYnum) * cellHeight, lastNumOfLayers)
    }

    /**
     * `realloc_sprite_texture`: a new texture of xnum x ynum cells and z + 1
     * layers; the old texture, if any, has its first `MAX(1, last_ynum)` rows
     * of cells in its first `last_num_of_layers` layers copied over and is
     * deleted; the map records the new size.
     */
    method Realloc(gpu: Gpu, tracker: SpriteTracker.Tracker)
      requires Valid(gpu)
      modifies this, gpu
      ensures Valid(gpu)
      ensures textureId != 0 && textureId !in old(gpu.textures)
      ensures gpu.textures ==
        (if old(textureId) == 0 then old(gpu.textures) else old(gpu.textures) - {old(textureId)})
          [textureId := old(Regrown(gpu, tracker.State()))]
      ensures lastNumOfLayers == tracker.z + 1 && lastYnum == tracker.ynum
      ensures cellWidth == old(cellWidth) && cellHeight == old(cellHeight)
    {
      var xmax, ymax, z := tracker.CurrentLayout();
      var zmax := z + 1;
      var width := xmax * cellWidth;
      var height := ymax * cellHeight;
      var tex := gpu.NewTexture(width, height, zmax);
      if textureId != 0 {
        var srcYnum := Max(1, lastYnum);
        gpu.CopyImage(textureId, tex, width, srcYnum * cellHeight, lastNumOfLayers);
        gpu.DeleteTexture(textureId);
      }
      lastNumOfLayers := zmax;
      lastYnum := ymax;
      textureId := tex;
    }

    /**
     * `send_sprite_to_gpu`: grow the texture when the tracker has outrun it,
     * then upload one cell-sized image to slot (sx, sy, sz), at pixel
     * (sx * cell_width, sy * cell_height) of layer sz.
     */
    method Send(gpu: Gpu, tracker: SpriteTracker.Tracker, sx: nat, sy: nat, sz: nat, buf: seq<nat>)
      requires Valid(gpu) && |buf| == cellWidth * cellHeight
      modifies this, gpu
      ensures Valid(gpu)
      ensures cellWidth == old(cellWidth) && cellHeight == old(cellHeight)
      ensures (lastNumOfLayers, lastYnum) == AfterSend(old(lastNumOfLayers), old(lastYnum), tracker.State())
      ensures var grown := NeedsRealloc(tracker.z, tracker.ynum, old(lastNumOfLayers), old(lastYnum));
        var before := if grown then old(Regrown(gpu, tracker.State())) else old(gpu.textures[textureId]);
        gpu.textures[textureId] == Uploaded(before, sx * cellWidth, sy * cellHeight, sz, cellWidth, cellHeight, buf)
    {
      var xnum, ynum, znum := tracker.CurrentLayout();
      if znum >= lastNumOfLayers || (znum == 0 && ynum > lastYnum) {
        Realloc(gpu, tracker);
      }
      var px := sx * cellWidth;
      var py := sy * cellHeight;
      gpu.SubImage(textureId, px, py, sz, cellWidth, cellHeight, buf);
    }
  }

  /**
   * `alloc_sprite_map`: the GPU limits are queried the first time only (and
   * capped on macOS), then handed to the sprite tracker; the new map is
   * `NEW_SPRITE_MAP` with those limits and the cell size.
   */
  method AllocSpriteMap(gl: GlLimits, trackerLimits: SpriteTracker.Limits, reportedSize: nat,
                        reportedLayers: nat, isApple: bool, cellWidth: nat, cellHeight: nat)
    returns (m: SpriteMap)
    modifies gl, trackerLimits
    ensures fresh(m)
    ensures old(gl.maxTextureSize) == 0 ==>
      && gl.maxTextureSize == (if isApple then Min(APPLE_MAX_TEXTURE_SIZE, reportedSize) else reportedSize)
      && gl.maxArrayTextureLayers ==
           (if isApple then Min(APPLE_MAX_ARRAY_TEXTURE_LAYERS, reportedLayers) else reportedLayers)
      && trackerLimits.maxTextureSize == gl.maxTextureSize
      && trackerLimits.maxArrayLen == Min(SpriteTracker.MAX_ARRAY_LEN_CLAMP, gl.maxArrayTextureLayers)
    ensures old(gl.maxTextureSize) != 0 ==> unchanged(gl) && unchanged(trackerLimits)
    ensures m.maxTextureSize == gl.maxTextureSize && m.maxArrayTextureLayers == gl.maxArrayTextureLayers
    ensures m.cellWidth == cellWidth && m.cellHeight == cellHeight
    ensures m.xnum == 1 && m.ynum == 1 && m.lastNumOfLayers == 1 && m.lastYnum == -1 && m.textureId == 0
  {
    if gl.maxTextureSize == 0 {
      gl.maxTextureSize := reportedSize;
      gl.maxArrayTextureLayers := reportedLayers;
      if isApple {
        gl.maxTextureSize := Min(APPLE_MAX_TEXTURE_SIZE, gl.maxTextureSize);
        gl.maxArrayTextureLayers := Min(APPLE_MAX_ARRAY_TEXTURE_LAYERS, gl.maxArrayTextureLayers);
      }
      trackerLimits.SetLimits(gl.maxTextureSize, gl.maxArrayTextureLayers);
    }
    m := new SpriteMap(gl.maxTextureSize, gl.maxArrayTextureLayers, cellWidth, cellHeight);
  }
}
