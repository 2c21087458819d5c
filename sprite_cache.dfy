/**
 * The per-font sprite-position cache of kitty/fonts.c: a fixed table of 1024
 * buckets indexed by `glyph & 1023`, each the head of an overflow chain that
 * grows in place. A chain is modelled as the sequence of its nodes.
 */
module SpriteCache {
  import opened Common
  import opened SpriteTracker

  /** SPECIAL_GLYPH_CACHE_SIZE, also the size of `sprite_map`. */
  const CACHE_SIZE: nat := 1024

  /** MAX_EXTRA_GLYPHS. */
  const MAX_EXTRA_GLYPHS: nat := 8

  /** ExtraGlyphs: the glyph ids after the first one of a multi-glyph group; 0 ends the list. */
  type ExtraGlyphs = s: seq<nat> | |s| == MAX_EXTRA_GLYPHS witness [0, 0, 0, 0, 0, 0, 0, 0]

  /** The bucket of a glyph: `glyph & (SPECIAL_GLYPH_CACHE_SIZE - 1)` for a non-negative glyph. */
  function BucketOf(glyph: nat): (b: nat)
    ensures b < CACHE_SIZE
  {
    glyph % CACHE_SIZE
  }

  // ---------------------------------------------------------------------
  // extra_glyphs_equal

  /** The index of the first 0 in s at or after i, or |s| when there is none. */
  function FirstZero(s: seq<nat>, i: nat): (k: nat)
    requires i <= |s|
    ensures i <= k <= |s|
    ensures forall j :: i <= j < k ==> s[j] != 0
    ensures k < |s| ==> s[k] == 0
    decreases |s| - i
  {
    if i == |s| then i else if s[i] == 0 then i else FirstZero(s, i + 1)
  }

  /** The scan of extra_glyphs_equal from index i on. */
  function EqualFrom(a: ExtraGlyphs, b: ExtraGlyphs, i: nat): bool
    requires i <= MAX_EXTRA_GLYPHS
    decreases MAX_EXTRA_GLYPHS - i
  {
    if i == MAX_EXTRA_GLYPHS then true
    else if a[i] != b[i] then false
    else if a[i] == 0 then true
    else EqualFrom(a, b, i + 1)
  }

  /** The part of an extra-glyph list that keys the cache: everything up to and including the first 0. */
  function Significant(a: ExtraGlyphs): seq<nat>
  {
    a[..Min(FirstZero(a, 0) + 1, MAX_EXTRA_GLYPHS)]
  }

  /** The scan from i agrees with comparing the entries from i up to a's first zero. */
  lemma {:induction false} EqualFromMeans(a: ExtraGlyphs, b: ExtraGlyphs, i: nat)
    requires i <= MAX_EXTRA_GLYPHS
    requires forall j :: 0 <= j < i ==> a[j] != 0 && a[j] == b[j]
    ensures EqualFrom(a, b, i) <==> Significant(a) == Significant(b)
    decreases MAX_EXTRA_GLYPHS - i
  {
    var za, zb := FirstZero(a, 0), FirstZero(b, 0);
    if i == MAX_EXTRA_GLYPHS {
      assert za == MAX_EXTRA_GLYPHS && zb == MAX_EXTRA_GLYPHS;
      assert a == b;
    } else if a[i] != b[i] {
      assert za >= i && zb >= i;
      assert |Significant(a)| > i && |Significant(b)| > i;
      assert Significant(a)[i] != Significant(b)[i];
    } else if a[i] == 0 {
      assert za == i && zb == i;
      assert Significant(a) == a[..i + 1] && Significant(b) == b[..i + 1];
      assert a[..i + 1] == b[..i + 1];
    } else {
      EqualFromMeans(a, b, i + 1);
    }
  }

  /**
   * extra_glyphs_equal(a, b): true exactly when a and b agree at every index
   * up to and including a's first 0, or on all 8 entries when a has no 0.
   */
  function ExtraGlyphsEqual(a: ExtraGlyphs, b: ExtraGlyphs): (r: bool)
    ensures r <==> Significant(a) == Significant(b)
    ensures r <==> forall j :: 0 <= j < MAX_EXTRA_GLYPHS && j <= FirstZero(a, 0) ==> a[j] == b[j]
  {
    EqualFromMeans(a, b, 0);
    var za := FirstZero(a, 0);
    assert Significant(a) == Significant(b) <==>
      forall j :: 0 <= j < MAX_EXTRA_GLYPHS && j <= za ==> a[j] == b[j] by {
      if forall j :: 0 <= j < MAX_EXTRA_GLYPHS && j <= za ==> a[j] == b[j] {
        assert FirstZero(b, 0) == za by {
          if za < MAX_EXTRA_GLYPHS { assert b[za] == 0; }
          FirstZeroAgree(a, b, 0, za);
        }
      }
    }
    EqualFrom(a, b, 0)
  }

  /** Two lists that agree up to a's first zero have their first zero at the same place. */
  lemma {:induction false} FirstZeroAgree(a: ExtraGlyphs, b: ExtraGlyphs, i: nat, za: nat)
    requires i <= za == FirstZero(a, 0)
    requires forall j :: 0 <= j < MAX_EXTRA_GLYPHS && j <= za ==> a[j] == b[j]
    requires forall j :: 0 <= j < i ==> b[j] != 0
    ensures FirstZero(b, i) == za
    decreases MAX_EXTRA_GLYPHS - i
  {
    if i < za {
      FirstZeroAgree(a, b, i + 1, za);
    }
  }

  // ---------------------------------------------------------------------
  // Nodes and chains

  /** SpritePosition without its `next` link: the chain order stands for the links. */
  datatype SpritePosition = SpritePosition(
    filled: bool, rendered: bool, colored: bool,
    x: nat, y: nat, z: nat,
    ligatureIndex: nat, glyph: nat, extraGlyphs: ExtraGlyphs)

  /** A zeroed node, as calloc and memset produce and clear_sprite_position_impl restores. */
  const EMPTY_NODE: SpritePosition := SpritePosition(false, false, false, 0, 0, 0, 0, 0, [0, 0, 0, 0, 0, 0, 0, 0])

  /** What sprite_position_for looks up: a glyph, the rest of its group, and its cell within the group. */
  datatype Key = Key(glyph: nat, extra: ExtraGlyphs, ligatureIndex: nat)

  /** The key a node was filled with, with the extra glyphs cut after the first 0. */
  function KeyOf(n: SpritePosition): (nat, seq<nat>, nat)
  {
    (n.glyph, Significant(n.extraGlyphs), n.ligatureIndex)
  }

  /** The node comparison sprite_position_for makes. */
  predicate Matches(n: SpritePosition, k: Key)
  {
    n.glyph == k.glyph && ExtraGlyphsEqual(n.extraGlyphs, k.extra) && n.ligatureIndex == k.ligatureIndex
  }

  /** Matching is key equality once the extra glyphs are cut after their first 0. */
  lemma MatchesIsKeyEquality(n: SpritePosition, k: Key)
    ensures Matches(n, k) <==> KeyOf(n) == (k.glyph, Significant(k.extra), k.ligatureIndex)
  {
  }

  /** Where the walk of a chain ends: at a filled matching node, or at the first free one (|chain| = append). */
  datatype Probe = Hit(index: nat) | Miss(index: nat)

  /** The walk of sprite_position_for from node i: stop at a filled match, or at the first unfilled node. */
  function Walk(chain: seq<SpritePosition>, k: Key, i: nat): (p: Probe)
    requires i <= |chain|
    ensures i <= p.index <= |chain|
    ensures forall j :: i <= j < p.index ==> ChainAt(chain, j).filled && !Matches(ChainAt(chain, j), k)
    ensures p.Hit? ==> p.index < |chain| && chain[p.index].filled && Matches(chain[p.index], k)
    ensures p.Miss? ==> p.index == |chain| || !chain[p.index].filled
    decreases |chain| - i
  {
    if i == |chain| then Miss(i)
    else if !chain[i].filled then Miss(i)
    else if Matches(chain[i], k) then Hit(i)
    else Walk(chain, k, i + 1)
  }

  /** The node a miss fills: the key (all 8 extra glyphs copied), the tracker position, not rendered, not coloured. */
  function FilledNode(k: Key, l: Layout): (n: SpritePosition)
  {
    SpritePosition(true, false, false, l.x, l.y, l.z, k.ligatureIndex, k.glyph, k.extra)
  }

  /** Writes node n at index i of the chain, appending a node when i is one past the end. */
  function Store(chain: seq<SpritePosition>, i: nat, n: SpritePosition): (r: seq<SpritePosition>)
    requires i <= |chain|
    ensures |r| == if i == |chain| then |chain| + 1 else |chain|
    ensures r[i] == n && forall j :: 0 <= j < |chain| && j != i ==> r[j] == chain[j]
  {
    if i == |chain| then chain + [n] else chain[i := n]
  }

  /** The outcome of one sprite_position_for: the new table, the tracker, the node found (bucket index) and error 2. */
  datatype Lookup = Lookup(buckets: seq<seq<SpritePosition>>, layout: Layout, found: Option<nat>, exhausted: bool)

  /**
   * sprite_position_for, with the corrected allocator: a hit returns the node
   * and changes nothing; a miss inside the layer cap fills the first free node
   * of the key's bucket with the tracker position and advances the tracker
   * once; a miss at the cap allocates nothing and reports error 2.
   */
  function Locate(bs: seq<seq<SpritePosition>>, l: Layout, cap: nat, k: Key): (r: Lookup)
    requires |bs| == CACHE_SIZE && ValidLayout(l)
    ensures |r.buckets| == CACHE_SIZE && ValidLayout(r.layout)
  {
    var b := BucketOf(k.glyph);
    var p := Walk(bs[b], k, 0);
    if p.Hit? then Lookup(bs, l, Some(p.index), false)
    else
      var a := Allocate(l, cap);
      if a.slot.None? then Lookup(bs, l, None, true)
      else Lookup(bs[b := Store(bs[b], p.index, FilledNode(k, l))], a.layout, Some(p.index), false)
  }

  /**
   * sprite_position_for as written: a miss always fills the first free node
   * with the tracker position and then runs do_increment, so error 2 comes
   * back together with the node, and once the tracker has passed the cap
   * nodes are filled with layers at or beyond it and no error.
   */
  function LocateAsWritten(bs: seq<seq<SpritePosition>>, l: Layout, cap: nat, k: Key): (r: Lookup)
    requires |bs| == CACHE_SIZE && ValidLayout(l)
    ensures |r.buckets| == CACHE_SIZE && ValidLayout(r.layout) && r.found.Some?
    ensures r.exhausted ==> r.layout.z >= cap && r.layout.z == l.z + 1
    ensures var b := BucketOf(k.glyph);
      r.found.value < |r.buckets[b]| && r.buckets[b][r.found.value].filled && Matches(r.buckets[b][r.found.value], k)
  {
    var b := BucketOf(k.glyph);
    var p := Walk(bs[b], k, 0);
    if p.Hit? then Lookup(bs, l, Some(p.index), false)
    else
      var s := Next(l, cap);
      MatchesIsKeyEquality(FilledNode(k, l), k);
      Lookup(bs[b := Store(bs[b], p.index, FilledNode(k, l))], s.layout, Some(p.index), s.exhausted)
  }

  /**
   * A lookup only grows chains and never rewrites a filled node, and the
   * node it reports is a filled node of the key's bucket holding the key.
   */
  lemma LocateGrows(bs: seq<seq<SpritePosition>>, l: Layout, cap: nat, k: Key)
    requires |bs| == CACHE_SIZE && ValidLayout(l)
    ensures var r := Locate(bs, l, cap, k); var b := BucketOf(k.glyph);
      && (forall c :: 0 <= c < CACHE_SIZE ==> |r.buckets[c]| >= |bs[c]|)
      && (forall c, j :: 0 <= c < CACHE_SIZE && 0 <= j < |bs[c]| && bs[c][j].filled ==> r.buckets[c][j] == bs[c][j])
      && (r.found.Some? ==> r.found.value < |r.buckets[b]| && r.buckets[b][r.found.value].filled
                            && Matches(r.buckets[b][r.found.value], k))
  {
    MatchesIsKeyEquality(FilledNode(k, l), k);
  }

  // ---------------------------------------------------------------------
  // Invariants of the table

  /**
   * Node i of bucket b, and node i of a chain. The table invariants below
   * quantify over these terms, so a proof about them names the nodes it
   * needs instead of having every sequence index in scope matched.
   */
  function NodeAt(bs: seq<seq<SpritePosition>>, b: nat, i: nat): SpritePosition
    requires b < |bs| && i < |bs[b]|
  {
    bs[b][i]
  }

  function ChainAt(chain: seq<SpritePosition>, i: nat): SpritePosition
    requires i < |chain|
  {
    chain[i]
  }

  /** In every chain the filled nodes come first. */
  ghost predicate FilledPrefix(chain: seq<SpritePosition>)
  {
    forall i, j :: 0 <= i < j < |chain| && ChainAt(chain, j).filled ==> ChainAt(chain, i).filled
  }

  /** No two filled nodes of a chain carry the same key. */
  ghost predicate DistinctKeys(chain: seq<SpritePosition>)
  {
    forall i, j :: 0 <= i < j < |chain| && ChainAt(chain, i).filled && ChainAt(chain, j).filled ==> KeyOf(ChainAt(chain, i)) != KeyOf(ChainAt(chain, j))
  }

  /** Every filled node sits in the bucket of its glyph. */
  ghost predicate InOwnBucket(bs: seq<seq<SpritePosition>>)
  {
    forall b, i :: 0 <= b < |bs| && 0 <= i < |bs[b]| && NodeAt(bs, b, i).filled ==> BucketOf(NodeAt(bs, b, i).glyph) == b
  }

  /** Every filled node holds a slot of the layer grid that the tracker has already passed. */
  ghost predicate SlotsIssued(bs: seq<seq<SpritePosition>>, l: Layout)
  {
    forall b, i :: 0 <= b < |bs| && 0 <= i < |bs[b]| && NodeAt(bs, b, i).filled ==>
      NodeAt(bs, b, i).x < l.xnum && NodeAt(bs, b, i).y < l.maxY && SlotBefore(NodeAt(bs, b, i).x, NodeAt(bs, b, i).y, NodeAt(bs, b, i).z, l)
  }

  /** No two filled nodes share an atlas slot. */
  ghost predicate SlotsDistinct(bs: seq<seq<SpritePosition>>)
  {
    forall b1, i1, b2, i2 ::
      0 <= b1 < |bs| && 0 <= i1 < |bs[b1]| && 0 <= b2 < |bs| && 0 <= i2 < |bs[b2]|
      && NodeAt(bs, b1, i1).filled && NodeAt(bs, b2, i2).filled && (b1, i1) != (b2, i2)
      ==> (NodeAt(bs, b1, i1).x, NodeAt(bs, b1, i1).y, NodeAt(bs, b1, i1).z) != (NodeAt(bs, b2, i2).x, NodeAt(bs, b2, i2).y, NodeAt(bs, b2, i2).z)
  }

  /** Every slot handed out lies inside the layer cap. */
  ghost predicate SlotsInCap(bs: seq<seq<SpritePosition>>, cap: nat)
  {
    forall b, i :: 0 <= b < |bs| && 0 <= i < |bs[b]| && NodeAt(bs, b, i).filled ==> NodeAt(bs, b, i).z < cap
  }

  /** The invariant of a font's sprite map against the font group's tracker. */
  ghost predicate TableInv(bs: seq<seq<SpritePosition>>, l: Layout, cap: nat)
  {
    && |bs| == CACHE_SIZE && ValidLayout(l)
    && (forall b :: 0 <= b < |bs| ==> |bs[b]| >= 1 && FilledPrefix(bs[b]) && DistinctKeys(bs[b]))
    && InOwnBucket(bs) && SlotsIssued(bs, l) && SlotsDistinct(bs) && SlotsInCap(bs, cap)
  }

  /** A fresh table: one zeroed head per bucket. */
  function EmptyTable(): (bs: seq<seq<SpritePosition>>)
    ensures forall l: Layout, cap: nat :: ValidLayout(l) ==> TableInv(bs, l, cap)
  {
    seq(CACHE_SIZE, _ => [EMPTY_NODE])
  }

  // ---------------------------------------------------------------------
  // Properties of a lookup

  /** A hit or a fill returns a filled node of the key's bucket that carries the key. */
  lemma LocateReturnsKey(bs: seq<seq<SpritePosition>>, l: Layout, cap: nat, k: Key)
    requires TableInv(bs, l, cap)
    ensures var r := Locate(bs, l, cap, k); var b := BucketOf(k.glyph);
      r.found.Some? ==> r.found.value < |r.buckets[b]| && r.buckets[b][r.found.value].filled
                        && Matches(r.buckets[b][r.found.value], k)
  {
    var b := BucketOf(k.glyph);
    var p := Walk(bs[b], k, 0);
    if p.Miss? {
      MatchesIsKeyEquality(FilledNode(k, l), k);
    }
  }

  /**
   * A hit changes nothing; a miss inside the cap fills exactly one node (the
   * first free one of the bucket) with the pre-increment tracker position and
   * advances the tracker exactly one slot; a miss at the cap changes nothing.
   */
  lemma LocateEffect(bs: seq<seq<SpritePosition>>, l: Layout, cap: nat, k: Key)
    requires TableInv(bs, l, cap)
    ensures var r := Locate(bs, l, cap, k); var b := BucketOf(k.glyph);
      && (r.found.None? <==> r.exhausted)
      && (r.exhausted ==> r.buckets == bs && r.layout == l && l.z >= cap)
      && (r.found.Some? && r.layout == l ==> r.buckets == bs)
      && (r.layout != l ==>
            && Linear(r.layout) == Linear(l) + 1
            && (forall c :: 0 <= c < CACHE_SIZE && c != b ==> r.buckets[c] == bs[c])
            && (forall j :: 0 <= j < |bs[b]| && j != r.found.value ==> r.buckets[b][j] == bs[b][j])
            && r.buckets[b][r.found.value] == FilledNode(k, l)
            && (r.found.value < |bs[b]| ==> !bs[b][r.found.value].filled))
  {
    NextAdvancesOne(l, cap);
  }

  /** Looking the same key up again is a hit on the same node and changes nothing. */
  lemma {:induction false} LocateIdempotent(bs: seq<seq<SpritePosition>>, l: Layout, cap: nat, k: Key)
    requires TableInv(bs, l, cap)
    ensures var r := Locate(bs, l, cap, k);
      var r2 := Locate(r.buckets, r.layout, cap, k);
      r2 == Lookup(r.buckets, r.layout, r.found, r.exhausted && r2.exhausted)
      && (r.found.Some? ==> !r2.exhausted)
  {
    var b := BucketOf(k.glyph);
    var p := Walk(bs[b], k, 0);
    var r := Locate(bs, l, cap, k);
    if p.Miss? && r.found.Some? {
      var chain := r.buckets[b];
      WalkReachesStored(bs[b], k, p.index, FilledNode(k, l));
      assert Walk(chain, k, 0) == Hit(p.index);
    }
  }

  /** After the first free node is filled with k, the walk for k stops there. */
  lemma {:induction false} WalkReachesStored(chain: seq<SpritePosition>, k: Key, i: nat, n: SpritePosition)
    requires i <= |chain| && Walk(chain, k, 0) == Miss(i)
    requires n.filled && Matches(n, k)
    ensures Walk(Store(chain, i, n), k, 0) == Hit(i)
  {
    var c := Store(chain, i, n);
    forall m | 0 <= m < i
      ensures ChainAt(c, m) == ChainAt(chain, m)
    {
    }
    WalkPrefix(c, k, 0, i);
  }

  /** If the nodes [j, i) are filled non-matches and node i is a filled match, the walk from j stops at i. */
  lemma {:induction false} WalkPrefix(c: seq<SpritePosition>, k: Key, j: nat, i: nat)
    requires j <= i < |c|
    requires forall m :: j <= m < i ==> ChainAt(c, m).filled && !Matches(ChainAt(c, m), k)
    requires c[i].filled && Matches(c[i], k)
    ensures Walk(c, k, j) == Hit(i)
    decreases i - j
  {
    if j < i {
      assert ChainAt(c, j).filled;
      WalkPrefix(c, k, j + 1, i);
    }
  }

  /** A lookup keeps the table invariant: filled prefix, one node per key, distinct slots below the tracker. */
  lemma {:induction false} LocateKeepsInv(bs: seq<seq<SpritePosition>>, l: Layout, cap: nat, k: Key)
    requires TableInv(bs, l, cap)
    ensures var r := Locate(bs, l, cap, k); TableInv(r.buckets, r.layout, cap)
  {
    var b := BucketOf(k.glyph);
    var p := Walk(bs[b], k, 0);
    var r := Locate(bs, l, cap, k);
    if p.Miss? && r.found.Some? {
      var n := FilledNode(k, l);
      assert r.buckets == bs[b := Store(bs[b], p.index, n)];
      MatchesIsKeyEquality(n, k);
      FillKeepsChain(bs[b], k, n);
      FillKeepsSlotsIssued(bs, b, p.index, n, l, r.layout);
      FillKeepsSlotsDistinct(bs, b, p.index, n, l);
    }
  }

  /** In a chain with a filled prefix, no node after a free node is filled. */
  lemma FreeNodeEndsChain(chain: seq<SpritePosition>, i: nat, q: nat)
    requires FilledPrefix(chain) && i < q < |chain| && !chain[i].filled
    ensures !chain[q].filled
  {
    assert ChainAt(chain, q).filled ==> ChainAt(chain, i).filled;
  }

  /** Filling the first free node with a key the walk did not find keeps the chain's filled prefix and distinct keys. */
  lemma FillKeepsChain(chain: seq<SpritePosition>, k: Key, n: SpritePosition)
    requires Walk(chain, k, 0).Miss? && FilledPrefix(chain) && DistinctKeys(chain)
    requires n.filled && Matches(n, k)
    ensures var c := Store(chain, Walk(chain, k, 0).index, n); FilledPrefix(c) && DistinctKeys(c)
  {
    var i := Walk(chain, k, 0).index;
    var c := Store(chain, i, n);
    forall p, q | 0 <= p < q < |c| && ChainAt(c, q).filled
      ensures ChainAt(c, p).filled
    {
      if q != i && p != i {
        assert ChainAt(c, q) == ChainAt(chain, q) && ChainAt(c, p) == ChainAt(chain, p);
      } else if q == i {
        assert ChainAt(c, p) == ChainAt(chain, p);
      }
    }
    forall p, q | 0 <= p < q < |c| && ChainAt(c, p).filled && ChainAt(c, q).filled
      ensures KeyOf(ChainAt(c, p)) != KeyOf(ChainAt(c, q))
    {
      MatchesIsKeyEquality(n, k);
      if q == i {
        assert ChainAt(c, p) == ChainAt(chain, p);
        MatchesIsKeyEquality(chain[p], k);
      } else if p == i {
        FreeNodeEndsChain(chain, i, q);
        assert false;
      } else {
        assert ChainAt(c, q) == ChainAt(chain, q) && ChainAt(c, p) == ChainAt(chain, p);
      }
    }
  }

  /** Filling a free node with the tracker's slot and advancing the tracker keeps every slot below the tracker. */
  lemma FillKeepsSlotsIssued(bs: seq<seq<SpritePosition>>, b: nat, i: nat, n: SpritePosition, l: Layout, l': Layout)
    requires b < |bs| && i <= |bs[b]| && SlotsIssued(bs, l) && ValidLayout(l)
    requires (n.x, n.y, n.z) == (l.x, l.y, l.z)
    requires l'.xnum == l.xnum && l'.maxY == l.maxY && SlotBefore(l.x, l.y, l.z, l')
    requires forall x: nat, y: nat, z: nat :: SlotBefore(x, y, z, l) ==> SlotBefore(x, y, z, l')
    ensures SlotsIssued(bs[b := Store(bs[b], i, n)], l')
  {
    var bs': seq<seq<SpritePosition>> := bs[b := Store(bs[b], i, n)];
    forall c0, j | 0 <= c0 < |bs'| && 0 <= j < |bs'[c0]| && NodeAt(bs', c0, j).filled
      ensures NodeAt(bs', c0, j).x < l'.xnum && NodeAt(bs', c0, j).y < l'.maxY
        && SlotBefore(NodeAt(bs', c0, j).x, NodeAt(bs', c0, j).y, NodeAt(bs', c0, j).z, l')
    {
      if c0 != b || j != i {
        assert NodeAt(bs', c0, j) == NodeAt(bs, c0, j);
      }
    }
  }

  /** The tracker's slot is held by no filled node, so filling a free node with it keeps slots distinct. */
  lemma FillKeepsSlotsDistinct(bs: seq<seq<SpritePosition>>, b: nat, i: nat, n: SpritePosition, l: Layout)
    requires b < |bs| && i <= |bs[b]| && (i < |bs[b]| ==> !bs[b][i].filled)
    requires SlotsIssued(bs, l) && SlotsDistinct(bs) && ValidLayout(l)
    requires (n.x, n.y, n.z) == (l.x, l.y, l.z)
    ensures SlotsDistinct(bs[b := Store(bs[b], i, n)])
  {
    var bs': seq<seq<SpritePosition>> := bs[b := Store(bs[b], i, n)];
    forall b1, i1, b2, i2 |
      0 <= b1 < |bs'| && 0 <= i1 < |bs'[b1]| && 0 <= b2 < |bs'| && 0 <= i2 < |bs'[b2]|
      && NodeAt(bs', b1, i1).filled && NodeAt(bs', b2, i2).filled && (b1, i1) != (b2, i2)
      ensures (NodeAt(bs', b1, i1).x, NodeAt(bs', b1, i1).y, NodeAt(bs', b1, i1).z)
           != (NodeAt(bs', b2, i2).x, NodeAt(bs', b2, i2).y, NodeAt(bs', b2, i2).z)
    {
      if (b1, i1) == (b, i) {
        assert NodeAt(bs', b2, i2) == NodeAt(bs, b2, i2);
      } else if (b2, i2) == (b, i) {
        assert NodeAt(bs', b1, i1) == NodeAt(bs, b1, i1);
      } else {
        assert NodeAt(bs', b1, i1) == NodeAt(bs, b1, i1) && NodeAt(bs', b2, i2) == NodeAt(bs, b2, i2);
      }
    }
  }

  // ---------------------------------------------------------------------
  // The table as the font holds it

  /** A cleared node: clear_sprite_position_impl. */
  function Cleared(n: SpritePosition): (r: SpritePosition)
    ensures !r.filled && !r.rendered && !r.colored
  {
    EMPTY_NODE
  }

  /** `Font.sprite_map`: 1024 chain heads, each chain grown in place. */
  class SpriteMap {
    const buckets: array<seq<SpritePosition>>

    ghost predicate Valid(l: Layout, cap: nat)
      reads this, buckets
    {
      buckets.Length == CACHE_SIZE && TableInv(buckets[..], l, cap)
    }

    /** A new font's map: every head zeroed. */
    constructor ()
      ensures buckets.Length == CACHE_SIZE && buckets[..] == EmptyTable()
      ensures fresh(buckets)
    {
      buckets := new seq<SpritePosition>[CACHE_SIZE](_ => [EMPTY_NODE]);
    }

    /**
     * sprite_position_for (with the corrected allocator). Returns the index of
     * the node within the bucket of `k.glyph`, or None with error 2 set.
     */
    method PositionFor(t: Tracker, cap: nat, k: Key) returns (found: Option<nat>, exhausted: bool)
      requires Valid(t.State(), cap) && t.Valid()
      modifies buckets, t
      ensures Valid(t.State(), cap) && t.Valid()
      ensures var r := Locate(old(buckets[..]), old(t.State()), cap, k);
        buckets[..] == r.buckets && t.State() == r.layout && found == r.found && exhausted == r.exhausted
    {
      ghost var bs, l := buckets[..], t.State();
      var b := k.glyph % CACHE_SIZE;
      var chain := buckets[b];
      // Fast path: the head node already holds the key.
      if chain[0].glyph == k.glyph && chain[0].filled && ExtraGlyphsEqual(chain[0].extraGlyphs, k.extra)
         && chain[0].ligatureIndex == k.ligatureIndex {
        return Some(0), false;
      }
      var i := 0;
      while i < |chain| && chain[i].filled && !Matches(chain[i], k)
        invariant 0 <= i <= |chain|
        invariant Walk(chain, k, i) == Walk(chain, k, 0)
      {
        i := i + 1;
      }
      if i < |chain| && chain[i].filled {
        return Some(i), false;
      }
      if t.z >= cap {
        return None, true;
      }
      buckets[b] := Store(chain, i, FilledNode(k, t.State()));
      var _ := t.Increment(cap);
      found, exhausted := Some(i), false;
      LocateKeepsInv(bs, l, cap, k);
    }

    /**
     * sprite_position_for as written: the slot is taken from the tracker
     * whatever its layer, and error 2 is the one do_increment reports.
     */
    method PositionForAsWritten(t: Tracker, cap: nat, k: Key) returns (found: Option<nat>, exhausted: bool)
      requires buckets.Length == CACHE_SIZE && t.Valid()
      modifies buckets, t
      ensures t.Valid()
      ensures var r := LocateAsWritten(old(buckets[..]), old(t.State()), cap, k);
        buckets[..] == r.buckets && t.State() == r.layout && found == r.found && exhausted == r.exhausted
    {
      var b := k.glyph % CACHE_SIZE;
      var chain := buckets[b];
      var i := 0;
      while i < |chain| && chain[i].filled && !Matches(chain[i], k)
        invariant 0 <= i <= |chain|
        invariant Walk(chain, k, i) == Walk(chain, k, 0)
      {
        i := i + 1;
      }
      if i < |chain| && chain[i].filled {
        return Some(i), false;
      }
      buckets[b] := Store(chain, i, FilledNode(k, t.State()));
      exhausted := t.Increment(cap);
      found := Some(i);
    }

    /** clear_sprite_map: every node of every chain is cleared; the chains are kept. */
    method Clear(ghost l: Layout, cap: nat)
      requires Valid(l, cap)
      modifies buckets
      ensures Valid(l, cap)
      ensures forall b :: 0 <= b < CACHE_SIZE ==>
        |buckets[b]| == |old(buckets[b])| && forall i :: 0 <= i < |buckets[b]| ==> buckets[b][i] == Cleared(old(buckets[b][i]))
    {
      var b := 0;
      while b < CACHE_SIZE
        invariant 0 <= b <= CACHE_SIZE
        invariant forall c :: b <= c < CACHE_SIZE ==> buckets[c] == old(buckets[c])
        invariant forall c :: 0 <= c < b ==>
          |buckets[c]| == |old(buckets[c])| && forall i :: 0 <= i < |buckets[c]| ==> buckets[c][i] == EMPTY_NODE
      {
        var chain := buckets[b];
        var cleared: seq<SpritePosition> := [];
        var i := 0;
        while i < |chain|
          invariant 0 <= i <= |chain| && |cleared| == i
          invariant forall j :: 0 <= j < i ==> cleared[j] == EMPTY_NODE
        {
          cleared := cleared + [Cleared(chain[i])];
          i := i + 1;
        }
        buckets[b] := cleared;
        b := b + 1;
      }
    }

    /** free_sprite_positions: the overflow nodes are released and every head is zeroed. */
    method Free(ghost l: Layout, cap: nat)
      requires ValidLayout(l)
      requires buckets.Length == CACHE_SIZE
      modifies buckets
      ensures Valid(l, cap) && buckets[..] == EmptyTable()
    {
      var b := 0;
      while b < CACHE_SIZE
        invariant 0 <= b <= CACHE_SIZE
        invariant forall c :: 0 <= c < b ==> buckets[c] == [EMPTY_NODE]
      {
        buckets[b] := [EMPTY_NODE];
        b := b + 1;
      }
    }
  }
}

/** The sprite lookup as written compared with the corrected one. */
module SpriteCacheFindings {
  import opened Common
  import opened SpriteTracker
  import opened SpriteCache

  const NO_EXTRA: ExtraGlyphs := [0, 0, 0, 0, 0, 0, 0, 0]

  /**
   * With two slots per layer and one layer allowed, a new glyph looked up
   * when one slot is left gets that valid slot (1, 0, 0), yet as written the
   * lookup reports error 2 with it; the corrected lookup reports no error.
   */
  lemma AsWrittenReportsErrorWithLastSlot()
    ensures var l, k := Layout(1, 0, 0, 2, 1, 1), Key(5, NO_EXTRA, 0);
      var w, c := LocateAsWritten(EmptyTable(), l, 1, k), Locate(EmptyTable(), l, 1, k);
      && w.exhausted && w.found == Some(0) && w.buckets[5][0].x == 1 && w.buckets[5][0].z == 0
      && !c.exhausted && c.found == Some(0) && c.buckets[5][0] == w.buckets[5][0]
  {
    var l, k := Layout(1, 0, 0, 2, 1, 1), Key(5, NO_EXTRA, 0);
    assert EmptyTable()[5] == [EMPTY_NODE];
    assert Walk([EMPTY_NODE], k, 0) == Miss(0);
    assert Next(l, 1) == Step(Layout(0, 0, 1, 2, 1, 1), true);
  }

  /**
   * Once the tracker has reached layer 1 (the cap), the next new glyph is
   * given a node in layer 1 with no error as written; the corrected lookup
   * allocates nothing and reports error 2.
   */
  lemma AsWrittenFillsBeyondCap()
    ensures var l, k := Layout(0, 0, 1, 2, 1, 1), Key(5, NO_EXTRA, 0);
      var w, c := LocateAsWritten(EmptyTable(), l, 1, k), Locate(EmptyTable(), l, 1, k);
      && !w.exhausted && w.found == Some(0) && w.buckets[5][0].z == 1
      && c.exhausted && c.found.None? && c.buckets == EmptyTable()
  {
    var l, k := Layout(0, 0, 1, 2, 1, 1), Key(5, NO_EXTRA, 0);
    assert EmptyTable()[5] == [EMPTY_NODE];
    assert Walk([EMPTY_NODE], k, 0) == Miss(0);
    assert Next(l, 1) == Step(Layout(1, 0, 1, 2, 1, 1), false);
  }
}
