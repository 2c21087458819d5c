/**
 * The per-font special-glyph cache of kitty/fonts.c: for every glyph it
 * memoises two classifications, "special" (the glyph is not the face's glyph
 * for the cell's current codepoint) and "empty" (the glyph draws nothing), in
 * the bits of one byte. Like the sprite map it is a table of 1024 chain heads
 * indexed by `glyph & 0x3ff`; a chain is the sequence of its nodes.
 */
module SpecialCache {
  import opened Common

  const CACHE_SIZE: nat := 1024

  const SPECIAL_FILLED_MASK: bv8 := 1
  const SPECIAL_VALUE_MASK: bv8 := 2
  const EMPTY_FILLED_MASK: bv8 := 4
  const EMPTY_VALUE_MASK: bv8 := 8

  /** Which of the two memoised classifications a query is about. */
  datatype Kind = Special | Empty

  function FilledMask(k: Kind): bv8
  {
    if k == Special then SPECIAL_FILLED_MASK else EMPTY_FILLED_MASK
  }

  function ValueMask(k: Kind): bv8
  {
    if k == Special then SPECIAL_VALUE_MASK else EMPTY_VALUE_MASK
  }

  /** SpecialGlyphCache without its `next` link. */
  datatype CacheNode = CacheNode(glyph: nat, data: bv8)

  const ZERO_NODE: CacheNode := CacheNode(0, 0)

  /** `glyph & 0x3ff` for a non-negative glyph. */
  function BucketOf(glyph: nat): (b: nat)
    ensures b < CACHE_SIZE
  {
    glyph % CACHE_SIZE
  }

  /** Writes node n at index i, appending when i is one past the end. */
  function Store(chain: seq<CacheNode>, i: nat, n: CacheNode): (r: seq<CacheNode>)
    requires i <= |chain|
    ensures |r| == if i == |chain| then |chain| + 1 else |chain|
    ensures r[i] == n && forall j :: 0 <= j < |chain| && j != i ==> r[j] == chain[j]
  {
    if i == |chain| then chain + [n] else chain[i := n]
  }

  // ---------------------------------------------------------------------
  // The walk as written and the corrected walk

  /**
   * The walk of special_glyph_cache_for as written: a node whose bits for the
   * queried mask are clear and whose glyph is 0 counts as free, even when it
   * holds the other classification of glyph 0.
   */
  function WalkAsWritten(chain: seq<CacheNode>, g: nat, mask: bv8, i: nat): (r: nat)
    requires i <= |chain|
    ensures i <= r <= |chain|
    decreases |chain| - i
  {
    if i == |chain| then i
    else if chain[i].data & mask != 0 then
      (if chain[i].glyph == g then i else WalkAsWritten(chain, g, mask, i + 1))
    else if chain[i].glyph == 0 then i
    else if chain[i].glyph == g then i
    else WalkAsWritten(chain, g, mask, i + 1)
  }

  /** A node is in use once either classification has been recorded in it. */
  predicate Used(n: CacheNode)
  {
    n.data != 0
  }

  /**
   * The corrected walk: stop at the node of glyph g (whichever classification
   * it holds) or at the first node that has never been used.
   */
  function Walk(chain: seq<CacheNode>, g: nat, i: nat): (r: nat)
    requires i <= |chain|
    ensures i <= r <= |chain|
    ensures forall j :: i <= j < r ==> Used(chain[j]) && chain[j].glyph != g
    ensures r < |chain| ==> !Used(chain[r]) || chain[r].glyph == g
    decreases |chain| - i
  {
    if i == |chain| then i
    else if !Used(chain[i]) then i
    else if chain[i].glyph == g then i
    else Walk(chain, g, i + 1)
  }

  /** The walk's stopping point is the only index with its two properties. */
  lemma WalkIsFirstStop(chain: seq<CacheNode>, g: nat, j: nat)
    requires j <= |chain|
    requires forall m :: 0 <= m < j ==> Used(chain[m]) && chain[m].glyph != g
    requires j < |chain| ==> !Used(chain[j]) || chain[j].glyph == g
    ensures Walk(chain, g, 0) == j
  {
  }

  // ---------------------------------------------------------------------
  // A query: special_glyph_cache_for followed by is_special_glyph / is_empty_glyph

  /** The result of one query: the new table and the answer. */
  datatype Answer = Answer(buckets: seq<seq<CacheNode>>, value: bool)

  /** Records `v` in a node unless the node already holds this classification. */
  function Classify(n: CacheNode, k: Kind, v: bool): (r: CacheNode)
    ensures r.glyph == n.glyph
    ensures r.data & FilledMask(k) != 0
    ensures n.data & FilledMask(k) != 0 ==> r == n
    ensures n.data & FilledMask(k) == 0 ==> (r.data & ValueMask(k) != 0 <==> v || n.data & ValueMask(k) != 0)
  {
    if n.data & FilledMask(k) == 0 then n.(data := n.data | (if v then ValueMask(k) else 0) | FilledMask(k))
    else n
  }

  /** A query as written: the node found by the as-written walk gets the glyph, then the classification. */
  function QueryAsWritten(bs: seq<seq<CacheNode>>, g: nat, k: Kind, v: bool): (r: Answer)
    requires |bs| == CACHE_SIZE
    ensures |r.buckets| == CACHE_SIZE
  {
    var b := BucketOf(g);
    var i := WalkAsWritten(bs[b], g, FilledMask(k), 0);
    var n := Classify((if i < |bs[b]| then bs[b][i] else ZERO_NODE).(glyph := g), k, v);
    Answer(bs[b := Store(bs[b], i, n)], n.data & ValueMask(k) != 0)
  }

  /**
   * A query with the corrected walk. `v` is what the caller computes on a
   * miss: for Special, `codepoint != 0 && glyph != glyph_id_for_codepoint`;
   * for Empty, `is_glyph_empty`.
   */
  function Query(bs: seq<seq<CacheNode>>, g: nat, k: Kind, v: bool): (r: Answer)
    requires |bs| == CACHE_SIZE
    ensures |r.buckets| == CACHE_SIZE
  {
    var b := BucketOf(g);
    var i := Walk(bs[b], g, 0);
    var n := Classify((if i < |bs[b]| then bs[b][i] else ZERO_NODE).(glyph := g), k, v);
    Answer(bs[b := Store(bs[b], i, n)], n.data & ValueMask(k) != 0)
  }

  /** The classification of g recorded in the table, if any. */
  function Recorded(bs: seq<seq<CacheNode>>, g: nat, k: Kind): Option<bool>
    requires |bs| == CACHE_SIZE
  {
    var chain := bs[BucketOf(g)];
    var i := Walk(chain, g, 0);
    if i < |chain| && Used(chain[i]) && chain[i].data & FilledMask(k) != 0
    then Some(chain[i].data & ValueMask(k) != 0)
    else None
  }

  /** The bits a node may hold. */
  predicate WellFormed(n: CacheNode)
  {
    && n.data & 0xF0 == 0
    && (n.data & SPECIAL_VALUE_MASK != 0 ==> n.data & SPECIAL_FILLED_MASK != 0)
    && (n.data & EMPTY_VALUE_MASK != 0 ==> n.data & EMPTY_FILLED_MASK != 0)
  }

  /** The invariant of the corrected table. */
  ghost predicate TableInv(bs: seq<seq<CacheNode>>)
  {
    && |bs| == CACHE_SIZE
    && forall b :: 0 <= b < CACHE_SIZE ==>
      && |bs[b]| >= 1
      && (forall i :: 0 <= i < |bs[b]| ==> WellFormed(bs[b][i]))
      && (forall i, j :: 0 <= i < j < |bs[b]| && Used(bs[b][j]) ==> Used(bs[b][i]))
      && (forall i, j :: 0 <= i < j < |bs[b]| && Used(bs[b][i]) && Used(bs[b][j]) ==> bs[b][i].glyph != bs[b][j].glyph)
      && (forall i :: 0 <= i < |bs[b]| && Used(bs[b][i]) ==> BucketOf(bs[b][i].glyph) == b)
  }

  /** A table of zeroed heads. */
  function EmptyTable(): (bs: seq<seq<CacheNode>>)
    ensures TableInv(bs)
    ensures forall g: nat, k: Kind :: Recorded(bs, g, k) == None
  {
    seq(CACHE_SIZE, _ => [ZERO_NODE])
  }

  /** A query answers the recorded classification if there is one and `v` otherwise, and records its answer. */
  lemma QueryAnswer(bs: seq<seq<CacheNode>>, g: nat, k: Kind, v: bool)
    requires TableInv(bs)
    ensures var r := Query(bs, g, k, v);
      && r.value == (if Recorded(bs, g, k).Some? then Recorded(bs, g, k).value else v)
      && Recorded(r.buckets, g, k) == Some(r.value)
  {
    var b := BucketOf(g);
    var i := Walk(bs[b], g, 0);
    var r := Query(bs, g, k, v);
    var c := r.buckets[b];
    assert c == Store(bs[b], i, c[i]);
    WalkIsFirstStop(c, g, i);
  }

  /** Asking again, with whatever value the caller would compute, gives the same answer and changes nothing. */
  lemma QueryMemoised(bs: seq<seq<CacheNode>>, g: nat, k: Kind, v: bool, v2: bool)
    requires TableInv(bs)
    ensures var r := Query(bs, g, k, v); Query(r.buckets, g, k, v2) == r
  {
    var b := BucketOf(g);
    var i := Walk(bs[b], g, 0);
    var r := Query(bs, g, k, v);
    var c := r.buckets[b];
    WalkIsFirstStop(c, g, i);
    assert Store(c, i, c[i]) == c;
    assert r.buckets[b := c] == r.buckets;
  }

  /** A query keeps the table invariant. */
  lemma QueryKeepsInv(bs: seq<seq<CacheNode>>, g: nat, k: Kind, v: bool)
    requires TableInv(bs)
    ensures TableInv(Query(bs, g, k, v).buckets)
  {
    var b := BucketOf(g);
    var i := Walk(bs[b], g, 0);
    var r := Query(bs, g, k, v);
    var c := r.buckets[b];
    assert Used(c[i]);
    forall x, y | 0 <= x < y < |c| && Used(c[x]) && Used(c[y])
      ensures c[x].glyph != c[y].glyph
    {
      if x == i {
        assert i < |bs[b]| && Used(bs[b][y]);
      }
    }
  }

  /** A query leaves every other recorded classification as it was. */
  lemma QueryKeepsOthers(bs: seq<seq<CacheNode>>, g: nat, k: Kind, v: bool, g2: nat, k2: Kind)
    requires TableInv(bs)
    requires g2 != g || k2 != k
    ensures Recorded(Query(bs, g, k, v).buckets, g2, k2) == Recorded(bs, g2, k2)
  {
    var b := BucketOf(g);
    if BucketOf(g2) == b {
      if g2 == g {
        QueryKeepsOtherKind(bs, g, k, v, k2);
      } else {
        QueryKeepsOtherGlyph(bs, g, k, v, g2, k2);
      }
    }
  }

  /** The other classification of the same glyph is untouched. */
  lemma QueryKeepsOtherKind(bs: seq<seq<CacheNode>>, g: nat, k: Kind, v: bool, k2: Kind)
    requires TableInv(bs) && k2 != k
    ensures Recorded(Query(bs, g, k, v).buckets, g, k2) == Recorded(bs, g, k2)
  {
    var b := BucketOf(g);
    var i := Walk(bs[b], g, 0);
    var c := Query(bs, g, k, v).buckets[b];
    WalkIsFirstStop(c, g, i);
    var n := (if i < |bs[b]| then bs[b][i] else ZERO_NODE);
    assert WellFormed(n);
    assert c[i].data & FilledMask(k2) == n.data & FilledMask(k2);
    assert c[i].data & ValueMask(k2) == n.data & ValueMask(k2);
  }

  /** Another glyph of the same bucket keeps its record. */
  lemma QueryKeepsOtherGlyph(bs: seq<seq<CacheNode>>, g: nat, k: Kind, v: bool, g2: nat, k2: Kind)
    requires TableInv(bs) && g2 != g && BucketOf(g2) == BucketOf(g)
    ensures Recorded(Query(bs, g, k, v).buckets, g2, k2) == Recorded(bs, g2, k2)
  {
    var b := BucketOf(g);
    var i := Walk(bs[b], g, 0);
    var c := Query(bs, g, k, v).buckets[b];
    var j := Walk(bs[b], g2, 0);
    assert Used(c[i]) && c[i].glyph == g;
    if j < i {
      WalkIsFirstStop(c, g2, j);
    } else if i < |bs[b]| && Used(bs[b][i]) {
      assert j > i;
      WalkIsFirstStop(c, g2, j);
    } else {
      assert j == i;
      var j2 := i + 1;
      assert j2 < |c| ==> !Used(c[j2]) by {
        if j2 < |c| {
          assert j2 < |bs[b]| && c[j2] == bs[b][j2];
          assert !Used(bs[b][i]);
        }
      }
      WalkIsFirstStop(c, g2, j2);
    }
  }

  /**
   * The discrepancy of the walk as written: after glyph 0 is classified
   * non-special, glyph 1024 (same bucket) is classified special in a second
   * node; the empty-glyph query for 1024 then takes over glyph 0's node,
   * whose special bits say "not special", and the next special query for
   * 1024 answers from it.
   */
  lemma AsWrittenForgetsSpecial()
    ensures var t0 := seq(CACHE_SIZE, _ => [ZERO_NODE]);
      var r1 := QueryAsWritten(t0, 0, Special, false);
      var r2 := QueryAsWritten(r1.buckets, 1024, Special, true);
      var r3 := QueryAsWritten(r2.buckets, 1024, Empty, false);
      var r4 := QueryAsWritten(r3.buckets, 1024, Special, true);
      r2.value && !r4.value
  {
    var t0 := seq(CACHE_SIZE, _ => [ZERO_NODE]);
    var r1 := QueryAsWritten(t0, 0, Special, false);
    assert r1.buckets[0] == [CacheNode(0, 1)];
    var r2 := QueryAsWritten(r1.buckets, 1024, Special, true);
    assert r2.buckets[0] == [CacheNode(0, 1), CacheNode(1024, 3)];
    var r3 := QueryAsWritten(r2.buckets, 1024, Empty, false);
    assert r3.buckets[0] == [CacheNode(1024, 5), CacheNode(1024, 3)];
  }

  /** Classifying glyph 0 in the empty table records nothing about glyph 1024, which shares its bucket. */
  lemma FirstQueryLeaves1024()
    ensures var r1 := Query(EmptyTable(), 0, Special, false);
      TableInv(r1.buckets) && Recorded(r1.buckets, 1024, Special) == None
  {
    var t0 := EmptyTable();
    var r1 := Query(t0, 0, Special, false);
    QueryKeepsInv(t0, 0, Special, false);
    assert r1.buckets[0] == [CacheNode(0, 1)];
    WalkIsFirstStop(r1.buckets[0], 1024, 1);
  }

  /** With the corrected walk, glyph 1024 classified special after glyph 0 is recorded as special. */
  lemma CorrectedRecordsSpecial()
    ensures var r1 := Query(EmptyTable(), 0, Special, false);
      var r2 := Query(r1.buckets, 1024, Special, true);
      TableInv(r2.buckets) && r2.value && Recorded(r2.buckets, 1024, Special) == Some(true)
  {
    var r1 := Query(EmptyTable(), 0, Special, false);
    FirstQueryLeaves1024();
    QueryAnswer(r1.buckets, 1024, Special, true);
    QueryKeepsInv(r1.buckets, 1024, Special, true);
  }

  /** The corrected walk answers the same sequence of queries consistently. */
  lemma CorrectedRemembersSpecial()
    ensures var t0 := EmptyTable();
      var r1 := Query(t0, 0, Special, false);
      var r2 := Query(r1.buckets, 1024, Special, true);
      var r3 := Query(r2.buckets, 1024, Empty, false);
      var r4 := Query(r3.buckets, 1024, Special, true);
      r2.value && r4.value
  {
    var r1 := Query(EmptyTable(), 0, Special, false);
    var r2 := Query(r1.buckets, 1024, Special, true);
    CorrectedRecordsSpecial();
    var r3 := Query(r2.buckets, 1024, Empty, false);
    QueryKeepsOthers(r2.buckets, 1024, Empty, false, 1024, Special);
    QueryKeepsInv(r2.buckets, 1024, Empty, false);
    QueryAnswer(r3.buckets, 1024, Special, true);
  }

  // ---------------------------------------------------------------------
  // The table as the font holds it

  /** `Font.special_glyph_cache`. */
  class SpecialGlyphCache {
    const buckets: array<seq<CacheNode>>

    ghost predicate Valid()
      reads this, buckets
    {
      buckets.Length == CACHE_SIZE && TableInv(buckets[..])
    }

    constructor ()
      ensures Valid() && buckets[..] == EmptyTable() && fresh(buckets)
    {
      buckets := new seq<CacheNode>[CACHE_SIZE](_ => [ZERO_NODE]);
    }

    /**
     * special_glyph_cache_for with the corrected free-node test: returns the
     * index, within the bucket of g, of the node now carrying glyph g.
     */
    method CacheFor(g: nat, mask: bv8) returns (i: nat)
      requires Valid()
      modifies buckets
      ensures var b := BucketOf(g); var c := old(buckets[b]);
        && i == Walk(c, g, 0)
        && buckets[..] == old(buckets[..])[b := Store(c, i, (if i < |c| then c[i] else ZERO_NODE).(glyph := g))]
    {
      var b := g % CACHE_SIZE;
      var chain := buckets[b];
      if chain[0].glyph == g && chain[0].data & mask != 0 {
        assert Store(chain, 0, chain[0].(glyph := g)) == chain;
        assert buckets[..][b := chain] == buckets[..];
        return 0;
      }
      i := 0;
      while i < |chain|
        invariant 0 <= i <= |chain|
        invariant Walk(chain, g, i) == Walk(chain, g, 0)
      {
        if chain[i].data & mask != 0 {
          if chain[i].glyph == g {
            assert Store(chain, i, chain[i].(glyph := g)) == chain;
            assert buckets[..][b := chain] == buckets[..];
            return;
          }
        } else if chain[i].data == 0 {
          break;
        } else if chain[i].glyph == g {
          assert Store(chain, i, chain[i].(glyph := g)) == chain;
          assert buckets[..][b := chain] == buckets[..];
          return;
        }
        i := i + 1;
      }
      var n := if i < |chain| then chain[i] else ZERO_NODE;
      buckets[b] := Store(chain, i, n.(glyph := g));
    }

    /** is_special_glyph: the memoised "glyph differs from the face's glyph for the current codepoint". */
    method IsSpecialGlyph(g: nat, currentCodepoint: nat, glyphIdFor: nat -> nat) returns (special: bool)
      requires Valid()
      modifies buckets
      ensures Valid()
      ensures var v := currentCodepoint != 0 && g != glyphIdFor(currentCodepoint);
        Answer(buckets[..], special) == Query(old(buckets[..]), g, Special, v)
    {
      ghost var bs := buckets[..];
      var v := currentCodepoint != 0 && g != glyphIdFor(currentCodepoint);
      special := Record(g, Special, v);
      QueryKeepsInv(bs, g, Special, v);
    }

    /** is_empty_glyph: the memoised emptiness of the glyph's outline. */
    method IsEmptyGlyph(g: nat, isGlyphEmpty: nat -> bool) returns (empty: bool)
      requires Valid()
      modifies buckets
      ensures Valid()
      ensures Answer(buckets[..], empty) == Query(old(buckets[..]), g, Empty, isGlyphEmpty(g))
    {
      ghost var bs := buckets[..];
      empty := Record(g, Empty, isGlyphEmpty(g));
      QueryKeepsInv(bs, g, Empty, isGlyphEmpty(g));
    }

    /** The shared body of the two classifiers: find the node, fill the bits if unset, read the value bit. */
    method Record(g: nat, k: Kind, v: bool) returns (value: bool)
      requires Valid()
      modifies buckets
      ensures Answer(buckets[..], value) == Query(old(buckets[..]), g, k, v)
    {
      ghost var bs := buckets[..];
      var i := CacheFor(g, FilledMask(k));
      var b := g % CACHE_SIZE;
      ghost var c := bs[b];
      ghost var n0 := (if i < |c| then c[i] else ZERO_NODE).(glyph := g);
      var n := buckets[b][i];
      assert n == n0;
      if n.data & FilledMask(k) == 0 {
        n := n.(data := n.data | (if v then ValueMask(k) else 0) | FilledMask(k));
        buckets[b] := buckets[b][i := n];
      }
      assert n == Classify(n0, k, v);
      assert buckets[b] == Store(c, i, n);
      assert buckets[..] == bs[b := Store(c, i, n)];
      value := n.data & ValueMask(k) != 0;
    }

    /** clear_special_glyph_cache: every node's glyph and data are zeroed; the chains are kept. */
    method Clear()
      requires Valid()
      modifies buckets
      ensures Valid()
      ensures forall b :: 0 <= b < CACHE_SIZE ==>
        |buckets[b]| == |old(buckets[b])| && forall i :: 0 <= i < |buckets[b]| ==> buckets[b][i] == ZERO_NODE
      ensures forall g: nat, k: Kind :: Recorded(buckets[..], g, k) == None
    {
      var b := 0;
      while b < CACHE_SIZE
        invariant 0 <= b <= CACHE_SIZE
        invariant forall c :: b <= c < CACHE_SIZE ==> buckets[c] == old(buckets[c])
        invariant forall c :: 0 <= c < b ==>
          |buckets[c]| == |old(buckets[c])| && forall i :: 0 <= i < |buckets[c]| ==> buckets[c][i] == ZERO_NODE
      {
        var chain := buckets[b];
        var cleared: seq<CacheNode> := [];
        var i := 0;
        while i < |chain|
          invariant 0 <= i <= |chain| && |cleared| == i
          invariant forall j :: 0 <= j < i ==> cleared[j] == ZERO_NODE
        {
          cleared := cleared + [ZERO_NODE];
          i := i + 1;
        }
        buckets[b] := cleared;
        b := b + 1;
      }
      forall g: nat, k: Kind ensures Recorded(buckets[..], g, k) == None {
        WalkIsFirstStop(buckets[BucketOf(g)], g, 0);
      }
    }

    /** free_special_glyph_cache: the overflow nodes are released and every head is zeroed. */
    method Free()
      requires buckets.Length == CACHE_SIZE
      modifies buckets
      ensures Valid() && buckets[..] == EmptyTable()
    {
      var b := 0;
      while b < CACHE_SIZE
        invariant 0 <= b <= CACHE_SIZE
        invariant forall c :: 0 <= c < b ==> buckets[c] == [ZERO_NODE]
      {
        buckets[b] := [ZERO_NODE];
        b := b + 1;
      }
    }
  }
}
