/**
 * Font-name matching on macOS, kitty/fonts/core_text.py: the index of the
 * installed fonts by family, PostScript name and "family style", the
 * memoised index, the choice of the best candidate for a requested family
 * and style, and the resolution of the configured font names.
 *
 * The list of installed fonts (`coretext_all_fonts`) is a parameter.
 */
module CoreTextFonts {
  import opened Common

  /** One installed font as `coretext_all_fonts` describes it; None stands for a missing name. */
  datatype FontDesc = FontDesc(family: Option<string>, style: Option<string>, postscriptName: Option<string>,
                               bold: bool, italic: bool, monospace: bool)

  /**
   * What `find_best_match` returns: an installed font, or the dictionary it
   * makes up when there is no exact match (monospace, the requested style,
   * and a family name for CoreText to resolve).
   */
  datatype Face = Installed(desc: FontDesc) | Requested(family: string, bold: bool, italic: bool)

  function FaceFamily(face: Face): Option<string>
  {
    match face
    case Installed(d) => d.family
    case Requested(f, _, _) => Some(f)
  }

  function FaceBold(face: Face): bool
  {
    match face
    case Installed(d) => d.bold
    case Requested(_, b, _) => b
  }

  function FaceItalic(face: Face): bool
  {
    match face
    case Installed(d) => d.italic
    case Requested(_, _, i) => i
  }

  function FaceMonospace(face: Face): bool
  {
    match face
    case Installed(d) => d.monospace
    case Requested(_, _, _) => true
  }

  // ---------------------------------------------------------------------
  // Normalisation of names.

  /** `str.lower` on ASCII letters. */
  function LowerChar(c: char): char
  {
    if 'A' <= c <= 'Z' then (c as int + 32) as char else c
  }

  function Lower(s: string): string
  {
    seq(|s|, i requires 0 <= i < |s| => LowerChar(s[i]))
  }

  /** The characters Python's `\s` matches in a str pattern (those for which `str.isspace` holds). */
  predicate IsSpace(c: char)
  {
    || c == ' ' || c == '\t' || c == '\n' || c == '\r' || c == '\U{B}' || c == '\U{C}'
    || ('\U{1C}' <= c <= '\U{1F}') || c == '\U{85}' || c == '\U{A0}' || c == '\U{1680}'
    || ('\U{2000}' <= c <= '\U{200A}') || c == '\U{2028}' || c == '\U{2029}' || c == '\U{202F}'
    || c == '\U{205F}' || c == '\U{3000}'
  }

  /** Drops the whitespace at the front of s. */
  function DropSpaces(s: string): (r: string)
    ensures |r| <= |s| && r == s[|s| - |r|..]
    ensures r == [] || !IsSpace(r[0])
  {
    if s != [] && IsSpace(s[0]) then DropSpaces(s[1..]) else s
  }

  /** `re.sub(r'\s+', ' ', s)`: every maximal run of whitespace becomes one space. */
  function Collapse(s: string): string
    decreases |s|
  {
    if s == [] then []
    else if IsSpace(s[0]) then " " + Collapse(DropSpaces(s[1..]))
    else [s[0]] + Collapse(s[1..])
  }

  /** The lookup key `find_best_match` derives from a family name. */
  function Normalize(family: string): string
  {
    Collapse(Lower(family))
  }

  /** A string in which the only whitespace is single spaces. */
  predicate Collapsed(s: string)
  {
    forall i :: 0 <= i < |s| && IsSpace(s[i]) ==> s[i] == ' ' && (i + 1 == |s| || !IsSpace(s[i + 1]))
  }

  lemma CollapsedTail(s: string)
    requires s != [] && Collapsed(s)
    ensures Collapsed(s[1..])
  {
    forall i | 0 <= i < |s[1..]| && IsSpace(s[1..][i])
      ensures s[1..][i] == ' ' && (i + 1 == |s[1..]| || !IsSpace(s[1..][i + 1]))
    {
      assert s[1..][i] == s[i + 1];
    }
  }

  /** After the substitution no whitespace but single spaces is left. */
  lemma {:induction false} CollapseIsCollapsed(s: string)
    ensures Collapsed(Collapse(s))
    decreases |s|
  {
    if s == [] {
    } else if IsSpace(s[0]) {
      var rest := DropSpaces(s[1..]);
      CollapseIsCollapsed(rest);
      CollapseHead(rest);
      var r := Collapse(s);
      assert r == " " + Collapse(rest);
      forall i | 0 <= i < |r| && IsSpace(r[i])
        ensures r[i] == ' ' && (i + 1 == |r| || !IsSpace(r[i + 1]))
      {
        if i > 0 {
          assert r[i] == Collapse(rest)[i - 1];
        }
      }
    } else {
      CollapseIsCollapsed(s[1..]);
      var r := Collapse(s);
      assert r == [s[0]] + Collapse(s[1..]);
      forall i | 0 <= i < |r| && IsSpace(r[i])
        ensures r[i] == ' ' && (i + 1 == |r| || !IsSpace(r[i + 1]))
      {
        assert i > 0;
        assert r[i] == Collapse(s[1..])[i - 1];
      }
    }
  }

  /** Collapsing a string that starts with a non-space keeps that first character. */
  lemma {:induction false} CollapseHead(s: string)
    requires s == [] || !IsSpace(s[0])
    ensures Collapse(s) == [] <==> s == []
    ensures s != [] ==> Collapse(s)[0] == s[0]
  {
  }

  /** A collapsed string that starts with whitespace starts with one space followed by no other. */
  lemma CollapseSpaceHead(s: string)
    requires s != [] && Collapsed(s) && IsSpace(s[0])
    ensures s[0] == ' ' && Collapse(s) == " " + Collapse(s[1..])
  {
    assert s[1..] == [] || !IsSpace(s[1..][0]);
    assert DropSpaces(s[1..]) == s[1..];
  }

  /** A string that starts with a non-space keeps it and collapses the rest. */
  lemma CollapseWordHead(s: string)
    requires s != [] && !IsSpace(s[0])
    ensures Collapse(s) == [s[0]] + Collapse(s[1..])
  {
  }

  /** A string already collapsed is left alone. */
  lemma {:induction false} CollapseKeepsCollapsed(s: string)
    requires Collapsed(s)
    ensures Collapse(s) == s
    decreases |s|
  {
    if s != [] {
      CollapsedTail(s);
      CollapseKeepsCollapsed(s[1..]);
      if IsSpace(s[0]) {
        CollapseSpaceHead(s);
      } else {
        CollapseWordHead(s);
      }
      assert s == [s[0]] + s[1..];
    }
  }

  /** Collapsing twice is collapsing once. */
  lemma CollapseIdempotent(s: string)
    ensures Collapse(Collapse(s)) == Collapse(s)
  {
    CollapseIsCollapsed(s);
    CollapseKeepsCollapsed(Collapse(s));
  }

  /** Every character of Collapse(s) is a space or a character of s. */
  lemma {:induction false} CollapseChars(s: string, i: nat)
    requires i < |Collapse(s)|
    ensures Collapse(s)[i] == ' ' || Collapse(s)[i] in s
    decreases |s|
  {
    if IsSpace(s[0]) {
      var rest := DropSpaces(s[1..]);
      if i > 0 {
        CollapseChars(rest, i - 1);
        if Collapse(rest)[i - 1] in rest {
          var k :| 0 <= k < |rest| && rest[k] == Collapse(rest)[i - 1];
          assert rest[k] == s[|s| - |rest| + k];
        }
      }
    } else if i > 0 {
      CollapseChars(s[1..], i - 1);
      if Collapse(s[1..])[i - 1] in s[1..] {
        var k :| 0 <= k < |s[1..]| && s[1..][k] == Collapse(s[1..])[i - 1];
        assert s[k + 1] == s[1..][k];
      }
    }
  }

  /** Normalising a normalised name changes nothing: the lookup key is stable. */
  lemma NormalizeIdempotent(family: string)
    ensures Normalize(Normalize(family)) == Normalize(family)
  {
    var t := Lower(family);
    var c := Collapse(t);
    forall i | 0 <= i < |c|
      ensures LowerChar(c[i]) == c[i]
    {
      CollapseChars(t, i);
      if c[i] != ' ' {
        var k :| 0 <= k < |t| && t[k] == c[i];
      }
    }
    assert Lower(c) == c;
    CollapseIdempotent(t);
  }

  // ---------------------------------------------------------------------
  // The font map of `create_font_map`.

  /** The three indexes of the font map. */
  datatype Index = FamilyIndex | PostscriptIndex | FullIndex

  function OrEmpty(s: Option<string>): string
  {
    if s.Some? then s.value else ""
  }

  /** The key a font is filed under in each index. */
  function Key(index: Index, font: FontDesc): string
  {
    match index
    case FamilyIndex => Lower(OrEmpty(font.family))
    case PostscriptIndex => Lower(OrEmpty(font.postscriptName))
    case FullIndex => Lower(OrEmpty(font.family)) + " " + Lower(OrEmpty(font.style))
  }

  /** `d.setdefault(k, []).append(v)`. */
  function Append(d: map<string, seq<FontDesc>>, k: string, v: FontDesc): (r: map<string, seq<FontDesc>>)
    ensures k in r && r.Keys == d.Keys + {k}
  {
    d[k := (if k in d then d[k] else []) + [v]]
  }

  /** The fonts filed under key k of an index, in input order. */
  function Bucket(fonts: seq<FontDesc>, index: Index, k: string): seq<FontDesc>
  {
    if fonts == [] then []
    else
      var last := fonts[|fonts| - 1];
      Bucket(fonts[..|fonts| - 1], index, k) + (if Key(index, last) == k then [last] else [])
  }

  /** One index of the font map, built by appending the fonts one by one. */
  function Indexed(fonts: seq<FontDesc>, index: Index): map<string, seq<FontDesc>>
  {
    if fonts == [] then map[]
    else
      var last := fonts[|fonts| - 1];
      Append(Indexed(fonts[..|fonts| - 1], index), Key(index, last), last)
  }

  /** The map `create_font_map` returns. */
  datatype FontMap = FontMap(familyMap: map<string, seq<FontDesc>>, psMap: map<string, seq<FontDesc>>,
                             fullMap: map<string, seq<FontDesc>>)

  function BuildMap(fonts: seq<FontDesc>): FontMap
  {
    FontMap(Indexed(fonts, FamilyIndex), Indexed(fonts, PostscriptIndex), Indexed(fonts, FullIndex))
  }

  lemma IndexedSnoc(fonts: seq<FontDesc>, i: nat, index: Index)
    requires i < |fonts|
    ensures Indexed(fonts[..i + 1], index) == Append(Indexed(fonts[..i], index), Key(index, fonts[i]), fonts[i])
  {
    assert fonts[..i + 1][..i] == fonts[..i];
  }

  /** `create_font_map`: every font is appended to its list in each of the three indexes. */
  method CreateFontMap(fonts: seq<FontDesc>) returns (ans: FontMap)
    ensures ans == BuildMap(fonts)
  {
    ans := FontMap(map[], map[], map[]);
    var i := 0;
    while i < |fonts|
      invariant i <= |fonts|
      invariant ans == BuildMap(fonts[..i])
    {
      var font := fonts[i];
      var f := Lower(OrEmpty(font.family));
      var s := Lower(OrEmpty(font.style));
      var ps := Lower(OrEmpty(font.postscriptName));
      IndexedSnoc(fonts, i, FamilyIndex);
      IndexedSnoc(fonts, i, PostscriptIndex);
      IndexedSnoc(fonts, i, FullIndex);
      ans := FontMap(Append(ans.familyMap, f, font), Append(ans.psMap, ps, font),
                     Append(ans.fullMap, f + " " + s, font));
      i := i + 1;
    }
    assert fonts[..i] == fonts;
  }

  /**
   * Each index files exactly the fonts under their key: k is present iff some
   * font has that key, and its list is those fonts in input order.
   */
  lemma {:induction false} IndexedIsBuckets(fonts: seq<FontDesc>, index: Index, k: string)
    ensures k in Indexed(fonts, index) <==> Bucket(fonts, index, k) != []
    ensures k in Indexed(fonts, index) ==> Indexed(fonts, index)[k] == Bucket(fonts, index, k)
    decreases |fonts|
  {
    if fonts != [] {
      IndexedIsBuckets(fonts[..|fonts| - 1], index, k);
    }
  }

  /** A bucket holds exactly the fonts with that key. */
  lemma {:induction false} BucketMembers(fonts: seq<FontDesc>, index: Index, k: string, font: FontDesc)
    ensures font in Bucket(fonts, index, k) <==> font in fonts && Key(index, font) == k
    decreases |fonts|
  {
    if fonts != [] {
      var init := fonts[..|fonts| - 1];
      BucketMembers(init, index, k, font);
      assert fonts == init + [fonts[|fonts| - 1]];
    }
  }

  /** Every font is filed under its own key, in all three indexes. */
  lemma EveryFontIsFiled(fonts: seq<FontDesc>, font: FontDesc, index: Index)
    requires font in fonts
    ensures Key(index, font) in Indexed(fonts, index)
    ensures font in Indexed(fonts, index)[Key(index, font)]
  {
    BucketMembers(fonts, index, Key(index, font), font);
    IndexedIsBuckets(fonts, index, Key(index, font));
  }

  /** Missing names are filed as empty strings, and the full key joins family and style with a space. */
  lemma MissingNamesAreEmpty(font: FontDesc)
    requires font.family.None? && font.style.None? && font.postscriptName.None?
    ensures Key(FamilyIndex, font) == "" && Key(PostscriptIndex, font) == "" && Key(FullIndex, font) == " "
  {
  }

  // ---------------------------------------------------------------------
  // Scoring and the stable sort of `find_best_match`.

  /** `score`: (style matches, is monospace). */
  function Score(font: FontDesc, bold: bool, italic: bool): (int, int)
  {
    (if font.bold == bold && font.italic == italic then 1 else 0, if font.monospace then 1 else 0)
  }

  /** Python's tuple order on scores. */
  predicate ScoreBelow(a: (int, int), b: (int, int))
  {
    a.0 < b.0 || (a.0 == b.0 && a.1 < b.1)
  }

  /** The score as one number 0..3, ordered as the tuples are. */
  function Rank(font: FontDesc, bold: bool, italic: bool): (r: nat)
    ensures r < 4
  {
    var s := Score(font, bold, italic);
    2 * s.0 + s.1
  }

  lemma RankOrdersScores(a: FontDesc, b: FontDesc, bold: bool, italic: bool)
    ensures ScoreBelow(Score(a, bold, italic), Score(b, bold, italic)) <==> Rank(a, bold, italic) < Rank(b, bold, italic)
  {
  }

  /** The candidates of rank r, in list order. */
  function WithRank(c: seq<FontDesc>, bold: bool, italic: bool, r: nat): seq<FontDesc>
  {
    if c == [] then []
    else
      var last := c[|c| - 1];
      WithRank(c[..|c| - 1], bold, italic, r) + (if Rank(last, bold, italic) == r then [last] else [])
  }

  /** `list.sort(key=score)`: a stable sort, so the ranks in ascending order, each in list order. */
  function SortedByScore(c: seq<FontDesc>, bold: bool, italic: bool): seq<FontDesc>
  {
    WithRank(c, bold, italic, 0) + WithRank(c, bold, italic, 1)
    + WithRank(c, bold, italic, 2) + WithRank(c, bold, italic, 3)
  }

  lemma {:induction false} WithRankAppend(a: seq<FontDesc>, b: seq<FontDesc>, bold: bool, italic: bool, r: nat)
    ensures WithRank(a + b, bold, italic, r) == WithRank(a, bold, italic, r) + WithRank(b, bold, italic, r)
    decreases |b|
  {
    if b == [] {
      assert a + b == a;
    } else {
      var b' := b[..|b| - 1];
      WithRankAppend(a, b', bold, italic, r);
      assert (a + b)[..|a + b| - 1] == a + b';
    }
  }

  /** Every element of WithRank(c, r) has rank r and comes from c. */
  lemma {:induction false} WithRankMembers(c: seq<FontDesc>, bold: bool, italic: bool, r: nat, x: FontDesc)
    ensures x in WithRank(c, bold, italic, r) <==> x in c && Rank(x, bold, italic) == r
    decreases |c|
  {
    if c != [] {
      WithRankMembers(c[..|c| - 1], bold, italic, r, x);
      assert c == c[..|c| - 1] + [c[|c| - 1]];
    }
  }

  /** Filtering by rank twice is filtering once, and two different ranks share nothing. */
  lemma {:induction false} WithRankTwice(c: seq<FontDesc>, bold: bool, italic: bool, r: nat, q: nat)
    ensures WithRank(WithRank(c, bold, italic, q), bold, italic, r) == if r == q then WithRank(c, bold, italic, r) else []
    decreases |c|
  {
    if c != [] {
      var last := c[|c| - 1];
      var init := WithRank(c[..|c| - 1], bold, italic, q);
      WithRankTwice(c[..|c| - 1], bold, italic, r, q);
      WithRankAppend(init, if Rank(last, bold, italic) == q then [last] else [], bold, italic, r);
      if Rank(last, bold, italic) == q {
        assert WithRank([last], bold, italic, r) == (if r == q then [last] else []) by {
          assert [last][..0] == [];
        }
      } else {
        assert WithRank([], bold, italic, r) == [];
      }
    }
  }

  /** Filtering the sorted list by rank filters each of its four parts. */
  lemma SortedByParts(c: seq<FontDesc>, bold: bool, italic: bool, r: nat)
    ensures var w0, w1, w2, w3 := WithRank(c, bold, italic, 0), WithRank(c, bold, italic, 1),
                                  WithRank(c, bold, italic, 2), WithRank(c, bold, italic, 3);
      WithRank(SortedByScore(c, bold, italic), bold, italic, r)
      == WithRank(w0, bold, italic, r) + WithRank(w1, bold, italic, r)
         + WithRank(w2, bold, italic, r) + WithRank(w3, bold, italic, r)
  {
    var w0, w1, w2, w3 := WithRank(c, bold, italic, 0), WithRank(c, bold, italic, 1),
                          WithRank(c, bold, italic, 2), WithRank(c, bold, italic, 3);
    WithRankAppend(w0 + w1 + w2, w3, bold, italic, r);
    WithRankAppend(w0 + w1, w2, bold, italic, r);
    WithRankAppend(w0, w1, bold, italic, r);
  }

  /** The sort is stable: the candidates of each rank keep their relative order. */
  lemma SortIsStable(c: seq<FontDesc>, bold: bool, italic: bool, r: nat)
    requires r < 4
    ensures WithRank(SortedByScore(c, bold, italic), bold, italic, r) == WithRank(c, bold, italic, r)
  {
    SortedByParts(c, bold, italic, r);
    var v0, v1, v2, v3 := WithRank(WithRank(c, bold, italic, 0), bold, italic, r),
                          WithRank(WithRank(c, bold, italic, 1), bold, italic, r),
                          WithRank(WithRank(c, bold, italic, 2), bold, italic, r),
                          WithRank(WithRank(c, bold, italic, 3), bold, italic, r);
    WithRankTwice(c, bold, italic, r, 0);
    WithRankTwice(c, bold, italic, r, 1);
    WithRankTwice(c, bold, italic, r, 2);
    WithRankTwice(c, bold, italic, r, 3);
    var w := WithRank(c, bold, italic, r);
    if r == 0 {
      assert v0 + v1 + v2 + v3 == w + [] + [] + [];
    } else if r == 1 {
      assert v0 + v1 + v2 + v3 == [] + w + [] + [];
    } else if r == 2 {
      assert v0 + v1 + v2 + v3 == [] + [] + w + [];
    } else {
      assert v0 + v1 + v2 + v3 == [] + [] + [] + w;
    }
  }

  /** WithRank(c, q) holds every candidate of rank q as often as c does, and no other. */
  lemma {:induction false} WithRankCount(c: seq<FontDesc>, bold: bool, italic: bool, q: nat, x: FontDesc)
    ensures multiset(WithRank(c, bold, italic, q))[x] == if Rank(x, bold, italic) == q then multiset(c)[x] else 0
    decreases |c|
  {
    if c != [] {
      var init, last := c[..|c| - 1], c[|c| - 1];
      WithRankCount(init, bold, italic, q, x);
      assert c == init + [last];
    }
  }

  /** The sort is a permutation of the candidates. */
  lemma SortIsPermutation(c: seq<FontDesc>, bold: bool, italic: bool)
    ensures multiset(SortedByScore(c, bold, italic)) == multiset(c)
    ensures |SortedByScore(c, bold, italic)| == |c|
  {
    var s := SortedByScore(c, bold, italic);
    forall x
      ensures multiset(s)[x] == multiset(c)[x]
    {
      WithRankCount(c, bold, italic, 0, x);
      WithRankCount(c, bold, italic, 1, x);
      WithRankCount(c, bold, italic, 2, x);
      WithRankCount(c, bold, italic, 3, x);
    }
    assert multiset(s) == multiset(c);
    assert |multiset(s)| == |multiset(c)|;
  }

  /** The rank of the part of the sorted list that position i falls in. */
  function Part(c: seq<FontDesc>, bold: bool, italic: bool, i: nat): nat
  {
    var n0 := |WithRank(c, bold, italic, 0)|;
    var n1 := n0 + |WithRank(c, bold, italic, 1)|;
    var n2 := n1 + |WithRank(c, bold, italic, 2)|;
    if i < n0 then 0 else if i < n1 then 1 else if i < n2 then 2 else 3
  }

  lemma SortedRankAt(c: seq<FontDesc>, bold: bool, italic: bool, i: nat)
    requires i < |SortedByScore(c, bold, italic)|
    ensures Rank(SortedByScore(c, bold, italic)[i], bold, italic) == Part(c, bold, italic, i)
  {
    var s := SortedByScore(c, bold, italic);
    var w0, w1, w2, w3 := WithRank(c, bold, italic, 0), WithRank(c, bold, italic, 1),
                          WithRank(c, bold, italic, 2), WithRank(c, bold, italic, 3);
    var n0, n1, n2 := |w0|, |w0| + |w1|, |w0| + |w1| + |w2|;
    if i < n0 {
      assert s[i] == w0[i];
      WithRankMembers(c, bold, italic, 0, w0[i]);
    } else if i < n1 {
      assert s[i] == w1[i - n0];
      WithRankMembers(c, bold, italic, 1, w1[i - n0]);
    } else if i < n2 {
      assert s[i] == w2[i - n1];
      WithRankMembers(c, bold, italic, 2, w2[i - n1]);
    } else {
      assert s[i] == w3[i - n2];
      WithRankMembers(c, bold, italic, 3, w3[i - n2]);
    }
  }

  /** The sort orders the candidates by score. */
  lemma SortIsOrdered(c: seq<FontDesc>, bold: bool, italic: bool, i: nat, j: nat)
    requires i < j < |SortedByScore(c, bold, italic)|
    ensures Rank(SortedByScore(c, bold, italic)[i], bold, italic) <= Rank(SortedByScore(c, bold, italic)[j], bold, italic)
  {
    SortedRankAt(c, bold, italic, i);
    SortedRankAt(c, bold, italic, j);
  }

  /** The four parts of the sorted list together are as long as the candidate list. */
  lemma {:induction false} SortedLength(c: seq<FontDesc>, bold: bool, italic: bool)
    ensures |SortedByScore(c, bold, italic)| == |c|
    decreases |c|
  {
    if c != [] {
      SortedLength(c[..|c| - 1], bold, italic);
    }
  }

  /** `candidates[-1]` after the sort. */
  function Best(c: seq<FontDesc>, bold: bool, italic: bool): FontDesc
    requires c != []
  {
    SortedLength(c, bold, italic);
    var s := SortedByScore(c, bold, italic);
    s[|s| - 1]
  }

  /** The last candidate of rank r in c is the last element of WithRank(c, r). */
  lemma {:induction false} LastWithRank(c: seq<FontDesc>, bold: bool, italic: bool, r: nat)
    requires WithRank(c, bold, italic, r) != []
    ensures var w := WithRank(c, bold, italic, r);
      exists i :: 0 <= i < |c| && c[i] == w[|w| - 1] && Rank(c[i], bold, italic) == r
        && forall j :: i < j < |c| ==> Rank(c[j], bold, italic) != r
    decreases |c|
  {
    var last := c[|c| - 1];
    if Rank(last, bold, italic) != r {
      var init := c[..|c| - 1];
      LastWithRank(init, bold, italic, r);
      var w := WithRank(init, bold, italic, r);
      var i :| 0 <= i < |init| && init[i] == w[|w| - 1] && Rank(init[i], bold, italic) == r
        && forall j :: i < j < |init| ==> Rank(init[j], bold, italic) != r;
      assert c[i] == init[i];
      forall j | i < j < |c|
        ensures Rank(c[j], bold, italic) != r
      {
        if j < |init| {
          assert c[j] == init[j];
        }
      }
    } else {
      assert c[|c| - 1] == last;
    }
  }

  /** The highest rank present among the candidates. */
  function TopRank(c: seq<FontDesc>, bold: bool, italic: bool): nat
  {
    if WithRank(c, bold, italic, 3) != [] then 3
    else if WithRank(c, bold, italic, 2) != [] then 2
    else if WithRank(c, bold, italic, 1) != [] then 1
    else 0
  }

  lemma TopRankIsMaximal(c: seq<FontDesc>, bold: bool, italic: bool)
    requires c != []
    ensures WithRank(c, bold, italic, TopRank(c, bold, italic)) != []
    ensures forall x :: x in c ==> Rank(x, bold, italic) <= TopRank(c, bold, italic)
  {
    forall x | x in c
      ensures Rank(x, bold, italic) <= TopRank(c, bold, italic)
    {
      WithRankMembers(c, bold, italic, Rank(x, bold, italic), x);
    }
    WithRankMembers(c, bold, italic, Rank(c[0], bold, italic), c[0]);
  }

  /** The last non-empty one of four parts. */
  function LastPart(w0: seq<FontDesc>, w1: seq<FontDesc>, w2: seq<FontDesc>, w3: seq<FontDesc>): seq<FontDesc>
  {
    if w3 != [] then w3 else if w2 != [] then w2 else if w1 != [] then w1 else w0
  }

  /** The top part is the last non-empty one of the four. */
  lemma TopPart(c: seq<FontDesc>, bold: bool, italic: bool)
    ensures WithRank(c, bold, italic, TopRank(c, bold, italic))
            == LastPart(WithRank(c, bold, italic, 0), WithRank(c, bold, italic, 1),
                        WithRank(c, bold, italic, 2), WithRank(c, bold, italic, 3))
  {
  }

  /** The last element of four parts joined is the last element of the last non-empty part. */
  lemma LastOfParts(w0: seq<FontDesc>, w1: seq<FontDesc>, w2: seq<FontDesc>, w3: seq<FontDesc>)
    requires w0 + w1 + w2 + w3 != []
    ensures var t, s := LastPart(w0, w1, w2, w3), w0 + w1 + w2 + w3;
      t != [] && s[|s| - 1] == t[|t| - 1]
  {
    var s := w0 + w1 + w2 + w3;
    if w3 == [] {
      assert s == w0 + w1 + w2;
      if w2 == [] {
        assert s == w0 + w1;
        if w1 == [] {
          assert s == w0;
        }
      }
    }
  }

  /** The candidate `find_best_match` returns is the last element of the last non-empty rank part. */
  lemma BestOfParts(c: seq<FontDesc>, bold: bool, italic: bool)
    requires c != []
    ensures var t := LastPart(WithRank(c, bold, italic, 0), WithRank(c, bold, italic, 1),
                              WithRank(c, bold, italic, 2), WithRank(c, bold, italic, 3));
      t != [] && Best(c, bold, italic) == t[|t| - 1]
  {
    var w0, w1, w2, w3 := WithRank(c, bold, italic, 0), WithRank(c, bold, italic, 1),
                          WithRank(c, bold, italic, 2), WithRank(c, bold, italic, 3);
    var s := SortedByScore(c, bold, italic);
    SortedLength(c, bold, italic);
    assert s == w0 + w1 + w2 + w3 && Best(c, bold, italic) == s[|s| - 1];
    LastOfParts(w0, w1, w2, w3);
  }

  /** The last element of the sorted list is the last element of the top part. */
  lemma BestIsLastOfTop(c: seq<FontDesc>, bold: bool, italic: bool)
    requires c != []
    ensures var w := WithRank(c, bold, italic, TopRank(c, bold, italic));
      w != [] && Best(c, bold, italic) == w[|w| - 1]
  {
    BestOfParts(c, bold, italic);
    TopPart(c, bold, italic);
  }

  /**
   * The candidate returned has the highest score, and among the candidates
   * with that score it is the last one in list order.
   */
  lemma BestIsLastMaximal(c: seq<FontDesc>, bold: bool, italic: bool)
    requires c != []
    ensures forall x :: x in c ==> Rank(x, bold, italic) <= Rank(Best(c, bold, italic), bold, italic)
    ensures exists i :: (0 <= i < |c| && c[i] == Best(c, bold, italic)
      && forall j :: i < j < |c| ==> Rank(c[j], bold, italic) < Rank(c[i], bold, italic))
  {
    var r := TopRank(c, bold, italic);
    TopRankIsMaximal(c, bold, italic);
    BestIsLastOfTop(c, bold, italic);
    var w := WithRank(c, bold, italic, r);
    WithRankMembers(c, bold, italic, r, w[|w| - 1]);
    LastWithRank(c, bold, italic, r);
    var i :| 0 <= i < |c| && c[i] == w[|w| - 1] && Rank(c[i], bold, italic) == r
      && forall j :: i < j < |c| ==> Rank(c[j], bold, italic) != r;
    forall j | i < j < |c|
      ensures Rank(c[j], bold, italic) < Rank(c[i], bold, italic)
    {
      assert c[j] in c;
    }
  }

  // ---------------------------------------------------------------------
  // `find_best_match` as a function of the font map.

  /** Some candidates are filed under k (`if candidates:`). */
  predicate HasCandidates(d: map<string, seq<FontDesc>>, k: string)
  {
    k in d && d[k] != []
  }

  /**
   * The face `find_best_match` returns for a font map and the font map it
   * leaves behind: the candidate list it used is sorted in place.
   */
  function BestMatch(m: FontMap, family: string, bold: bool, italic: bool): (Face, FontMap)
  {
    var k := Normalize(family);
    if HasCandidates(m.psMap, k) then
      (Installed(Best(m.psMap[k], bold, italic)), m.(psMap := m.psMap[k := SortedByScore(m.psMap[k], bold, italic)]))
    else if HasCandidates(m.fullMap, k) then
      (Installed(Best(m.fullMap[k], bold, italic)), m.(fullMap := m.fullMap[k := SortedByScore(m.fullMap[k], bold, italic)]))
    else
      (Requested(if k in m.familyMap then family else "Menlo", bold, italic), m)
  }

  /**
   * What `find_best_match` promises: an exact PostScript match wins over an
   * exact "family style" match; the best-scoring candidate of that list is
   * returned; otherwise a monospace request in the asked style, for the
   * family as given when it is installed and for Menlo when it is not.
   */
  lemma BestMatchChoice(m: FontMap, family: string, bold: bool, italic: bool)
    ensures var (face, _) := BestMatch(m, family, bold, italic);
      var k := Normalize(family);
      && (HasCandidates(m.psMap, k) ==>
            && face.Installed? && face.desc in m.psMap[k]
            && forall x :: x in m.psMap[k] ==> Rank(x, bold, italic) <= Rank(face.desc, bold, italic))
      && (!HasCandidates(m.psMap, k) && HasCandidates(m.fullMap, k) ==>
            && face.Installed? && face.desc in m.fullMap[k]
            && forall x :: x in m.fullMap[k] ==> Rank(x, bold, italic) <= Rank(face.desc, bold, italic))
      && (!HasCandidates(m.psMap, k) && !HasCandidates(m.fullMap, k) ==>
           face == Requested(if k in m.familyMap then family else "Menlo", bold, italic)
           && FaceMonospace(face) && FaceBold(face) == bold && FaceItalic(face) == italic)
  {
    var k := Normalize(family);
    if HasCandidates(m.psMap, k) {
      BestIsLastMaximal(m.psMap[k], bold, italic);
    } else if HasCandidates(m.fullMap, k) {
      BestIsLastMaximal(m.fullMap[k], bold, italic);
    }
  }

  /** The sort in place only reorders: the same keys, and each list a permutation of what it was. */
  lemma BestMatchOnlyReorders(m: FontMap, family: string, bold: bool, italic: bool)
    ensures var m' := BestMatch(m, family, bold, italic).1;
      && m'.familyMap == m.familyMap
      && m'.psMap.Keys == m.psMap.Keys && m'.fullMap.Keys == m.fullMap.Keys
      && (forall k :: k in m.psMap ==> multiset(m'.psMap[k]) == multiset(m.psMap[k]))
      && (forall k :: k in m.fullMap ==> multiset(m'.fullMap[k]) == multiset(m.fullMap[k]))
  {
    var k := Normalize(family);
    if HasCandidates(m.psMap, k) {
      SortIsPermutation(m.psMap[k], bold, italic);
    } else if HasCandidates(m.fullMap, k) {
      SortIsPermutation(m.fullMap[k], bold, italic);
    }
  }

  // ---------------------------------------------------------------------
  // Configured names.

  /** `resolve_family`. */
  function ResolveFamily(f: string, mainFamily: string, bold: bool, italic: bool): (r: string)
    ensures Lower(r) != "monospace"
  {
    var f1 := if (bold || italic) && f == "auto" then mainFamily else f;
    if Lower(f1) == "monospace" then "Menlo" else f1
  }

  /**
   * 'auto' stands for the main family only for the bold and italic faces,
   * 'monospace' in any case means Menlo, and every other name is kept.
   */
  lemma ResolveFamilyCases(f: string, mainFamily: string, bold: bool, italic: bool)
    ensures (bold || italic) && f == "auto" && Lower(mainFamily) != "monospace" ==>
      ResolveFamily(f, mainFamily, bold, italic) == mainFamily
    ensures (bold || italic) && f == "auto" && Lower(mainFamily) == "monospace" ==>
      ResolveFamily(f, mainFamily, bold, italic) == "Menlo"
    ensures !bold && !italic && f == "auto" ==> ResolveFamily(f, mainFamily, bold, italic) == "auto"
    ensures f != "auto" && Lower(f) == "monospace" ==> ResolveFamily(f, mainFamily, bold, italic) == "Menlo"
    ensures f != "auto" && Lower(f) != "monospace" ==> ResolveFamily(f, mainFamily, bold, italic) == f
  {
    assert Lower("auto") == "auto";
  }

  /** Without bold or italic the main family is never consulted. */
  lemma ResolveIgnoresMainFamily(f: string, main1: string, main2: string)
    ensures ResolveFamily(f, main1, false, false) == ResolveFamily(f, main2, false, false)
  {
  }

  /** The font options that name the four faces. */
  datatype FontOptions = FontOptions(fontFamily: string, boldFont: string, italicFont: string, boldItalicFont: string)

  /** `attr_map` in its iteration order: the style of each face and the option that names it. */
  function Attr(i: nat, opts: FontOptions): (bool, bool, string)
    requires i < 4
  {
    if i == 0 then (false, false, opts.fontFamily)
    else if i == 1 then (true, false, opts.boldFont)
    else if i == 2 then (false, true, opts.italicFont)
    else (true, true, opts.boldItalicFont)
  }

  /** The key `get_font_files` files the i-th face under. */
  function AttrKey(i: nat): string
    requires i < 4
  {
    if i == 0 then "medium" else if i == 1 then "bold" else if i == 2 then "italic" else "bi"
  }

  /** The keys of the first n faces. */
  function FiledKeys(n: nat): set<string>
    requires n <= 4
  {
    if n == 0 then {} else FiledKeys(n - 1) + {AttrKey(n - 1)}
  }

  /** The i-th face is in ans under its key, with the style of that entry of `attr_map`. */
  predicate Filed(ans: map<string, Face>, opts: FontOptions, i: nat)
    requires i < 4
  {
    AttrKey(i) in ans && EchoesStyle(ans[AttrKey(i)], Attr(i, opts).0, Attr(i, opts).1)
  }

  lemma AttrKeysDistinct(i: nat, j: nat)
    requires i < 4 && j < 4 && i != j
    ensures AttrKey(i) != AttrKey(j)
  {
    var a, b := AttrKey(i), AttrKey(j);
    assert |a| != |b| || a[0] != b[0];
  }

  /** The first i faces are filed in ans, each the face the i lookups found for it. */
  ghost predicate FiledAs(ans: map<string, Face>, opts: FontOptions, m: FontMap, i: nat)
    requires i <= 4
  {
    forall j :: 0 <= j < i ==> Filed(ans, opts, j) && ans[AttrKey(j)] == FacesFor(m, opts, i).0[j]
  }

  /** Filing the face of the next lookup under its key. */
  lemma FileFace(ans: map<string, Face>, opts: FontOptions, m: FontMap, i: nat, face: Face)
    requires i < 4 && ans.Keys == FiledKeys(i) && FiledAs(ans, opts, m, i)
    requires face == Lookup(FacesFor(m, opts, i).1, opts, i).0
    requires EchoesStyle(face, Attr(i, opts).0, Attr(i, opts).1)
    ensures ans[AttrKey(i) := face].Keys == FiledKeys(i + 1)
    ensures FiledAs(ans[AttrKey(i) := face], opts, m, i + 1)
  {
    var ans' := ans[AttrKey(i) := face];
    forall j | 0 <= j <= i
      ensures Filed(ans', opts, j) && ans'[AttrKey(j)] == FacesFor(m, opts, i + 1).0[j]
    {
      if j < i {
        AttrKeysDistinct(i, j);
        assert Filed(ans, opts, j);
      }
    }
  }

  /** All four faces filed: the answer of `get_font_files`. */
  lemma FiledAll(ans: map<string, Face>, opts: FontOptions, m: FontMap)
    requires ans.Keys == FiledKeys(4) && FiledAs(ans, opts, m, 4)
    ensures ans.Keys == {"medium", "bold", "italic", "bi"}
    ensures forall j :: 0 <= j < 4 ==> ans[AttrKey(j)] == FacesFor(m, opts, 4).0[j]
    ensures EchoesStyle(ans["medium"], false, false) && EchoesStyle(ans["bold"], true, false)
    ensures EchoesStyle(ans["italic"], false, true) && EchoesStyle(ans["bi"], true, true)
  {
    assert Filed(ans, opts, 0) && Filed(ans, opts, 1) && Filed(ans, opts, 2) && Filed(ans, opts, 3);
    assert FiledKeys(4) == {"medium", "bold", "italic", "bi"};
  }

  /** A made-up face carries the style it was asked for. */
  predicate EchoesStyle(face: Face, bold: bool, italic: bool)
  {
    face.Requested? ==> face.bold == bold && face.italic == italic
  }

  /** m2 holds what m1 holds, each candidate list possibly in another order. */
  ghost predicate Reorders(m1: FontMap, m2: FontMap)
  {
    && m2.familyMap == m1.familyMap
    && m2.psMap.Keys == m1.psMap.Keys && m2.fullMap.Keys == m1.fullMap.Keys
    && (forall k :: k in m1.psMap ==> multiset(m2.psMap[k]) == multiset(m1.psMap[k]))
    && (forall k :: k in m1.fullMap ==> multiset(m2.fullMap[k]) == multiset(m1.fullMap[k]))
  }

  lemma ReordersTrans(m1: FontMap, m2: FontMap, m3: FontMap)
    requires Reorders(m1, m2) && Reorders(m2, m3)
    ensures Reorders(m1, m3)
  {
  }

  /**
   * The faces the four lookups of `get_font_files` find, in the order of
   * `attr_map`, starting from font map m, and the map they leave behind:
   * each lookup sees the lists the previous ones sorted.
   */
  function FacesFor(m: FontMap, opts: FontOptions, n: nat): (r: (seq<Face>, FontMap))
    requires n <= 4
    ensures |r.0| == n
  {
    if n == 0 then ([], m)
    else
      var prev := FacesFor(m, opts, n - 1);
      var found := Lookup(prev.1, opts, n - 1);
      (prev.0 + [found.0], found.1)
  }

  /** The lookup for the i-th entry of `attr_map`: the best match of its resolved family in its style. */
  function Lookup(m: FontMap, opts: FontOptions, i: nat): (Face, FontMap)
    requires i < 4
  {
    var (bold, italic, name) := Attr(i, opts);
    BestMatch(m, ResolveFamily(name, opts.fontFamily, bold, italic), bold, italic)
  }

  lemma {:induction false} FacesForReorders(m: FontMap, opts: FontOptions, n: nat)
    requires n <= 4
    ensures Reorders(m, FacesFor(m, opts, n).1)
  {
    if n > 0 {
      FacesForReorders(m, opts, n - 1);
      var prev := FacesFor(m, opts, n - 1);
      var (bold, italic, name) := Attr(n - 1, opts);
      assert FacesFor(m, opts, n).1 == Lookup(prev.1, opts, n - 1).1;
      BestMatchOnlyReorders(prev.1, ResolveFamily(name, opts.fontFamily, bold, italic), bold, italic);
      ReordersTrans(m, prev.1, FacesFor(m, opts, n).1);
    }
  }

  /** Reordering the lists changes neither which lists have candidates nor who is in them. */
  lemma ReorderedChoice(m1: FontMap, m2: FontMap, family: string, bold: bool, italic: bool)
    requires Reorders(m1, m2)
    ensures var face := BestMatch(m2, family, bold, italic).0;
      var k := Normalize(family);
      && (HasCandidates(m1.psMap, k) ==>
            && face.Installed? && face.desc in m1.psMap[k]
            && forall x :: x in m1.psMap[k] ==> Rank(x, bold, italic) <= Rank(face.desc, bold, italic))
      && (!HasCandidates(m1.psMap, k) && HasCandidates(m1.fullMap, k) ==>
            && face.Installed? && face.desc in m1.fullMap[k]
            && forall x :: x in m1.fullMap[k] ==> Rank(x, bold, italic) <= Rank(face.desc, bold, italic))
      && (!HasCandidates(m1.psMap, k) && !HasCandidates(m1.fullMap, k) ==>
           face == Requested(if k in m1.familyMap then family else "Menlo", bold, italic))
  {
    var k := Normalize(family);
    BestMatchChoice(m2, family, bold, italic);
    if k in m1.psMap {
      SameMembers(m1.psMap[k], m2.psMap[k]);
    }
    if k in m1.fullMap {
      SameMembers(m1.fullMap[k], m2.fullMap[k]);
    }
  }

  /** Two lists with the same multiset are both empty or both not, and have the same members. */
  lemma SameMembers(a: seq<FontDesc>, b: seq<FontDesc>)
    requires multiset(a) == multiset(b)
    ensures (a == []) == (b == [])
    ensures forall x :: x in a <==> x in b
  {
    assert |a| == |multiset(a)| && |b| == |multiset(b)|;
    assert forall x :: x in a <==> x in multiset(a);
  }

  /**
   * Each face `get_font_files` finds is chosen among the candidates of the
   * font map it started from, under the normalised resolved family: the
   * best-ranked PostScript match, else the best-ranked full-name match,
   * else a request for the family, or for Menlo when none has that name.
   */
  lemma FontFilesChoice(m: FontMap, opts: FontOptions, i: nat)
    requires i < 4
    ensures var (bold, italic, name) := Attr(i, opts);
      var family := ResolveFamily(name, opts.fontFamily, bold, italic);
      var face := FacesFor(m, opts, 4).0[i];
      var k := Normalize(family);
      && (HasCandidates(m.psMap, k) ==>
            && face.Installed? && face.desc in m.psMap[k]
            && forall x :: x in m.psMap[k] ==> Rank(x, bold, italic) <= Rank(face.desc, bold, italic))
      && (!HasCandidates(m.psMap, k) && HasCandidates(m.fullMap, k) ==>
            && face.Installed? && face.desc in m.fullMap[k]
            && forall x :: x in m.fullMap[k] ==> Rank(x, bold, italic) <= Rank(face.desc, bold, italic))
      && (!HasCandidates(m.psMap, k) && !HasCandidates(m.fullMap, k) ==>
           face == Requested(if k in m.familyMap then family else "Menlo", bold, italic))
  {
    FacesForPrefix(m, opts, i + 1, 4);
    FacesForReorders(m, opts, i);
    var (bold, italic, name) := Attr(i, opts);
    ReorderedChoice(m, FacesFor(m, opts, i).1, ResolveFamily(name, opts.fontFamily, bold, italic), bold, italic);
  }

  /** Later lookups do not change the faces earlier ones found. */
  lemma {:induction false} FacesForPrefix(m: FontMap, opts: FontOptions, i: nat, n: nat)
    requires 0 < i <= n <= 4
    ensures FacesFor(m, opts, n).0[i - 1] == FacesFor(m, opts, i).0[i - 1]
  {
    if n > i {
      FacesForPrefix(m, opts, i, n - 1);
      var prev := FacesFor(m, opts, n - 1);
      var found := Lookup(prev.1, opts, n - 1);
      assert FacesFor(m, opts, n).0 == prev.0 + [found.0];
      assert (prev.0 + [found.0])[i - 1] == prev.0[i - 1];
    }
  }

  /**
   * The state Python keeps in function attributes: the memoised font map
   * (`all_fonts_map.ans`) and the family of the medium face
   * (`get_font_files.medium_family`, absent until `get_font_files` has run).
   */
  class FontCatalog {
    var allFontsMap: Option<FontMap>
    var mediumFamily: Option<Option<string>>

    constructor ()
      ensures allFontsMap == None && mediumFamily == None
    {
      allFontsMap := None;
      mediumFamily := None;
    }

    /** `all_fonts_map`: built from the installed fonts on the first call, the cached value after. */
    method AllFontsMap(allFonts: seq<FontDesc>) returns (m: FontMap)
      modifies this
      ensures old(allFontsMap).Some? ==> m == old(allFontsMap).value && allFontsMap == old(allFontsMap)
      ensures old(allFontsMap).None? ==> m == BuildMap(allFonts) && allFontsMap == Some(m)
      ensures mediumFamily == old(mediumFamily)
    {
      if allFontsMap.None? {
        m := CreateFontMap(allFonts);
        allFontsMap := Some(m);
      } else {
        m := allFontsMap.value;
      }
    }

    /** The font map `all_fonts_map` hands out in the current state. */
    function CurrentMap(allFonts: seq<FontDesc>): FontMap
      reads this
    {
      if allFontsMap.Some? then allFontsMap.value else BuildMap(allFonts)
    }

    /** `find_best_match`; the candidate list it sorts stays sorted in the memoised map. */
    method FindBestMatch(family: string, bold: bool, italic: bool, allFonts: seq<FontDesc>) returns (face: Face)
      modifies this
      ensures face == BestMatch(old(CurrentMap(allFonts)), family, bold, italic).0
      ensures allFontsMap == Some(BestMatch(old(CurrentMap(allFonts)), family, bold, italic).1)
      ensures EchoesStyle(face, bold, italic)
      ensures mediumFamily == old(mediumFamily)
    {
      ghost var before := CurrentMap(allFonts);
      var fontMap := AllFontsMap(allFonts);
      assert fontMap == before;
      var found := BestMatch(fontMap, family, bold, italic);
      face := found.0;
      allFontsMap := Some(found.1);
    }

    /**
     * `get_font_files`: one face per entry of `attr_map`, filed under
     * medium, bold, italic and bi, each the best match the lookups find in
     * turn; the family of the medium face is recorded.
     */
    method GetFontFiles(opts: FontOptions, allFonts: seq<FontDesc>) returns (ans: map<string, Face>)
      modifies this
      ensures ans.Keys == {"medium", "bold", "italic", "bi"}
      ensures var found := FacesFor(old(CurrentMap(allFonts)), opts, 4);
        && (forall j :: 0 <= j < 4 ==> ans[AttrKey(j)] == found.0[j])
        && allFontsMap == Some(found.1)
      ensures mediumFamily == Some(FaceFamily(ans["medium"]))
      ensures EchoesStyle(ans["medium"], false, false) && EchoesStyle(ans["bold"], true, false)
      ensures EchoesStyle(ans["italic"], false, true) && EchoesStyle(ans["bi"], true, true)
    {
      ghost var m0 := CurrentMap(allFonts);
      ans := map[];
      var i := 0;
      while i < 4
        invariant i <= 4
        invariant ans.Keys == FiledKeys(i) && FiledAs(ans, opts, m0, i)
        invariant i > 0 ==> "medium" in ans && mediumFamily == Some(FaceFamily(ans["medium"]))
        invariant CurrentMap(allFonts) == FacesFor(m0, opts, i).1 && (i > 0 ==> allFontsMap.Some?)
      {
        var key := AttrKey(i);
        var face := FaceOf(opts, allFonts, i);
        FileFace(ans, opts, m0, i, face);
        ans := ans[key := face];
        i := i + 1;
      }
      FiledAll(ans, opts, m0);
    }

    /**
     * One round of `get_font_files`: the face for the i-th entry of
     * `attr_map`, recording its family when it is the medium face.
     */
    method FaceOf(opts: FontOptions, allFonts: seq<FontDesc>, i: nat) returns (face: Face)
      requires i < 4
      modifies this
      ensures var found := Lookup(old(CurrentMap(allFonts)), opts, i);
        face == found.0 && allFontsMap == Some(found.1)
      ensures EchoesStyle(face, Attr(i, opts).0, Attr(i, opts).1)
      ensures mediumFamily == if i == 0 then Some(FaceFamily(face)) else old(mediumFamily)
    {
      var (bold, italic, name) := Attr(i, opts);
      var key := AttrKey(i);
      var family := ResolveFamily(name, opts.fontFamily, bold, italic);
      face := FindBestMatch(family, bold, italic, allFonts);
      if key == "medium" {
        mediumFamily := Some(FaceFamily(face));
      }
      if i != 0 {
        AttrKeysDistinct(i, 0);
      }
    }

    /**
     * `font_for_family`: the best match for a family in the regular style,
     * with its bold and italic flags. It needs `get_font_files` to have run.
     */
    method FontForFamily(family: string, allFonts: seq<FontDesc>) returns (face: Face, bold: bool, italic: bool)
      requires mediumFamily.Some?
      modifies this
      ensures face == BestMatch(old(CurrentMap(allFonts)), ResolveFamily(family, "", false, false), false, false).0
      ensures bold == FaceBold(face) && italic == FaceItalic(face)
      ensures mediumFamily == old(mediumFamily)
    {
      var mainFamily := OrEmpty(mediumFamily.value);
      ResolveIgnoresMainFamily(family, mainFamily, "");
      face := FindBestMatch(ResolveFamily(family, mainFamily, false, false), false, false, allFonts);
      bold, italic := FaceBold(face), FaceItalic(face);
    }
  }
}
