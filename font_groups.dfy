/**
 * The process-wide list of font groups, one per (point size, DPI) in use:
 * font_group_for finds the group for a size or appends a new one, first
 * dropping, by in-place compaction, the groups no OS window uses
 * (trim_unused_font_groups in kitty/fonts.c).
 */
module FontGroups {
  import opened Common

  /** The size a group was built for; the C doubles are compared with == only. */
  datatype Metrics = Metrics(sizeInPts: int, dpiX: int, dpiY: int)

  /** A font group as the list sees it: its id and its size. */
  datatype GroupRec = GroupRec(id: nat, metrics: Metrics)

  /** The groups whose id some window uses, in their original order. */
  function Kept(s: seq<GroupRec>, windowIds: seq<nat>): (r: seq<GroupRec>)
    ensures |r| <= |s|
  {
    if |s| == 0 then []
    else (if s[0].id in windowIds then [s[0]] else []) + Kept(s[1..], windowIds)
  }

  /** One step of Kept. */
  lemma KeptCons(s: seq<GroupRec>, windowIds: seq<nat>)
    requires |s| > 0
    ensures Kept(s, windowIds) == (if s[0].id in windowIds then [s[0]] else []) + Kept(s[1..], windowIds)
  {
  }

  /** Dropping an unused group at index i changes nothing kept. */
  lemma DropUnused(a: seq<GroupRec>, i: nat, n: nat, windowIds: seq<nat>)
    requires i < n <= |a| && a[i].id !in windowIds
    ensures Kept(a[i..n], windowIds) == Kept(a[i + 1..n], windowIds)
  {
    KeptCons(a[i..n], windowIds);
    assert a[i..n][1..] == a[i + 1..n];
  }

  /** A sequence whose first n elements are x + y splits at |x| into x and y. */
  lemma SplitJoined(b: seq<GroupRec>, x: seq<GroupRec>, y: seq<GroupRec>, n: nat)
    requires n <= |b| && b[..n] == x + y
    ensures b[..|x|] == x && b[|x|..n] == y
  {
    assert b[..|x|] == b[..n][..|x|];
    assert b[|x|..n] == b[..n][|x|..];
  }

  /** Trimming keeps exactly the groups some window uses. */
  lemma {:induction false} KeptMembers(s: seq<GroupRec>, windowIds: seq<nat>)
    ensures forall g :: g in Kept(s, windowIds) <==> g in s && g.id in windowIds
  {
    if |s| > 0 {
      KeptMembers(s[1..], windowIds);
      assert s == [s[0]] + s[1..];
    }
  }

  /** Kept drops nothing from a list whose groups are all in use. */
  lemma {:induction false} KeptAllUsed(s: seq<GroupRec>, windowIds: seq<nat>)
    requires forall g :: g in s ==> g.id in windowIds
    ensures Kept(s, windowIds) == s
  {
    if |s| > 0 {
      assert s[0] in s;
      assert forall g :: g in s[1..] ==> g in s;
      KeptAllUsed(s[1..], windowIds);
      assert [s[0]] + s[1..] == s;
    }
  }

  /** Trimming twice trims nothing more. */
  lemma KeptIdempotent(s: seq<GroupRec>, windowIds: seq<nat>)
    ensures Kept(Kept(s, windowIds), windowIds) == Kept(s, windowIds)
  {
    KeptMembers(s, windowIds);
    KeptAllUsed(Kept(s, windowIds), windowIds);
  }

  /** The index of the first group from `from` on built for metrics m. */
  function FirstWithMetrics(s: seq<GroupRec>, m: Metrics, from: nat): (r: Option<nat>)
    requires from <= |s|
    decreases |s| - from
    ensures r.None? ==> forall i :: from <= i < |s| ==> s[i].metrics != m
    ensures r.Some? ==> from <= r.value < |s| && s[r.value].metrics == m
                        && forall i :: from <= i < r.value ==> s[i].metrics != m
  {
    if from == |s| then None
    else if s[from].metrics == m then Some(from)
    else FirstWithMetrics(s, m, from + 1)
  }

  /** The list of groups and the last id handed out (font_group_id_counter). */
  datatype Registry = Registry(groups: seq<GroupRec>, lastId: nat)

  /** Ids are distinct and none is above the counter. */
  predicate IdsFresh(r: Registry)
  {
    && (forall i :: 0 <= i < |r.groups| ==> r.groups[i].id <= r.lastId)
    && (forall i, j :: 0 <= i < j < |r.groups| ==> r.groups[i].id != r.groups[j].id)
  }

  /** The group font_group_for returns and the list after the call. */
  datatype Found = Found(idx: nat, registry: Registry)

  /**
   * font_group_for: the first group built for m; when there is none, trim
   * the unused groups and append a new group for m with the next id.
   */
  function GroupFor(r: Registry, m: Metrics, windowIds: seq<nat>): (f: Found)
    ensures f.idx < |f.registry.groups| && f.registry.groups[f.idx].metrics == m
  {
    match FirstWithMetrics(r.groups, m, 0)
    case Some(i) => Found(i, r)
    case None =>
      var kept := if |r.groups| > 0 then Kept(r.groups, windowIds) else r.groups;
      Found(|kept|, Registry(kept + [GroupRec(r.lastId + 1, m)], r.lastId + 1))
  }

  /**
   * A group already built for m is returned as it is, and it is the
   * earliest one; otherwise every group a window uses survives, every
   * unused one is gone, and the new group comes last with an id no group
   * had.
   */
  lemma GroupForReusesOrAppends(r: Registry, m: Metrics, windowIds: seq<nat>)
    requires IdsFresh(r)
    ensures var f := GroupFor(r, m, windowIds);
      && ((exists i :: 0 <= i < |r.groups| && r.groups[i].metrics == m) ==>
            f.registry == r && forall i :: 0 <= i < f.idx ==> r.groups[i].metrics != m)
      && ((forall i :: 0 <= i < |r.groups| ==> r.groups[i].metrics != m) ==>
            && f.idx == |f.registry.groups| - 1
            && f.registry.groups[f.idx] == GroupRec(r.lastId + 1, m)
            && (forall g :: g in f.registry.groups[..f.idx] <==> g in r.groups && g.id in windowIds)
            && forall g :: g in r.groups ==> g.id != f.registry.groups[f.idx].id)
  {
    var f := GroupFor(r, m, windowIds);
    match FirstWithMetrics(r.groups, m, 0)
    case Some(i) =>
    case None =>
      var kept := if |r.groups| > 0 then Kept(r.groups, windowIds) else r.groups;
      KeptMembers(r.groups, windowIds);
      assert f.registry.groups[..f.idx] == kept;
  }

  /** font_group_for keeps ids distinct and within the counter. */
  lemma GroupForKeepsIdsFresh(r: Registry, m: Metrics, windowIds: seq<nat>)
    requires IdsFresh(r)
    ensures IdsFresh(GroupFor(r, m, windowIds).registry)
  {
    match FirstWithMetrics(r.groups, m, 0)
    case Some(i) =>
    case None =>
      if |r.groups| > 0 {
        KeptIdsFresh(r, windowIds);
        AppendFresh(Registry(Kept(r.groups, windowIds), r.lastId), m);
      } else {
        AppendFresh(r, m);
      }
  }

  /** A group appended under the next id keeps the ids fresh. */
  lemma AppendFresh(r: Registry, m: Metrics)
    requires IdsFresh(r)
    ensures IdsFresh(Registry(r.groups + [GroupRec(r.lastId + 1, m)], r.lastId + 1))
  {
    var s := r.groups + [GroupRec(r.lastId + 1, m)];
    assert forall i :: 0 <= i < |r.groups| ==> s[i] == r.groups[i];
  }

  /** Trimming keeps the ids fresh. */
  lemma KeptIdsFresh(r: Registry, windowIds: seq<nat>)
    requires IdsFresh(r)
    ensures IdsFresh(Registry(Kept(r.groups, windowIds), r.lastId))
  {
    KeptMembers(r.groups, windowIds);
    KeptDistinct(r, windowIds);
    var k := Kept(r.groups, windowIds);
    forall i | 0 <= i < |k|
      ensures k[i].id <= r.lastId
    {
      assert k[i] in r.groups;
    }
  }

  /** Trimming keeps ids distinct: a kept list of distinct ids has distinct ids. */
  lemma KeptDistinct(r: Registry, windowIds: seq<nat>)
    requires IdsFresh(r)
    ensures var k := Kept(r.groups, windowIds);
      forall i, j :: 0 <= i < j < |k| ==> k[i].id != k[j].id
  {
    KeptSubsequence(r.groups, windowIds);
    var k := Kept(r.groups, windowIds);
    forall i, j | 0 <= i < j < |k|
      ensures k[i].id != k[j].id
    {
      var a, b := Position(r.groups, windowIds, i), Position(r.groups, windowIds, j);
    }
  }

  /** Where the i-th kept group sits in the original list. */
  function Position(s: seq<GroupRec>, windowIds: seq<nat>, i: nat): nat
    requires i < |Kept(s, windowIds)|
    decreases |s|
  {
    if s[0].id in windowIds then (if i == 0 then 0 else 1 + Position(s[1..], windowIds, i - 1))
    else 1 + Position(s[1..], windowIds, i)
  }

  /** Kept is a subsequence: the kept groups sit at strictly increasing positions of the list. */
  lemma {:induction false} KeptSubsequence(s: seq<GroupRec>, windowIds: seq<nat>)
    ensures var k := Kept(s, windowIds);
      && (forall i :: 0 <= i < |k| ==> Position(s, windowIds, i) < |s| && s[Position(s, windowIds, i)] == k[i])
      && (forall i, j :: 0 <= i < j < |k| ==> Position(s, windowIds, i) < Position(s, windowIds, j))
  {
    if |s| > 0 {
      KeptSubsequence(s[1..], windowIds);
    }
  }

  /**
   * Asking twice for the same size gives the same group and changes
   * nothing the second time.
   */
  lemma GroupForIdempotent(r: Registry, m: Metrics, windowIds: seq<nat>)
    ensures var f := GroupFor(r, m, windowIds);
      GroupFor(f.registry, m, windowIds) == f
  {
    var f := GroupFor(r, m, windowIds);
    match FirstWithMetrics(r.groups, m, 0)
    case Some(i) =>
    case None =>
      var kept := if |r.groups| > 0 then Kept(r.groups, windowIds) else r.groups;
      KeptMembers(r.groups, windowIds);
      forall i | 0 <= i < |kept|
        ensures kept[i].metrics != m
      {
        assert kept[i] in r.groups;
      }
  }

  /** The font group list: a buffer of groups, the number in use and the id counter. */
  class FontGroupList {
    var groups: array<GroupRec>
    var count: nat
    var lastId: nat

    ghost predicate Valid()
      reads this
    {
      count <= groups.Length
    }

    function State(): Registry
      reads this, groups
      requires Valid()
    {
      Registry(groups[..count], lastId)
    }

    constructor ()
      ensures Valid() && State() == Registry([], 0)
    {
      groups := new GroupRec[0];
      count, lastId := 0, 0;
    }

    /** font_group_is_unused: no window holds the group's id. */
    static method FontGroupIsUnused(g: GroupRec, windowIds: seq<nat>) returns (r: bool)
      ensures r <==> g.id !in windowIds
    {
      var o := 0;
      while o < |windowIds|
        invariant o <= |windowIds| && g.id !in windowIds[..o]
      {
        if windowIds[o] == g.id {
          return false;
        }
        o := o + 1;
        assert windowIds[..o] == windowIds[..o - 1] + [windowIds[o - 1]];
      }
      assert windowIds[..o] == windowIds;
      return true;
    }

    /** memmove(&a[i], &a[i + 1], (n - i) * sizeof *a): the cells after i move one place left. */
    static method ShiftDown(a: array<GroupRec>, i: nat, n: nat)
      requires i < n < a.Length
      modifies a
      ensures a[..n] == old(a[..i]) + old(a[i + 1..n + 1])
    {
      ghost var before := a[..];
      forall k | i <= k < n {
        a[k] := a[k + 1];
      }
      assert a[..n] == before[..i] + before[i + 1..n + 1];
    }

    /**
     * Dropping the unused group at index i: the groups to its right shift
     * left by one; when it was the last group the loop breaks.
     */
    method DropAt(i: nat, windowIds: seq<nat>, ghost target: seq<GroupRec>) returns (next: nat, stop: bool)
      requires Valid() && i < count && groups[i].id !in windowIds
      requires target == groups[..i] + Kept(groups[i..count], windowIds)
      modifies this, groups
      ensures Valid() && groups == old(groups) && lastId == old(lastId)
      ensures next <= count && count - next < old(count) - i
      ensures stop ==> next == count
      ensures target == groups[..next] + Kept(groups[next..count], windowIds)
    {
      ghost var a, n := groups[..], count;
      DropUnused(a, i, n, windowIds);
      count := count - 1;
      var numToRight := count - i;
      if numToRight == 0 {
        assert groups[..count] == a[..i] && a[i + 1..n] == [];
        return count, true;
      }
      ShiftDown(groups, i, count);
      SplitJoined(groups[..], a[..i], a[i + 1..n], count);
      return i, false;
    }

    /**
     * One turn of trim_unused_font_groups at index i: keep a used group and
     * move on, or drop an unused one, reporting the loop's break when it
     * was the last group.
     */
    method TrimAt(i: nat, windowIds: seq<nat>, ghost target: seq<GroupRec>) returns (next: nat, stop: bool)
      requires Valid() && i < count
      requires target == groups[..i] + Kept(groups[i..count], windowIds)
      modifies this, groups
      ensures Valid() && groups == old(groups) && lastId == old(lastId)
      ensures next <= count && count - next < old(count) - i
      ensures stop ==> next == count
      ensures target == groups[..next] + Kept(groups[next..count], windowIds)
    {
      var unused := FontGroupIsUnused(groups[i], windowIds);
      if unused {
        next, stop := DropAt(i, windowIds, target);
        return;
      }
      ghost var done, rest := groups[..i], groups[i..count];
      KeptCons(rest, windowIds);
      assert rest[1..] == groups[i + 1..count];
      assert groups[..i + 1] == done + [rest[0]];
      return i + 1, false;
    }

    /**
     * trim_unused_font_groups: walk the list, dropping each group no
     * window uses, so that the used ones remain, in order.
     */
    method TrimUnusedFontGroups(windowIds: seq<nat>)
      requires Valid()
      modifies this, groups
      ensures Valid() && groups == old(groups) && lastId == old(lastId)
      ensures groups[..count] == Kept(old(groups[..count]), windowIds)
    {
      ghost var target := Kept(groups[..count], windowIds);
      assert groups[..count] == groups[..0] + groups[0..count];
      var i: nat := 0;
      while i < count
        invariant Valid() && i <= count && groups == old(groups) && lastId == old(lastId)
        invariant target == groups[..i] + Kept(groups[i..count], windowIds)
        decreases count - i
      {
        var stop;
        i, stop := TrimAt(i, windowIds, target);
        if stop {
          break;
        }
      }
      assert groups[i..count] == [];
    }

    /**
     * add_font_group: trim when the list is not empty, grow the buffer by
     * five slots when it is full, and take one more slot.
     */
    method AddFontGroup(windowIds: seq<nat>)
      requires Valid()
      modifies this, groups
      ensures Valid() && lastId == old(lastId) && count >= 1
      ensures groups[..count - 1] == (if old(count) > 0 then Kept(old(groups[..count]), windowIds) else [])
      ensures groups == old(groups) || fresh(groups)
    {
      if count > 0 {
        TrimUnusedFontGroups(windowIds);
      }
      if count >= groups.Length {
        var grown := new GroupRec[groups.Length + 5](_ => GroupRec(0, Metrics(0, 0, 0)));
        forall k | 0 <= k < groups.Length {
          grown[k] := groups[k];
        }
        assert grown[..count] == groups[..count];
        groups := grown;
      }
      count := count + 1;
    }

    /**
     * The miss path of font_group_for: add a slot and fill it with a new
     * group for m under the next id.
     */
    method AppendGroupFor(m: Metrics, windowIds: seq<nat>) returns (idx: nat)
      requires Valid()
      modifies this, groups
      ensures Valid()
      ensures var kept := if |old(State()).groups| > 0 then Kept(old(State()).groups, windowIds) else old(State()).groups;
        Found(idx, State()) == Found(|kept|, Registry(kept + [GroupRec(old(lastId) + 1, m)], old(lastId) + 1))
    {
      AddFontGroup(windowIds);
      lastId := lastId + 1;
      groups[count - 1] := GroupRec(lastId, m);
      idx := count - 1;
      assert groups[..count] == groups[..count - 1] + [groups[count - 1]];
    }

    /**
     * font_group_for: scan the groups for one built for m; otherwise add a
     * slot and fill it with a new group for m under the next id.
     */
    method FontGroupFor(m: Metrics, windowIds: seq<nat>) returns (idx: nat)
      requires Valid()
      modifies this, groups
      ensures Valid()
      ensures Found(idx, State()) == GroupFor(old(State()), m, windowIds)
    {
      var i := 0;
      while i < count
        invariant i <= count
        invariant FirstWithMetrics(groups[..count], m, 0) == FirstWithMetrics(groups[..count], m, i)
      {
        if groups[i].metrics == m {
          return i;
        }
        i := i + 1;
      }
      idx := AppendGroupFor(m, windowIds);
    }
  }
}
