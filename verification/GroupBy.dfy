/** Grouping a batch in place so that equal elements become neighbours. */
module GroupBy {

  datatype Range = Range(start: nat, end: nat)

  ghost predicate Equivalence<T(!new)>(eq: (T, T) -> bool) {
    && (forall x :: eq(x, x))
    && (forall x, y :: eq(x, y) ==> eq(y, x))
    && (forall x, y, z :: eq(x, y) && eq(y, z) ==> eq(x, z))
  }

  /** The elements equal to `x`, in order. */
  function Filter<T>(s: seq<T>, eq: (T, T) -> bool, x: T): (r: seq<T>)
    ensures forall y | y in r :: eq(y, x)
  {
    if s == [] then [] else
      var last := s[|s| - 1];
      Filter(s[..|s| - 1], eq, x) + if eq(last, x) then [last] else []
  }

  /** Non-empty consecutive ranges that cover 0..n. */
  predicate Tiles(groups: seq<Range>, n: nat) {
    if groups == [] then n == 0 else
      var last := groups[|groups| - 1];
      last.start < last.end == n && Tiles(groups[..|groups| - 1], last.start)
  }

  predicate InRange(g: Range, i: int) {
    g.start <= i < g.end
  }

  /** A range that holds exactly the elements equal to its first. */
  ghost predicate IsClass<T>(s: seq<T>, g: Range, eq: (T, T) -> bool) {
    && g.start < g.end <= |s|
    && forall i | 0 <= i < |s| :: eq(s[i], s[g.start]) <==> InRange(g, i)
  }

  ghost predicate Classifies<T>(s: seq<T>, groups: seq<Range>, eq: (T, T) -> bool) {
    forall g | g in groups :: IsClass(s, g, eq)
  }

  lemma {:induction false} FilterAll<T>(s: seq<T>, eq: (T, T) -> bool, x: T)
    requires forall y | y in s :: eq(y, x)
    ensures Filter(s, eq, x) == s
  {
    if s != [] {
      FilterAll(s[..|s| - 1], eq, x);
      assert s == s[..|s| - 1] + [s[|s| - 1]];
    }
  }

  lemma {:induction false} FilterNone<T>(s: seq<T>, eq: (T, T) -> bool, x: T)
    requires forall y | y in s :: !eq(y, x)
    ensures Filter(s, eq, x) == []
  {
    if s != [] {
      FilterNone(s[..|s| - 1], eq, x);
    }
  }

  lemma {:induction false} FilterAppend<T>(a: seq<T>, b: seq<T>, eq: (T, T) -> bool, x: T)
    ensures Filter(a + b, eq, x) == Filter(a, eq, x) + Filter(b, eq, x)
  {
    if b == [] {
      assert a + b == a;
    } else {
      FilterAppend(a, b[..|b| - 1], eq, x);
      assert (a + b)[..|a + b| - 1] == a + b[..|b| - 1];
    }
  }

  lemma FilterStep<T>(s: seq<T>, a: nat, b: nat, eq: (T, T) -> bool, x: T)
    requires a <= b < |s|
    ensures Filter(s[a..b + 1], eq, x) == Filter(s[a..b], eq, x) + if eq(s[b], x) then [s[b]] else []
  {
    assert s[a..b + 1][..b - a] == s[a..b];
  }

  lemma {:induction false} FilterCounts<T>(s: seq<T>, eq: (T, T) -> bool, x: T, y: T)
    ensures multiset(Filter(s, eq, x))[y] == if eq(y, x) then multiset(s)[y] else 0
  {
    if s != [] {
      FilterCounts(s[..|s| - 1], eq, x, y);
      assert s == s[..|s| - 1] + [s[|s| - 1]];
    }
  }

  lemma ClassIsFilter<T>(s: seq<T>, g: Range, eq: (T, T) -> bool)
    requires IsClass(s, g, eq)
    ensures s[g.start..g.end] == Filter(s, eq, s[g.start])
  {
    hide Filter;
    var x := s[g.start];
    var left, mine, right := s[..g.start], s[g.start..g.end], s[g.end..];
    FilterAppend(left + mine, right, eq, x);
    FilterAppend(left, mine, eq, x);
    assert s == left + mine + right;
    forall y | y in right
      ensures !eq(y, x)
    {
      var i :| 0 <= i < |right| && right[i] == y;
      assert s[g.end + i] == y && !InRange(g, g.end + i);
    }
    FilterNone(left, eq, x);
    FilterAll(mine, eq, x);
    FilterNone(right, eq, x);
  }

  /** A class of a rearrangement holds exactly the elements of the original
      batch that are equal to its first. */
  lemma GroupIsWholeClass<T>(before: seq<T>, after: seq<T>, g: Range, eq: (T, T) -> bool)
    requires multiset(before) == multiset(after) && IsClass(after, g, eq)
    ensures multiset(after[g.start..g.end]) == multiset(Filter(before, eq, after[g.start]))
  {
    hide Filter;
    var x := after[g.start];
    ClassIsFilter(after, g, eq);
    var a, b := multiset(Filter(after, eq, x)), multiset(Filter(before, eq, x));
    forall y: T | y in a + b
      ensures a[y] == b[y]
    {
      FilterCounts(before, eq, x, y);
      FilterCounts(after, eq, x, y);
    }
    assert a == b;
  }

  /** Elements of one batch are equal exactly when they share a range. */
  lemma EqualMeansSameRange<T(!new)>(s: seq<T>, groups: seq<Range>, eq: (T, T) -> bool, i: nat, j: nat)
    requires Equivalence(eq) && Tiles(groups, |s|) && Classifies(s, groups, eq) && i < |s| && j < |s|
    ensures eq(s[i], s[j]) <==> exists g :: g in groups && InRange(g, i) && InRange(g, j)
  {
    TilesCover(groups, |s|, i);
    var g :| g in groups && InRange(g, i);
    assert IsClass(s, g, eq);
  }

  lemma {:induction false} TilesCover(groups: seq<Range>, n: nat, i: nat)
    requires Tiles(groups, n)
    ensures forall g | g in groups :: g.start < g.end <= n
    ensures i < n ==> exists g :: g in groups && InRange(g, i)
  {
    if groups != [] {
      var last := groups[|groups| - 1];
      TilesCover(groups[..|groups| - 1], last.start, i);
      if i < n {
        if i < last.start {
          var g :| g in groups[..|groups| - 1] && InRange(g, i);
          assert g in groups;
        } else {
          assert InRange(last, i);
        }
      }
    }
  }

  /** Rearranging what lies behind all ranges disturbs none of them. */
  lemma ClassStays<T>(s: seq<T>, t: seq<T>, g: Range, from: nat, eq: (T, T) -> bool)
    requires IsClass(s, g, eq) && g.end <= from <= |s| == |t|
    requires s[..from] == t[..from] && multiset(s[from..]) == multiset(t[from..])
    ensures IsClass(t, g, eq)
  {
    assert forall i | 0 <= i < from :: s[i] == s[..from][i] == t[i];
    forall i | from <= i < |t|
      ensures !eq(t[i], t[g.start])
    {
      assert t[i] == t[from..][i - from] && t[i] in multiset(t[from..]);
      var k :| 0 <= k < |s[from..]| && s[from..][k] == t[i];
      assert s[from + k] == t[i] && !InRange(g, from + k);
    }
  }

  lemma AddGroup<T(!new)>(s: seq<T>, groups: seq<Range>, beg: nat, end: nat, eq: (T, T) -> bool)
    requires Equivalence(eq) && Classifies(s, groups, eq) && Tiles(groups, beg) && beg < end <= |s|
    requires forall k | beg <= k < end :: eq(s[k], s[beg])
    requires forall k | end <= k < |s| :: !eq(s[k], s[beg])
    ensures Tiles(groups + [Range(beg, end)], end)
    ensures Classifies(s, groups + [Range(beg, end)], eq)
  {
    var mine := Range(beg, end);
    assert (groups + [mine])[..|groups|] == groups;
    forall j | 0 <= j < beg
      ensures !eq(s[j], s[beg])
    {
      TilesCover(groups, beg, j);
      var g :| g in groups && InRange(g, j);
      assert IsClass(s, g, eq) && !InRange(g, beg);
    }
    assert IsClass(s, mine, eq);
  }

  lemma SwapKeepsMultiset<T>(s: seq<T>, i: nat, j: nat)
    requires i < |s| && j < |s|
    ensures multiset(s[i := s[j]][j := s[i]]) == multiset(s)
  {
  }

  method SwapElements<T>(data: array<T>, i: nat, j: nat)
    requires i < data.Length && j < data.Length
    modifies data
    ensures data[i] == old(data[j]) && data[j] == old(data[i])
    ensures forall k | 0 <= k < data.Length && k != i && k != j :: data[k] == old(data[k])
    ensures multiset(data[..]) == old(multiset(data[..]))
  {
    SwapKeepsMultiset(data[..], i, j);
    ghost var s := data[..];
    data[i], data[j] := data[j], data[i];
    assert data[..] == s[i := s[j]][j := s[i]];
  }

  /** The probe loop: moves every later element equal to `data[beg]` up to the
      end of the current group, in order. */
  method PullForward<T(!new)>(data: array<T>, beg: nat, end0: nat, n: nat, eq: (T, T) -> bool) returns (end: nat)
    requires beg < end0 < n <= data.Length && !eq(data[end0], data[beg])
    modifies data
    ensures end0 <= end < n
    ensures data[..end0] == old(data[..end0]) && data[n..] == old(data[n..])
    ensures data[end0..end] == Filter(old(data[end0..n]), eq, old(data[beg]))
    ensures forall k | end <= k < n :: !eq(data[k], old(data[beg]))
    ensures multiset(data[..]) == old(multiset(data[..]))
  {
    hide Filter;
    ghost var before, x := data[..], data[beg];
    end := end0;
    var probe := end + 1;
    ghost var pulled: seq<T> := [];
    FilterNone(before[end0..probe], eq, x);
    while probe < n
      invariant end0 <= end < probe <= n
      invariant forall k | 0 <= k < end0 || probe <= k < data.Length :: data[k] == before[k]
      invariant pulled == Filter(before[end0..probe], eq, x) && |pulled| == end - end0
      invariant forall k | end0 <= k < end :: data[k] == pulled[k - end0]
      invariant forall k | end <= k < probe :: !eq(data[k], x)
      invariant multiset(data[..]) == multiset(before)
    {
      FilterStep(before, end0, probe, eq, x);
      if eq(data[probe], data[beg]) {
        SwapElements(data, probe, end);
        pulled := pulled + [before[probe]];
        end := end + 1;
      }
      probe := probe + 1;
    }
    assert data[end0..end] == pulled;
  }

  /** Groups the first `n` elements. On a non-empty batch the result is a
      permutation in which the ranges tile the batch and each holds exactly one
      class; the first range keeps arrival order. On an empty batch the one
      range reported is not part of it. */
  method GroupByInner<T(!new)>(data: array<T>, n: nat, eq: (T, T) -> bool) returns (groups: seq<Range>)
    requires n <= data.Length && Equivalence(eq)
    modifies data
    ensures data[n..] == old(data[n..])
    ensures multiset(data[..n]) == old(multiset(data[..n]))
    ensures n > 0 ==> Tiles(groups, n) && Classifies(data[..n], groups, eq)
    ensures n > 0 ==> |groups| > 0 && groups[0].end <= n
    ensures n > 0 ==> data[..groups[0].end] == Filter(old(data[..n]), eq, old(data[0]))
    ensures n == 0 ==> groups == [Range(0, 1)]
  {
    hide Grouped, Tiles, Classifies, Filter;
    groups := [];
    var beg, end := 0, 1;
    ghost var before := data[..];
    ghost var now := before;
    NoGroupsYet(before, n, eq);
    while end < n
      invariant now == data[..]
      invariant if n == 0 then beg == 0 && end == 1 && groups == [] && now == before else beg < end <= n
      invariant n > 0 ==> Grouped(before, now, groups, beg, n, eq)
      invariant n > 0 ==> forall k | beg <= k < end :: eq(now[k], now[beg])
    {
      if eq(data[end], data[beg]) {
        end := end + 1;
        continue;
      }
      ghost var passed, prior := end, now;
      end := PullForward(data, beg, end, n, eq);
      now := data[..];
      NextGroup(before, prior, now, groups, beg, passed, end, n, eq);
      groups := groups + [Range(beg, end)];
      beg, end := end, end + 1;
    }
    if n > 0 {
      LastGroup(before, now, groups, beg, n, eq);
    }
    groups := groups + [Range(beg, end)];
  }

  /** The state between two groups: the batch before `beg` is grouped, and the
      first group is the class of the first element in arrival order. */
  ghost predicate Grouped<T(!new)>(before: seq<T>, now: seq<T>, groups: seq<Range>, beg: nat, n: nat,
      eq: (T, T) -> bool)
  {
    && 0 < n <= |before| == |now|
    && now[n..] == before[n..] && multiset(now) == multiset(before)
    && Tiles(groups, beg) && Classifies(now[..n], groups, eq)
    && if groups == [] then beg == 0 && now == before else
         groups[0].end <= beg <= n && now[..groups[0].end] == Filter(before[..n], eq, before[0])
  }

  lemma NoGroupsYet<T(!new)>(s: seq<T>, n: nat, eq: (T, T) -> bool)
    requires n <= |s|
    ensures n > 0 ==> Grouped(s, s, [], 0, n, eq)
  {
  }

  lemma NextGroup<T(!new)>(before: seq<T>, s: seq<T>, t: seq<T>, groups: seq<Range>, beg: nat, passed: nat, end: nat,
      n: nat, eq: (T, T) -> bool)
    requires Equivalence(eq) && Grouped(before, s, groups, beg, n, eq)
    requires beg < passed <= end <= n <= |s| == |t|
    requires forall k | beg <= k < passed :: eq(s[k], s[beg])
    requires t[..passed] == s[..passed] && t[n..] == s[n..] && multiset(s) == multiset(t)
    requires t[passed..end] == Filter(s[passed..n], eq, s[beg])
    requires forall k | end <= k < n :: !eq(t[k], s[beg])
    ensures Grouped(before, t, groups + [Range(beg, end)], end, n, eq)
  {
    hide Tiles, Classifies, Filter, Equivalence;
    RegroupedBatch(s, t, groups, beg, passed, end, n, eq);
    if groups != [] {
      assert t[..groups[0].end] == t[..passed][..groups[0].end] == s[..groups[0].end];
    }
  }

  lemma SameFront<T>(s: seq<T>, t: seq<T>, n: nat)
    requires n <= |s| == |t| && s[n..] == t[n..] && multiset(s) == multiset(t)
    ensures multiset(s[..n]) == multiset(t[..n])
  {
    SplitMultiset(s, n);
    SplitMultiset(t, n);
    Cancel(multiset(s[..n]), multiset(t[..n]), multiset(s[n..]));
  }

  lemma SplitMultiset<T>(s: seq<T>, n: nat)
    requires n <= |s|
    ensures multiset(s) == multiset(s[..n]) + multiset(s[n..])
  {
    assert s == s[..n] + s[n..];
  }

  lemma Cancel<T>(a: multiset<T>, b: multiset<T>, c: multiset<T>)
    requires a + c == b + c
    ensures a == b
  {
    forall x
      ensures a[x] == b[x]
    {
      assert (a + c)[x] == (b + c)[x];
    }
  }

  lemma SameMiddle<T>(s: seq<T>, t: seq<T>, a: nat, b: nat)
    requires a <= b <= |s| == |t| && s[..a] == t[..a] && s[b..] == t[b..] && multiset(s) == multiset(t)
    ensures s[..b][..a] == t[..b][..a]
    ensures multiset(s[..b][a..]) == multiset(t[..b][a..])
  {
    SameFront(s, t, b);
    SplitMultiset(s[..b], a);
    SplitMultiset(t[..b], a);
    var front := multiset(s[..b][..a]);
    assert s[..b][..a] == s[..a] && t[..b][..a] == t[..a];
    assert multiset(s[..b][a..]) + front == front + multiset(s[..b][a..]);
    assert multiset(t[..b][a..]) + front == front + multiset(t[..b][a..]);
    Cancel(multiset(s[..b][a..]), multiset(t[..b][a..]), front);
  }

  /** The last group reaches the end of the batch. */
  lemma LastGroup<T(!new)>(before: seq<T>, now: seq<T>, groups: seq<Range>, beg: nat, n: nat, eq: (T, T) -> bool)
    requires Equivalence(eq) && Grouped(before, now, groups, beg, n, eq) && beg < n
    requires forall k | beg <= k < n :: eq(now[k], now[beg])
    ensures var all := groups + [Range(beg, n)];
      && now[n..] == before[n..] && multiset(now[..n]) == multiset(before[..n])
      && Tiles(all, n) && Classifies(now[..n], all, eq)
      && all[0].end <= n && now[..all[0].end] == Filter(before[..n], eq, before[0])
  {
    hide Tiles, Classifies, Filter;
    AddGroup(now[..n], groups, beg, n, eq);
    SameFront(before, now, n);
    if groups == [] {
      FilterAll(now[..n], eq, now[0]);
    }
  }

  /** What the probe loop leaves: the old ranges stand, and one more is complete. */
  lemma RegroupedBatch<T(!new)>(s: seq<T>, t: seq<T>, groups: seq<Range>, beg: nat, passed: nat, end: nat, n: nat,
      eq: (T, T) -> bool)
    requires Equivalence(eq) && beg < passed <= end <= n <= |s| == |t|
    requires Tiles(groups, beg) && Classifies(s[..n], groups, eq)
    requires forall k | beg <= k < passed :: eq(s[k], s[beg])
    requires t[..passed] == s[..passed] && t[n..] == s[n..] && multiset(s) == multiset(t)
    requires t[passed..end] == Filter(s[passed..n], eq, s[beg])
    requires forall k | end <= k < n :: !eq(t[k], s[beg])
    ensures Tiles(groups + [Range(beg, end)], end) && Classifies(t[..n], groups + [Range(beg, end)], eq)
    ensures beg == 0 ==> t[..end] == Filter(s[..n], eq, s[0])
  {
    hide Filter, Tiles;
    SameMiddle(s, t, passed, n);
    TilesCover(groups, beg, 0);
    forall g | g in groups
      ensures IsClass(t[..n], g, eq)
    {
      ClassStays(s[..n], t[..n], g, passed, eq);
    }
    forall k | passed <= k < end
      ensures eq(t[k], s[beg])
    {
      assert t[k] == t[passed..end][k - passed];
    }
    assert forall k | 0 <= k < passed :: t[k] == s[..passed][k] == s[k];
    AddGroup(t[..n], groups, beg, end, eq);
    if beg == 0 {
      FilterAll(s[..passed], eq, s[0]);
      FilterAppend(s[..passed], s[passed..n], eq, s[0]);
      assert s[..n] == s[..passed] + s[passed..n] && t[..end] == t[..passed] + t[passed..end];
    }
  }
}
