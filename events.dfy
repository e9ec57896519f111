/** Event consolidation of the stroke-rate estimator: group_close merges
    nearby turning points of one kind, and alternating_extrema merges the two
    kinds by index and forces strict maximum/minimum alternation. */
module Events {
  import opened Results
  import opened Signal
  import opened Sorting

  /** A turning point of the smoothed signal. */
  datatype Event = Event(index: nat, kind: Kind)

  function Last<T>(s: seq<T>): T
    requires |s| > 0
  {
    s[|s| - 1]
  }

  predicate NonDecreasing(s: seq<nat>)
  {
    forall i, j :: 0 <= i < j < |s| ==> s[i] <= s[j]
  }

  predicate ValidIndices(s: seq<nat>, y: seq<real>)
  {
    forall t :: 0 <= t < |s| ==> s[t] < |y|
  }

  // ---------------------------------------------------------------------
  // group_close
  // ---------------------------------------------------------------------

  /** The grouping loop of group_close: each index joins the current group
      when it is at most `d` past that group's last member, and opens a new
      group otherwise. */
  function Chains(s: seq<nat>, d: int): (gs: seq<seq<nat>>)
    ensures |gs| <= |s|
    ensures |gs| == 0 <==> |s| == 0
    ensures forall k :: 0 <= k < |gs| ==> |gs[k]| > 0
    ensures |s| > 0 ==> Last(Last(gs)) == Last(s)
  {
    if s == [] then []
    else
      var gs := Chains(s[..|s| - 1], d);
      var i := Last(s);
      if gs != [] && i - Last(Last(gs)) <= d then gs[..|gs| - 1] + [Last(gs) + [i]]
      else gs + [[i]]
  }

  /** Concatenation of a list of groups. */
  function Flatten(gs: seq<seq<nat>>): seq<nat>
  {
    if gs == [] then [] else Flatten(gs[..|gs| - 1]) + Last(gs)
  }

  /** The groups partition the input: concatenated in order they give it back. */
  lemma {:induction false} ChainsPartition(s: seq<nat>, d: int)
    ensures Flatten(Chains(s, d)) == s
  {
    if s != [] {
      var p := s[..|s| - 1];
      var gs := Chains(p, d);
      ChainsPartition(p, d);
      var i := Last(s);
      if gs != [] && i - Last(Last(gs)) <= d {
        var n := |gs| - 1;
        var gs' := gs[..n] + [gs[n] + [i]];
        assert gs'[..n] == gs[..n];
        assert Flatten(gs) == Flatten(gs[..n]) + gs[n];
        assert Flatten(gs') == Flatten(gs[..n]) + (gs[n] + [i]);
      } else {
        assert (gs + [[i]])[..|gs|] == gs;
      }
      assert s == p + [i];
    }
  }

  /** Every member of a group is an input index. */
  lemma {:induction false} ChainsMembers(s: seq<nat>, d: int)
    ensures forall k, x :: 0 <= k < |Chains(s, d)| && x in Chains(s, d)[k] ==> x in s
  {
    if s != [] {
      var p := s[..|s| - 1];
      ChainsMembers(p, d);
      assert forall x :: x in p ==> x in s;
    }
  }

  /** Inside every group consecutive members are at most `d` apart. */
  predicate Linked(gs: seq<seq<nat>>, d: int)
  {
    forall k, t :: 0 <= k < |gs| && 0 <= t < |gs[k]| - 1 ==> gs[k][t + 1] - gs[k][t] <= d
  }

  /** The first member of each group is more than `d` past the last member
      of the group before it. */
  predicate Separated(gs: seq<seq<nat>>, d: int)
    requires forall k :: 0 <= k < |gs| ==> |gs[k]| > 0
  {
    forall k :: 0 <= k < |gs| - 1 ==> gs[k + 1][0] - Last(gs[k]) > d
  }

  /** The chaining is measured to the last member of the current group:
      consecutive members of a group are at most `d` apart. */
  lemma {:induction false} ChainsLinked(s: seq<nat>, d: int)
    ensures Linked(Chains(s, d), d)
  {
    if s != [] {
      var p := s[..|s| - 1];
      var gs := Chains(p, d);
      ChainsLinked(p, d);
      var i := Last(s);
      var gs' := Chains(s, d);
      if gs != [] && i - Last(Last(gs)) <= d {
        var n := |gs| - 1;
        assert gs' == gs[..n] + [gs[n] + [i]];
        forall k, t | 0 <= k < |gs'| && 0 <= t < |gs'[k]| - 1
          ensures gs'[k][t + 1] - gs'[k][t] <= d
        {
          if k < n {
            assert gs'[k] == gs[k];
          } else if t < |gs[n]| - 1 {
            assert gs'[k][t] == gs[n][t] && gs'[k][t + 1] == gs[n][t + 1];
          } else {
            assert gs'[k][t] == Last(gs[n]) && gs'[k][t + 1] == i;
          }
        }
      } else {
        assert gs' == gs + [[i]];
        forall k, t | 0 <= k < |gs'| && 0 <= t < |gs'[k]| - 1
          ensures gs'[k][t + 1] - gs'[k][t] <= d
        {
          assert gs'[k] == gs[k];
        }
      }
    }
  }

  /** A new group starts only after a gap larger than `d`. */
  lemma {:induction false} ChainsSeparated(s: seq<nat>, d: int)
    ensures Separated(Chains(s, d), d)
  {
    if s != [] {
      var p := s[..|s| - 1];
      var gs := Chains(p, d);
      ChainsSeparated(p, d);
      var i := Last(s);
      if gs != [] && i - Last(Last(gs)) <= d {
        SeparatedExtendLast(gs, i, d);
      } else {
        SeparatedAppend(gs, i, d);
      }
    }
  }

  /** Growing the last group keeps the groups separated. */
  lemma SeparatedExtendLast(gs: seq<seq<nat>>, i: nat, d: int)
    requires |gs| > 0 && forall k :: 0 <= k < |gs| ==> |gs[k]| > 0
    requires Separated(gs, d)
    ensures var gs' := gs[..|gs| - 1] + [Last(gs) + [i]];
      (forall k :: 0 <= k < |gs'| ==> |gs'[k]| > 0) && Separated(gs', d)
  {
    var n := |gs| - 1;
    var gs' := gs[..n] + [gs[n] + [i]];
    assert forall k :: 0 <= k < n ==> gs'[k] == gs[k];
    assert gs'[n][0] == gs[n][0];
  }

  /** A group opened more than `d` past the last member keeps the groups
      separated. */
  lemma SeparatedAppend(gs: seq<seq<nat>>, i: nat, d: int)
    requires forall k :: 0 <= k < |gs| ==> |gs[k]| > 0
    requires Separated(gs, d)
    requires gs != [] ==> i - Last(Last(gs)) > d
    ensures var gs' := gs + [[i]];
      (forall k :: 0 <= k < |gs'| ==> |gs'[k]| > 0) && Separated(gs', d)
  {
    var gs' := gs + [[i]];
    assert forall k :: 0 <= k < |gs| ==> gs'[k] == gs[k];
  }

  /** On sorted input, every member of an earlier group lies more than `d`
      below every member of a later group. */
  predicate Ordered(gs: seq<seq<nat>>, d: int)
  {
    forall k1, k2, x, z :: 0 <= k1 < k2 < |gs| && x in gs[k1] && z in gs[k2] ==> x + d < z
  }

  lemma {:induction false} ChainsOrdered(s: seq<nat>, d: int)
    requires NonDecreasing(s)
    ensures Ordered(Chains(s, d), d)
  {
    if s != [] {
      var p := s[..|s| - 1];
      var gs := Chains(p, d);
      var i := Last(s);
      ChainsOrdered(p, d);
      ChainsMembers(p, d);
      forall k, x | 0 <= k < |gs| && x in gs[k] ensures x <= i {
        assert x in p;
        var j :| 0 <= j < |p| && p[j] == x;
        assert s[j] <= s[|s| - 1];
      }
      if gs != [] && i - Last(Last(gs)) <= d {
        OrderedExtendLast(gs, i, d);
      } else {
        forall k, x | 0 <= k < |gs| && x in gs[k] ensures x + d < i {
          assert x in p;
          var j :| 0 <= j < |p| && p[j] == x;
          assert s[j] <= s[|p| - 1];
        }
        OrderedAppend(gs, i, d);
      }
    }
  }

  /** Adding an index that is no smaller than every member to the last group
      keeps the groups ordered. */
  lemma OrderedExtendLast(gs: seq<seq<nat>>, i: nat, d: int)
    requires |gs| > 0 && |Last(gs)| > 0 && Ordered(gs, d)
    requires forall k, x :: 0 <= k < |gs| && x in gs[k] ==> x <= i
    ensures Ordered(gs[..|gs| - 1] + [Last(gs) + [i]], d)
  {
    var n := |gs| - 1;
    var gs' := gs[..n] + [gs[n] + [i]];
    var first := gs[n][0];
    assert first in gs[n];
    forall k1, k2, x, z | 0 <= k1 < k2 < |gs'| && x in gs'[k1] && z in gs'[k2]
      ensures x + d < z
    {
      assert gs'[k1] == gs[k1];
      if k2 < n {
        assert gs'[k2] == gs[k2];
      } else if z in gs[n] {
      } else {
        assert x + d < first;
      }
    }
  }

  /** Opening a new group with an index more than `d` past every member
      keeps the groups ordered. */
  lemma OrderedAppend(gs: seq<seq<nat>>, i: nat, d: int)
    requires Ordered(gs, d)
    requires forall k, x :: 0 <= k < |gs| && x in gs[k] ==> x + d < i
    ensures Ordered(gs + [[i]], d)
  {
    var gs' := gs + [[i]];
    forall k1, k2, x, z | 0 <= k1 < k2 < |gs'| && x in gs'[k1] && z in gs'[k2]
      ensures x + d < z
    {
      assert gs'[k1] == gs[k1];
      if k2 < |gs| {
        assert gs'[k2] == gs[k2];
      }
    }
  }

  /** Whether value `a` beats `b` in the given mode: strictly higher for
      maxima, strictly lower for minima. */
  predicate Beats(kind: Kind, a: real, b: real)
  {
    match kind
    case Max => a > b
    case Min => a < b
  }

  /** Position in `g` of max(g, key=lambda j: y[j]) (or min): a member nothing
      beats, and the first one, since Python keeps the earlier of equal keys. */
  function ExtremePos(g: seq<nat>, y: seq<real>, kind: Kind): (p: nat)
    requires |g| > 0 && ValidIndices(g, y)
    ensures p < |g|
    ensures forall t :: 0 <= t < |g| ==> !Beats(kind, y[g[t]], y[g[p]])
    ensures forall t :: 0 <= t < p ==> Beats(kind, y[g[p]], y[g[t]])
  {
    if |g| == 1 then 0
    else
      var b := ExtremePos(g[..|g| - 1], y, kind);
      if Beats(kind, y[Last(g)], y[g[b]]) then |g| - 1 else b
  }

  function Representative(g: seq<nat>, y: seq<real>, kind: Kind): nat
    requires |g| > 0 && ValidIndices(g, y)
  {
    g[ExtremePos(g, y, kind)]
  }

  predicate ValidGroups(gs: seq<seq<nat>>, y: seq<real>)
  {
    forall k :: 0 <= k < |gs| ==> |gs[k]| > 0 && ValidIndices(gs[k], y)
  }

  lemma RepresentativeIn(g: seq<nat>, y: seq<real>, kind: Kind)
    requires |g| > 0 && ValidIndices(g, y)
    ensures Representative(g, y, kind) in g
  {
  }

  function Representatives(gs: seq<seq<nat>>, y: seq<real>, kind: Kind): (out: seq<nat>)
    requires ValidGroups(gs, y)
    ensures |out| == |gs|
  {
    seq(|gs|, k requires 0 <= k < |gs| => Representative(gs[k], y, kind))
  }

  function IndexKey(i: nat): real { i as real }

  /** np.sort of an index array. */
  function SortIndices(idxs: seq<nat>): (s: seq<nat>)
    ensures |s| == |idxs| && NonDecreasing(s)
    ensures forall x :: x in s <==> x in idxs
  {
    var s := SortBy(idxs, IndexKey);
    forall x ensures x in s <==> x in idxs { SortByMembers(idxs, IndexKey, x); }
    s
  }

  /** The groups group_close forms over its sorted input. */
  function Groups(idxs: seq<nat>, y: seq<real>, d: int): (gs: seq<seq<nat>>)
    requires ValidIndices(idxs, y)
    ensures ValidGroups(gs, y)
  {
    var s := SortIndices(idxs);
    ChainsMembers(s, d);
    var gs := Chains(s, d);
    forall k, t | 0 <= k < |gs| && 0 <= t < |gs[k]| ensures gs[k][t] < |y| {
      assert gs[k][t] in gs[k];
      assert gs[k][t] in idxs;
      var j :| 0 <= j < |idxs| && idxs[j] == gs[k][t];
    }
    gs
  }

  /** group_close: one representative per group, or the input itself when
      it is empty. */
  function Grouped(idxs: seq<nat>, y: seq<real>, d: int, kind: Kind): (out: seq<nat>)
    requires ValidIndices(idxs, y)
    ensures |out| <= |idxs| && (|out| == 0 <==> |idxs| == 0)
    ensures ValidIndices(out, y)
  {
    if |idxs| == 0 then idxs else Representatives(Groups(idxs, y, d), y, kind)
  }

  /** One step of the grouping loop. */
  lemma ChainsStep(s: seq<nat>, k: nat, d: int)
    requires k < |s|
    ensures var gs := Chains(s[..k], d);
      Chains(s[..k + 1], d)
        == if gs != [] && s[k] - Last(Last(gs)) <= d then gs[..|gs| - 1] + [Last(gs) + [s[k]]] else gs + [[s[k]]]
  {
    assert s[..k + 1][..k] == s[..k];
  }

  /** The grouping loop of group_close over the sorted indices. */
  method ChainGroups(sorted: seq<nat>, mergeDist: int) returns (groups: seq<seq<nat>>)
    ensures groups == Chains(sorted, mergeDist)
  {
    groups := [];
    for k := 0 to |sorted|
      invariant groups == Chains(sorted[..k], mergeDist)
    {
      ChainsStep(sorted, k, mergeDist);
      var i: nat := sorted[k];
      if groups != [] && i - Last(Last(groups)) <= mergeDist {
        var current: seq<nat> := Last(groups) + [i];
        groups := groups[..|groups| - 1] + [current];
      } else {
        var single: seq<nat> := [i];
        groups := groups + [single];
      }
    }
    assert sorted[..|sorted|] == sorted;
  }

  /** group_close: sort, chain into groups, and keep one representative per
      group. */
  method GroupClose(idxs: seq<nat>, y: seq<real>, mergeDist: int, mode: Kind) returns (out: seq<nat>)
    requires ValidIndices(idxs, y)
    ensures out == Grouped(idxs, y, mergeDist, mode)
  {
    if |idxs| == 0 {
      return idxs;
    }
    var sorted := SortIndices(idxs);
    var groups := ChainGroups(sorted, mergeDist);
    assert groups == Groups(idxs, y, mergeDist);
    out := Collect(groups, y, mode);
  }

  /** The collecting loop of group_close: one representative per group. */
  method Collect(groups: seq<seq<nat>>, y: seq<real>, mode: Kind) returns (out: seq<nat>)
    requires ValidGroups(groups, y)
    ensures out == Representatives(groups, y, mode)
  {
    out := [];
    for g := 0 to |groups|
      invariant |out| == g
      invariant forall t :: 0 <= t < g ==> out[t] == Representative(groups[t], y, mode)
    {
      out := out + [Representative(groups[g], y, mode)];
    }
  }

  /** group_close returns nothing exactly for no input, never more indices
      than it was given, and only indices it was given. */
  lemma GroupedFromInput(idxs: seq<nat>, y: seq<real>, d: int, kind: Kind)
    requires ValidIndices(idxs, y)
    ensures var out := Grouped(idxs, y, d, kind);
      |out| <= |idxs| && (|out| == 0 <==> |idxs| == 0) &&
      forall i :: i in out ==> i in idxs
  {
    if |idxs| > 0 {
      var s := SortIndices(idxs);
      var gs := Groups(idxs, y, d);
      ChainsMembers(s, d);
      forall t | 0 <= t < |gs| ensures Representative(gs[t], y, kind) in idxs {
        assert Representative(gs[t], y, kind) in gs[t];
      }
    }
  }

  /** With a non-negative merge distance the representatives come out in
      strictly increasing order. */
  lemma GroupedIncreasing(idxs: seq<nat>, y: seq<real>, d: int, kind: Kind)
    requires ValidIndices(idxs, y) && d >= 0
    ensures Increasing(Grouped(idxs, y, d, kind))
  {
    if |idxs| > 0 {
      var s := SortIndices(idxs);
      var gs := Groups(idxs, y, d);
      ChainsOrdered(s, d);
      var out := Grouped(idxs, y, d, kind);
      forall i, j | 0 <= i < j < |out| ensures out[i] < out[j] {
        assert out[i] == Representative(gs[i], y, kind);
        assert out[j] == Representative(gs[j], y, kind);
        RepresentativeIn(gs[i], y, kind);
        RepresentativeIn(gs[j], y, kind);
      }
    }
  }

  /** Each representative belongs to its group, no member of the group
      beats it, and it beats every member before it (ties keep the first). */
  lemma GroupedExtreme(idxs: seq<nat>, y: seq<real>, d: int, kind: Kind, k: nat)
    requires ValidIndices(idxs, y) && k < |Grouped(idxs, y, d, kind)|
    ensures var g := Groups(idxs, y, d)[k];
      var r := Grouped(idxs, y, d, kind)[k];
      (exists p :: 0 <= p < |g| && g[p] == r && forall t :: 0 <= t < p ==> Beats(kind, y[r], y[g[t]])) &&
      forall m :: m in g ==> !Beats(kind, y[m], y[r])
  {
    var g := Groups(idxs, y, d)[k];
    var p := ExtremePos(g, y, kind);
    assert Grouped(idxs, y, d, kind)[k] == g[p];
  }

  /** The number of gaps larger than `d` between consecutive indices. */
  function Breaks(s: seq<nat>, d: int): nat
  {
    if |s| <= 1 then 0
    else Breaks(s[..|s| - 1], d) + (if Last(s) - s[|s| - 2] > d then 1 else 0)
  }

  /** One group, plus one more for every gap larger than the merge distance. */
  lemma {:induction false} ChainsCount(s: seq<nat>, d: int)
    requires |s| > 0
    ensures |Chains(s, d)| == Breaks(s, d) + 1
  {
    if |s| > 1 {
      var p := s[..|s| - 1];
      ChainsCount(p, d);
      assert Last(p) == s[|s| - 2];
    }
  }

  lemma {:induction false} BreaksMonotone(s: seq<nat>, d1: int, d2: int)
    requires d1 <= d2
    ensures Breaks(s, d2) <= Breaks(s, d1)
  {
    if |s| > 1 {
      BreaksMonotone(s[..|s| - 1], d1, d2);
    }
  }

  /** A larger merge distance never leaves more representatives. */
  lemma GroupedMonotone(idxs: seq<nat>, y: seq<real>, d1: int, d2: int, kind: Kind)
    requires ValidIndices(idxs, y) && d1 <= d2
    ensures |Grouped(idxs, y, d2, kind)| <= |Grouped(idxs, y, d1, kind)|
  {
    if |idxs| > 0 {
      var s := SortIndices(idxs);
      ChainsCount(s, d1);
      ChainsCount(s, d2);
      BreaksMonotone(s, d1, d2);
    }
  }

  // ---------------------------------------------------------------------
  // alternating_extrema
  // ---------------------------------------------------------------------

  predicate IncreasingIdx(es: seq<Event>)
  {
    forall i, j :: 0 <= i < j < |es| ==> es[i].index < es[j].index
  }

  /** No two consecutive events of the same kind. */
  predicate Alternating(es: seq<Event>)
  {
    forall k :: 0 <= k < |es| - 1 ==> es[k].kind != es[k + 1].kind
  }

  function Tag(s: seq<nat>, kind: Kind): (r: seq<Event>)
    ensures |r| == |s|
    ensures forall e :: e in r <==> e.kind == kind && e.index in s
  {
    var r := seq(|s|, k requires 0 <= k < |s| => Event(s[k], kind));
    assert forall k :: 0 <= k < |s| ==> r[k] == Event(s[k], kind);
    r
  }

  /** The maxima tagged Max followed by the minima tagged Min, sorted by
      index.  Both lists come out of group_close in increasing order, so the
      stable sort of their concatenation is their merge; on an index present
      in both lists the maximum, which comes first, stays first. */
  function MergeByIndex(a: seq<nat>, b: seq<nat>): (r: seq<Event>)
    ensures |r| == |a| + |b|
    ensures forall e :: e in r <==> (e.kind == Max && e.index in a) || (e.kind == Min && e.index in b)
    decreases |a| + |b|
  {
    if a == [] then Tag(b, Min)
    else if b == [] then Tag(a, Max)
    else if a[0] <= b[0] then
      assert forall x :: x in a <==> x == a[0] || x in a[1..];
      [Event(a[0], Max)] + MergeByIndex(a[1..], b)
    else
      assert forall x :: x in b <==> x == b[0] || x in b[1..];
      [Event(b[0], Min)] + MergeByIndex(a, b[1..])
  }

  /** A bound below both lists is a bound below their merge. */
  lemma MergeAbove(a: seq<nat>, b: seq<nat>, h: nat)
    requires forall x :: x in a ==> h < x
    requires forall x :: x in b ==> h < x
    ensures forall j :: 0 <= j < |MergeByIndex(a, b)| ==> h < MergeByIndex(a, b)[j].index
  {
    var r := MergeByIndex(a, b);
    forall j | 0 <= j < |r| ensures h < r[j].index {
      assert r[j] in r;
    }
  }

  lemma IncreasingCons(e: Event, rest: seq<Event>)
    requires IncreasingIdx(rest)
    requires forall j :: 0 <= j < |rest| ==> e.index < rest[j].index
    ensures IncreasingIdx([e] + rest)
  {
    var r := [e] + rest;
    assert forall j :: 0 < j < |r| ==> r[j] == rest[j - 1];
  }

  /** Merging two increasing index lists with no index in common gives
      events in strictly increasing index order. */
  lemma {:induction false} MergeIncreasing(a: seq<nat>, b: seq<nat>)
    requires Increasing(a) && Increasing(b)
    requires forall x :: !(x in a && x in b)
    ensures IncreasingIdx(MergeByIndex(a, b))
    decreases |a| + |b|, 1
  {
    var r := MergeByIndex(a, b);
    if a == [] {
      assert forall k :: 0 <= k < |b| ==> r[k].index == b[k];
    } else if b == [] {
      assert forall k :: 0 <= k < |a| ==> r[k].index == a[k];
    } else if a[0] <= b[0] {
      MergeTakesMax(a, b);
    } else {
      MergeTakesMin(a, b);
    }
  }

  lemma {:induction false} MergeTakesMax(a: seq<nat>, b: seq<nat>)
    requires Increasing(a) && Increasing(b)
    requires forall x :: !(x in a && x in b)
    requires a != [] && b != [] && a[0] <= b[0]
    ensures IncreasingIdx(MergeByIndex(a, b))
    decreases |a| + |b|, 0
  {
    assert a[0] in a && b[0] in b;
    MergeIncreasing(a[1..], b);
    var rest := MergeByIndex(a[1..], b);
    forall x | x in b ensures a[0] < x {
      var t :| 0 <= t < |b| && b[t] == x;
    }
    forall x | x in a[1..] ensures a[0] < x {
      var t :| 0 <= t < |a[1..]| && a[1..][t] == x;
      assert a[t + 1] == x;
    }
    MergeAbove(a[1..], b, a[0]);
    IncreasingCons(Event(a[0], Max), rest);
  }

  lemma {:induction false} MergeTakesMin(a: seq<nat>, b: seq<nat>)
    requires Increasing(a) && Increasing(b)
    requires forall x :: !(x in a && x in b)
    requires a != [] && b != [] && b[0] < a[0]
    ensures IncreasingIdx(MergeByIndex(a, b))
    decreases |a| + |b|, 0
  {
    MergeIncreasing(a, b[1..]);
    var rest := MergeByIndex(a, b[1..]);
    forall x | x in a ensures b[0] < x {
      var t :| 0 <= t < |a| && a[t] == x;
    }
    forall x | x in b[1..] ensures b[0] < x {
      var t :| 0 <= t < |b[1..]| && b[1..][t] == x;
      assert b[t + 1] == x;
    }
    MergeAbove(a, b[1..], b[0]);
    IncreasingCons(Event(b[0], Min), rest);
  }

  predicate ValidEvents(es: seq<Event>, y: seq<real>)
  {
    forall k :: 0 <= k < |es| ==> es[k].index < |y|
  }

  /** The cleaning loop of alternating_extrema: an event of the other kind
      is appended; one of the same kind replaces the last kept event only
      when it is strictly more extreme (so ties keep the earlier event). */
  function Alternate(es: seq<Event>, y: seq<real>): (r: seq<Event>)
    requires ValidEvents(es, y)
    ensures |r| <= |es| && (|r| == 0 <==> |es| == 0)
    ensures ValidEvents(r, y)
    ensures Alternating(r)
    ensures forall e :: e in r ==> e in es
    ensures |es| > 0 ==> r[0].kind == es[0].kind && Last(r).kind == Last(es).kind
  {
    if es == [] then []
    else
      assert forall x :: x in es[..|es| - 1] ==> x in es;
      Push(Alternate(es[..|es| - 1], y), Last(es), y)
  }

  /** One step of the cleaning loop on the kept list `c` and the next event. */
  function Push(c: seq<Event>, e: Event, y: seq<real>): seq<Event>
    requires ValidEvents(c, y) && e.index < |y|
  {
    if c == [] then [e]
    else
      var p := Last(c);
      if e.kind != p.kind then c + [e]
      else if Beats(e.kind, y[e.index], y[p.index]) then c[..|c| - 1] + [e]
      else c
  }

  /** On events in increasing index order the cleaned list stays in
      increasing index order. */
  lemma {:induction false} AlternateIncreasing(es: seq<Event>, y: seq<real>)
    requires ValidEvents(es, y) && IncreasingIdx(es)
    ensures IncreasingIdx(Alternate(es, y))
  {
    if es != [] {
      var p := es[..|es| - 1];
      AlternateIncreasing(p, y);
      var c := Alternate(p, y);
      var e := Last(es);
      forall x | x in c ensures x.index < e.index {
        assert x in p;
      }
      PushIncreasing(c, e, y);
    }
  }

  lemma PushIncreasing(c: seq<Event>, e: Event, y: seq<real>)
    requires ValidEvents(c, y) && e.index < |y| && IncreasingIdx(c)
    requires forall x :: x in c ==> x.index < e.index
    ensures IncreasingIdx(Push(c, e, y))
  {
    if c != [] {
      assert Last(c) in c;
      assert forall k :: 0 <= k < |c| ==> c[k] in c;
    }
  }

  /** Not beating a value that `c` beats means not beating `c` either. */
  lemma BeatsThrough(kind: Kind, a: real, b: real, c: real)
    requires !Beats(kind, a, b) && Beats(kind, c, b)
    ensures !Beats(kind, a, c)
  {
  }

  /** Some event of `r` has the kind of `x` and is at least as extreme. */
  predicate Dominated(x: Event, r: seq<Event>, y: seq<real>)
    requires x.index < |y| && ValidEvents(r, y)
  {
    exists j :: 0 <= j < |r| && r[j].kind == x.kind && !Beats(x.kind, y[x.index], y[r[j].index])
  }

  /** The event just pushed is dominated by what is kept. */
  lemma PushDominatesNew(c: seq<Event>, e: Event, y: seq<real>)
    requires ValidEvents(c, y) && e.index < |y|
    ensures ValidEvents(Push(c, e, y), y) && Dominated(e, Push(c, e, y), y)
  {
    var r := Push(c, e, y);
    if c == [] || e.kind != Last(c).kind || Beats(e.kind, y[e.index], y[Last(c).index]) {
      assert r[|r| - 1] == e;
    } else {
      assert r[|c| - 1] == Last(c);
    }
  }

  /** A push keeps every earlier event dominated: the event that replaces the
      last kept one is more extreme than it. */
  lemma PushKeepsDominated(c: seq<Event>, e: Event, y: seq<real>, x: Event)
    requires ValidEvents(c, y) && e.index < |y| && x.index < |y|
    requires Dominated(x, c, y)
    ensures ValidEvents(Push(c, e, y), y) && Dominated(x, Push(c, e, y), y)
  {
    var r := Push(c, e, y);
    var j :| 0 <= j < |c| && c[j].kind == x.kind && !Beats(x.kind, y[x.index], y[c[j].index]);
    if e.kind == Last(c).kind && Beats(e.kind, y[e.index], y[Last(c).index]) && j == |c| - 1 {
      BeatsThrough(e.kind, y[x.index], y[c[j].index], y[e.index]);
      assert r[j] == e;
    } else {
      assert r[j] == c[j];
    }
  }

  /** Nothing more extreme is dropped: for every input event some kept event
      of the same kind is at least as extreme. */
  lemma {:induction false} AlternateKeepsExtreme(es: seq<Event>, y: seq<real>)
    requires ValidEvents(es, y)
    ensures forall k :: 0 <= k < |es| ==> Dominated(es[k], Alternate(es, y), y)
  {
    if es != [] {
      var p := es[..|es| - 1];
      AlternateKeepsExtreme(p, y);
      var c := Alternate(p, y);
      forall k | 0 <= k < |es| ensures Dominated(es[k], Alternate(es, y), y) {
        if k == |es| - 1 {
          PushDominatesNew(c, es[k], y);
        } else {
          assert es[k] == p[k];
          PushKeepsDominated(c, Last(es), y, es[k]);
        }
      }
    }
  }

  /** `es[s..]` is a maximal trailing run of events of one kind. */
  predicate TrailingRun(es: seq<Event>, s: nat)
  {
    s < |es| && (s == 0 || es[s - 1].kind != es[s].kind) &&
    forall t :: s <= t < |es| ==> es[t].kind == es[s].kind
  }

  /** `es[q]` is the first most extreme event among `es[s..]`. */
  predicate FirstExtreme(es: seq<Event>, y: seq<real>, s: nat, q: nat)
    requires ValidEvents(es, y) && s <= q < |es|
  {
    var kind := es[q].kind;
    (forall t :: s <= t < |es| ==> !Beats(kind, y[es[t].index], y[es[q].index])) &&
    (forall t :: s <= t < q ==> Beats(kind, y[es[q].index], y[es[t].index]))
  }

  /** Which event of a run survives: the last kept event is the first most
      extreme event of the trailing run of one kind (a later tie does not
      displace it). */
  lemma {:induction false} AlternateKeepsFirstExtreme(es: seq<Event>, y: seq<real>, s: nat)
    requires ValidEvents(es, y) && TrailingRun(es, s)
    ensures exists q :: s <= q < |es| && Last(Alternate(es, y)) == es[q] && FirstExtreme(es, y, s, q)
  {
    if s == |es| - 1 {
      RunStart(es, y, s);
    } else {
      var p := es[..|es| - 1];
      assert TrailingRun(p, s);
      AlternateKeepsFirstExtreme(p, y, s);
      var q :| s <= q < |p| && Last(Alternate(p, y)) == p[q] && FirstExtreme(p, y, s, q);
      RunStep(es, y, s, q);
    }
  }

  /** The first event of the run is pushed after an event of the other kind. */
  lemma RunStart(es: seq<Event>, y: seq<real>, s: nat)
    requires ValidEvents(es, y) && TrailingRun(es, s) && s == |es| - 1
    ensures Last(Alternate(es, y)) == es[s] && FirstExtreme(es, y, s, s)
  {
    var c := Alternate(es[..|es| - 1], y);
    assert s > 0 ==> Last(c).kind == es[s - 1].kind;
    PushOtherKind(c, Last(es), y);
  }

  /** A later event of the run either takes over or leaves the kept one. */
  lemma RunStep(es: seq<Event>, y: seq<real>, s: nat, q: nat)
    requires ValidEvents(es, y) && TrailingRun(es, s) && s <= q < |es| - 1
    requires Last(Alternate(es[..|es| - 1], y)) == es[q] && FirstExtreme(es[..|es| - 1], y, s, q)
    ensures exists q' :: s <= q' < |es| && Last(Alternate(es, y)) == es[q'] && FirstExtreme(es, y, s, q')
  {
    var e := Last(es);
    PushSameKind(Alternate(es[..|es| - 1], y), e, y);
    if Beats(e.kind, y[e.index], y[es[q].index]) {
      FirstExtremeNew(es, y, s, q);
      assert Last(Alternate(es, y)) == es[|es| - 1];
    } else {
      FirstExtremeKeep(es, y, s, q);
    }
  }

  lemma PushOtherKind(c: seq<Event>, e: Event, y: seq<real>)
    requires ValidEvents(c, y) && e.index < |y|
    requires c == [] || Last(c).kind != e.kind
    ensures Push(c, e, y) == c + [e] && Last(Push(c, e, y)) == e
  {
  }

  lemma PushSameKind(c: seq<Event>, e: Event, y: seq<real>)
    requires ValidEvents(c, y) && e.index < |y|
    requires c != [] && Last(c).kind == e.kind
    ensures Last(Push(c, e, y)) == if Beats(e.kind, y[e.index], y[Last(c).index]) then e else Last(c)
  {
  }

  /** A new event of the run that beats the current first extreme becomes it. */
  lemma FirstExtremeNew(es: seq<Event>, y: seq<real>, s: nat, q: nat)
    requires ValidEvents(es, y) && TrailingRun(es, s) && s <= q < |es| - 1
    requires FirstExtreme(es[..|es| - 1], y, s, q)
    requires Beats(es[q].kind, y[Last(es).index], y[es[q].index])
    ensures FirstExtreme(es, y, s, |es| - 1)
  {
    var p, e := es[..|es| - 1], Last(es);
    forall t | s <= t < |es| - 1
      ensures !Beats(e.kind, y[es[t].index], y[e.index]) && Beats(e.kind, y[e.index], y[es[t].index])
    {
      assert es[t] == p[t];
      BeatsThrough(e.kind, y[es[t].index], y[p[q].index], y[e.index]);
      BeatsOver(e.kind, y[e.index], y[p[q].index], y[es[t].index]);
    }
  }

  /** A new event of the run that does not beat the first extreme leaves it. */
  lemma FirstExtremeKeep(es: seq<Event>, y: seq<real>, s: nat, q: nat)
    requires ValidEvents(es, y) && TrailingRun(es, s) && s <= q < |es| - 1
    requires FirstExtreme(es[..|es| - 1], y, s, q)
    requires !Beats(es[q].kind, y[Last(es).index], y[es[q].index])
    ensures FirstExtreme(es, y, s, q)
  {
    var p := es[..|es| - 1];
    assert forall t :: s <= t < |es| - 1 ==> es[t] == p[t];
  }

  /** Beating a value that `b` is not beaten by means beating `b` too. */
  lemma BeatsOver(kind: Kind, a: real, c: real, b: real)
    requires Beats(kind, a, c) && !Beats(kind, b, c)
    ensures Beats(kind, a, b)
  {
  }

  /** A loop turn never touches a strict prefix of the kept list. */
  lemma PushKeepsPrefix(u: seq<Event>, c: seq<Event>, e: Event, y: seq<real>)
    requires ValidEvents(c, y) && e.index < |y| && u < c
    ensures u < Push(c, e, y)
  {
    if c != [] && e.kind == Last(c).kind && Beats(e.kind, y[e.index], y[Last(c).index]) {
      assert u <= c[..|c| - 1];
    }
  }

  /** Events up to a change of kind are cleaned independently of what
      follows: their cleaned list is a strict prefix of the whole one. */
  lemma {:induction false} AlternatePrefix(es: seq<Event>, y: seq<real>, m: nat)
    requires ValidEvents(es, y) && 0 < m < |es| && es[m].kind != es[m - 1].kind
    ensures ValidEvents(es[..m], y) && Alternate(es[..m], y) < Alternate(es, y)
  {
    var p := es[..|es| - 1];
    assert p[..m] == es[..m];
    if m == |es| - 1 {
      var c := Alternate(p, y);
      assert Last(c).kind == es[m - 1].kind;
      PushOtherKind(c, Last(es), y);
    } else {
      assert p[m] == es[m] && p[m - 1] == es[m - 1];
      AlternatePrefix(p, y, m);
      PushKeepsPrefix(Alternate(es[..m], y), Alternate(p, y), Last(es), y);
    }
  }

  /** `es[s..m]` is a maximal run of events of one kind. */
  predicate MaximalRun(es: seq<Event>, s: nat, m: nat)
  {
    s < m <= |es| && (s == 0 || es[s - 1].kind != es[s].kind) &&
    (m == |es| || es[m].kind != es[m - 1].kind) &&
    forall t :: s <= t < m ==> es[t].kind == es[s].kind
  }

  /** Which event of every run survives: the kept event that closes the
      cleaned prefix up to the end of a maximal run is the first most
      extreme event of that run, so a later tie never displaces it. */
  lemma AlternateRunExtreme(es: seq<Event>, y: seq<real>, s: nat, m: nat)
    requires ValidEvents(es, y) && MaximalRun(es, s, m)
    ensures ValidEvents(es[..m], y)
    ensures var r, k := Alternate(es, y), |Alternate(es[..m], y)| - 1;
      0 <= k < |r| && exists q :: s <= q < m && r[k] == es[q] && FirstExtreme(es[..m], y, s, q)
  {
    var u := es[..m];
    assert forall t :: 0 <= t < m ==> u[t] == es[t];
    assert TrailingRun(u, s);
    AlternateKeepsFirstExtreme(u, y, s);
    if m < |es| {
      AlternatePrefix(es, y, m);
    } else {
      assert u == es;
    }
  }
}
