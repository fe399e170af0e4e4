/**
 The in-place merge sort of utlist.h.

 The first half of the module is about values: one bottom-up pass over a sequence of nodes, the
 repeated passes, and the proof that these give the stable sort.  The second half relinks real
 nodes and is proved to build exactly the sequence that the first half describes.
 */
module ListSort {

  class Node<T> {
    const data: T
    var prev: Node?<T>
    var next: Node?<T>

    constructor (data: T)
      ensures this.data == data && prev == null && next == null
    {
      this.data := data;
      prev, next := null, null;
    }
  }

  // ----- comparison functions

  type Comparison<!T> = (T, T) -> int

  /** `cmp(a, b) <= 0` is total and transitive. */
  ghost predicate TotalPreorder<T(!new)>(cmp: Comparison<T>) {
    && (forall a, b :: cmp(a, b) <= 0 || cmp(b, a) <= 0)
    && (forall a, b, c :: cmp(a, b) <= 0 && cmp(b, c) <= 0 ==> cmp(a, c) <= 0)
  }

  predicate Equivalent<T>(cmp: Comparison<T>, a: T, b: T) {
    cmp(a, b) <= 0 && cmp(b, a) <= 0
  }

  ghost predicate Sorted<T>(s: seq<Node<T>>, cmp: Comparison<T>) {
    forall i, j :: 0 <= i < j < |s| ==> cmp(s[i].data, s[j].data) <= 0
  }

  /** The nodes of `s` that are equivalent to `key`, in the order of `s`. */
  ghost function Class<T>(s: seq<Node<T>>, key: T, cmp: Comparison<T>): (r: seq<Node<T>>)
  {
    if s == [] then []
    else (if Equivalent(cmp, s[0].data, key) then [s[0]] else []) + Class(s[1..], key, cmp)
  }

  /** `after` holds the nodes of `before`, sorted, with equivalent nodes in their old order. */
  ghost predicate StablySorted<T(!new)>(before: seq<Node<T>>, after: seq<Node<T>>, cmp: Comparison<T>) {
    && multiset(after) == multiset(before)
    && Sorted(after, cmp)
    && forall key: T :: Class(after, key, cmp) == Class(before, key, cmp)
  }

  // ----- the sort on sequences

  function Min(a: int, b: int): int { if a <= b then a else b }

  ghost function Merge<T>(ps: seq<Node<T>>, qs: seq<Node<T>>, cmp: Comparison<T>): (r: seq<Node<T>>)
    ensures |r| == |ps| + |qs|
  {
    if ps == [] then qs
    else if qs == [] then ps
    else if cmp(ps[0].data, qs[0].data) <= 0 then [ps[0]] + Merge(ps[1..], qs, cmp)
    else [qs[0]] + Merge(ps, qs[1..], cmp)
  }

  /** One pass of the sort: neighbouring runs of `w` nodes are merged pairwise. */
  ghost function Pass<T>(s: seq<Node<T>>, w: nat, cmp: Comparison<T>): (r: seq<Node<T>>)
    requires 0 < w
    ensures |r| == |s|
  {
    if s == [] then []
    else
      var a, b := Min(w, |s|), Min(2 * w, |s|);
      Merge(s[..a], s[a..b], cmp) + Pass(s[b..], w, cmp)
  }

  /** Passes with run sizes `w`, `2w`, ... until one pass needs at most one merge. */
  ghost function Passes<T>(s: seq<Node<T>>, w: nat, cmp: Comparison<T>): (r: seq<Node<T>>)
    requires 0 < w
    ensures |r| == |s|
    decreases |s| - w
  {
    if |s| <= 2 * w then Pass(s, w, cmp) else Passes(Pass(s, w, cmp), 2 * w, cmp)
  }

  lemma MergeUnfold<T>(ps: seq<Node<T>>, qs: seq<Node<T>>, cmp: Comparison<T>)
    ensures Merge(ps, qs, cmp) ==
      if ps == [] then qs
      else if qs == [] then ps
      else if cmp(ps[0].data, qs[0].data) <= 0 then [ps[0]] + Merge(ps[1..], qs, cmp)
      else [qs[0]] + Merge(ps, qs[1..], cmp)
  {
  }

  lemma ClassUnfold<T>(s: seq<Node<T>>, key: T, cmp: Comparison<T>)
    ensures Class([], key, cmp) == []
    ensures s != [] ==> Class(s, key, cmp) == (if Equivalent(cmp, s[0].data, key) then [s[0]] else []) + Class(s[1..], key, cmp)
  {
  }

  lemma {:induction false} MergeMultiset<T>(ps: seq<Node<T>>, qs: seq<Node<T>>, cmp: Comparison<T>)
    ensures multiset(Merge(ps, qs, cmp)) == multiset(ps) + multiset(qs)
    decreases |ps| + |qs|
  {
    hide Merge;
    MergeUnfold(ps, qs, cmp);
    if ps == [] || qs == [] {
    } else if cmp(ps[0].data, qs[0].data) <= 0 {
      MergeMultiset(ps[1..], qs, cmp);
      assert ps == [ps[0]] + ps[1..];
      assert multiset(Merge(ps, qs, cmp)) == multiset{ps[0]} + multiset(Merge(ps[1..], qs, cmp));
    } else {
      MergeMultiset(ps, qs[1..], cmp);
      assert qs == [qs[0]] + qs[1..];
      assert multiset(Merge(ps, qs, cmp)) == multiset{qs[0]} + multiset(Merge(ps, qs[1..], cmp));
    }
  }

  lemma {:induction false} MergeSorted<T(!new)>(ps: seq<Node<T>>, qs: seq<Node<T>>, cmp: Comparison<T>)
    requires TotalPreorder(cmp)
    requires Sorted(ps, cmp) && Sorted(qs, cmp)
    ensures Sorted(Merge(ps, qs, cmp), cmp)
    decreases |ps| + |qs|
  {
    hide *;
    MergeUnfold(ps, qs, cmp);
    if ps == [] || qs == [] {
    } else if cmp(ps[0].data, qs[0].data) <= 0 {
      SortedTail(ps, cmp);
      MergeSorted(ps[1..], qs, cmp);
      HeadBounds(ps[0], ps, cmp);
      HeadBounds(ps[0], qs, cmp);
      MergeBound(ps[0], ps[1..], qs, cmp);
      SortedCons(ps[0], Merge(ps[1..], qs, cmp), cmp);
    } else {
      SortedTail(qs, cmp);
      MergeSorted(ps, qs[1..], cmp);
      HeadBounds(qs[0], ps, cmp);
      HeadBounds(qs[0], qs, cmp);
      MergeBound(qs[0], ps, qs[1..], cmp);
      SortedCons(qs[0], Merge(ps, qs[1..], cmp), cmp);
    }
  }

  /** What does not come after the head of a run comes before none of it. */
  lemma HeadBounds<T(!new)>(x: Node<T>, s: seq<Node<T>>, cmp: Comparison<T>)
    requires TotalPreorder(cmp) && Sorted(s, cmp) && s != [] && (cmp(s[0].data, x.data) > 0 || cmp(x.data, s[0].data) <= 0 || x == s[0])
    ensures forall y :: y in s ==> cmp(x.data, y.data) <= 0
  {
    assert cmp(x.data, s[0].data) <= 0;
    forall i | 0 <= i < |s| ensures cmp(x.data, s[i].data) <= 0 {
      assert i > 0 ==> cmp(s[0].data, s[i].data) <= 0;
    }
  }

  lemma SortedCons<T>(x: Node<T>, s: seq<Node<T>>, cmp: Comparison<T>)
    requires Sorted(s, cmp) && forall i :: 0 <= i < |s| ==> cmp(x.data, s[i].data) <= 0
    ensures Sorted([x] + s, cmp)
  {
  }

  /** A lower bound of two runs is a lower bound of their merge. */
  lemma MergeBound<T>(x: Node<T>, ps: seq<Node<T>>, qs: seq<Node<T>>, cmp: Comparison<T>)
    requires forall y :: y in ps || y in qs ==> cmp(x.data, y.data) <= 0
    ensures forall i :: 0 <= i < |ps| + |qs| ==> cmp(x.data, Merge(ps, qs, cmp)[i].data) <= 0
  {
    MergeMultiset(ps, qs, cmp);
    var m := Merge(ps, qs, cmp);
    forall i | 0 <= i < |m| ensures cmp(x.data, m[i].data) <= 0 {
      assert m[i] in multiset(m);
    }
  }

  lemma {:induction false} ClassAppend<T>(a: seq<Node<T>>, b: seq<Node<T>>, key: T, cmp: Comparison<T>)
    ensures Class(a + b, key, cmp) == Class(a, key, cmp) + Class(b, key, cmp)
  {
    hide *;
    ClassUnfold(a, key, cmp);
    if a == [] {
      assert a + b == b;
    } else {
      ClassAppend(a[1..], b, key, cmp);
      ClassUnfold(a + b, key, cmp);
      assert (a + b)[1..] == a[1..] + b;
    }
  }

  /** If no node of `s` is equivalent to `key`, its class is empty. */
  lemma {:induction false} ClassNone<T>(s: seq<Node<T>>, key: T, cmp: Comparison<T>)
    requires forall i :: 0 <= i < |s| ==> !Equivalent(cmp, s[i].data, key)
    ensures Class(s, key, cmp) == []
  {
    if s != [] {
      ClassNone(s[1..], key, cmp);
    }
  }

  lemma SortedTail<T>(s: seq<Node<T>>, cmp: Comparison<T>)
    requires Sorted(s, cmp) && s != []
    ensures Sorted(s[1..], cmp)
  {
  }

  /** Merging keeps equivalent nodes in order: those of the first run stay in front. */
  lemma {:induction false} MergeClass<T(!new)>(ps: seq<Node<T>>, qs: seq<Node<T>>, key: T, cmp: Comparison<T>)
    requires TotalPreorder(cmp)
    requires Sorted(ps, cmp)
    ensures Class(Merge(ps, qs, cmp), key, cmp) == Class(ps, key, cmp) + Class(qs, key, cmp)
    decreases |ps| + |qs|
  {
    hide *;
    MergeUnfold(ps, qs, cmp);
    ClassUnfold(ps, key, cmp);
    ClassUnfold(qs, key, cmp);
    ClassUnfold(Merge(ps, qs, cmp), key, cmp);
    if ps == [] || qs == [] {
    } else if cmp(ps[0].data, qs[0].data) <= 0 {
      SortedTail(ps, cmp);
      MergeClass(ps[1..], qs, key, cmp);
    } else {
      MergeClass(ps, qs[1..], key, cmp);
      if Equivalent(cmp, qs[0].data, key) {
        ClassAhead(ps, qs[0].data, key, cmp);
      }
    }
  }

  /** A run that starts after `x` holds no node equivalent to `x`. */
  lemma ClassAhead<T(!new)>(ps: seq<Node<T>>, x: T, key: T, cmp: Comparison<T>)
    requires TotalPreorder(cmp) && Sorted(ps, cmp)
    requires ps != [] && cmp(ps[0].data, x) > 0 && Equivalent(cmp, x, key)
    ensures Class(ps, key, cmp) == []
  {
    forall i | 0 <= i < |ps| ensures !Equivalent(cmp, ps[i].data, key) {
      assert cmp(ps[0].data, ps[i].data) <= 0;
    }
    ClassNone(ps, key, cmp);
  }

  /** Every block of `w` nodes is sorted. */
  ghost predicate BlocksSorted<T>(s: seq<Node<T>>, w: nat, cmp: Comparison<T>)
    requires 0 < w
  {
    s == [] || (var a := Min(w, |s|); Sorted(s[..a], cmp) && BlocksSorted(s[a..], w, cmp))
  }

  lemma {:induction false} BlocksOfOne<T>(s: seq<Node<T>>, cmp: Comparison<T>)
    ensures BlocksSorted(s, 1, cmp)
  {
    if s != [] {
      BlocksOfOne(s[1..], cmp);
    }
  }

  /** What one pass keeps, and what it gains: blocks of `2w` nodes are sorted after it. */
  lemma {:induction false} PassCorrect<T(!new)>(s: seq<Node<T>>, w: nat, cmp: Comparison<T>)
    requires 0 < w && TotalPreorder(cmp) && BlocksSorted(s, w, cmp)
    ensures BlocksSorted(Pass(s, w, cmp), 2 * w, cmp)
    ensures multiset(Pass(s, w, cmp)) == multiset(s)
    ensures forall key: T :: Class(Pass(s, w, cmp), key, cmp) == Class(s, key, cmp)
    decreases |s|
  {
    hide *;
    if s == [] {
      NoPass(w, cmp);
    } else {
      var a, b := FirstBlocks(s, w, cmp);
      var ps, qs, rest := s[..a], s[a..b], s[b..];
      SecondBlock(s, w, cmp);
      PassCorrect(rest, w, cmp);
      MergeSorted(ps, qs, cmp);
      var m, t := Merge(ps, qs, cmp), Pass(rest, w, cmp);
      BlockInFront(m, t, w, cmp);
      assert s == ps + qs + rest;
      BlockMoved(s, m + t, ps, qs, rest, t, cmp);
    }
  }

  lemma NoPass<T>(w: nat, cmp: Comparison<T>)
    requires 0 < w
    ensures Pass([], w, cmp) == [] && BlocksSorted([], 2 * w, cmp)
  {
  }

  /** Where the first two blocks of a list end. */
  lemma FirstBlocks<T>(s: seq<Node<T>>, w: nat, cmp: Comparison<T>) returns (a: nat, b: nat)
    requires 0 < w && s != []
    ensures a == Min(w, |s|) && b == Min(2 * w, |s|) && a <= b <= |s| && 0 < b && (b < |s| ==> b == 2 * w)
    ensures b <= 2 * w && Pass(s, w, cmp) == Merge(s[..a], s[a..b], cmp) + Pass(s[b..], w, cmp)
  {
    hide Merge;
    a, b := Min(w, |s|), Min(2 * w, |s|);
  }

  /** A sorted block of full size in front of sorted blocks, or a last one that may be smaller. */
  lemma BlockInFront<T>(m: seq<Node<T>>, t: seq<Node<T>>, w: nat, cmp: Comparison<T>)
    requires 0 < w && Sorted(m, cmp) && BlocksSorted(t, 2 * w, cmp)
    requires 0 < |m| <= 2 * w && (t != [] ==> |m| == 2 * w)
    ensures BlocksSorted(m + t, 2 * w, cmp)
  {
    hide Sorted;
    assert (m + t)[..|m|] == m && (m + t)[|m|..] == t;
  }

  lemma BlockMoved<T(!new)>(s: seq<Node<T>>, r: seq<Node<T>>, ps: seq<Node<T>>, qs: seq<Node<T>>, rest: seq<Node<T>>, t: seq<Node<T>>, cmp: Comparison<T>)
    requires s == ps + qs + rest && r == Merge(ps, qs, cmp) + t
    requires TotalPreorder(cmp) && Sorted(ps, cmp) && multiset(t) == multiset(rest)
    requires forall key: T :: Class(t, key, cmp) == Class(rest, key, cmp)
    ensures multiset(r) == multiset(s)
    ensures forall key: T :: Class(r, key, cmp) == Class(s, key, cmp)
  {
    hide *;
    var m := Merge(ps, qs, cmp);
    MergeMultiset(ps, qs, cmp);
    forall key: T ensures Class(r, key, cmp) == Class(s, key, cmp) {
      MergeClass(ps, qs, key, cmp);
      ClassAppend(m, t, key, cmp);
      ClassAppend(ps + qs, rest, key, cmp);
      ClassAppend(ps, qs, key, cmp);
    }
  }

  lemma NoneSorted<T>(cmp: Comparison<T>)
    ensures Sorted([], cmp)
  {
  }

  lemma SecondBlock<T>(s: seq<Node<T>>, w: nat, cmp: Comparison<T>)
    requires 0 < w && s != [] && BlocksSorted(s, w, cmp)
    ensures var a, b := Min(w, |s|), Min(2 * w, |s|);
      Sorted(s[..a], cmp) && Sorted(s[a..b], cmp) && BlocksSorted(s[b..], w, cmp)
  {
    hide Sorted;
    assert Sorted([], cmp) by { NoneSorted(cmp); }
    var a, b := Min(w, |s|), Min(2 * w, |s|);
    var t := s[a..];
    if t != [] {
      assert t[..b - a] == s[a..b] && t[b - a..] == s[b..];
      assert b - a == Min(w, |t|);
    } else {
      assert s[a..b] == [];
    }
  }

  /** Sorting by passes is the stable sort. */
  lemma {:induction false} PassesCorrect<T(!new)>(s: seq<Node<T>>, w: nat, cmp: Comparison<T>)
    requires 0 < w && TotalPreorder(cmp) && BlocksSorted(s, w, cmp)
    ensures StablySorted(s, Passes(s, w, cmp), cmp)
    decreases |s| - w
  {
    PassCorrect(s, w, cmp);
    var r := Pass(s, w, cmp);
    if |s| <= 2 * w {
      assert r == [] || r[..|r|] == r;
    } else {
      PassesCorrect(r, 2 * w, cmp);
    }
  }

  /** The stable sort of a list is unique, so `StablySorted` says everything there is to say. */
  lemma {:induction false} StableSortUnique<T(!new)>(s: seq<Node<T>>, a: seq<Node<T>>, b: seq<Node<T>>, cmp: Comparison<T>)
    requires TotalPreorder(cmp)
    requires StablySorted(s, a, cmp) && StablySorted(s, b, cmp)
    ensures a == b
    decreases |a|
  {
    assert |a| == |multiset(a)| == |multiset(b)| == |b|;
    if a != [] {
      SameFirst(a, b, cmp);
      SameTail(a, b, a[1..], b[1..], cmp);
      assert Sorted(a[1..], cmp) && Sorted(b[1..], cmp);
      StableSortUnique(a[1..], a[1..], b[1..], cmp);
    }
  }

  lemma SameTail<T(!new)>(a: seq<Node<T>>, b: seq<Node<T>>, a': seq<Node<T>>, b': seq<Node<T>>, cmp: Comparison<T>)
    requires a != [] && b != [] && a[0] == b[0] && a' == a[1..] && b' == b[1..]
    requires multiset(a) == multiset(b)
    requires forall key: T :: Class(a, key, cmp) == Class(b, key, cmp)
    ensures multiset(a') == multiset(b')
    ensures forall key: T :: Class(a', key, cmp) == Class(b', key, cmp)
  {
    assert a == [a[0]] + a' && b == [b[0]] + b';
    assert multiset(a') == multiset(a) - multiset{a[0]};
    assert multiset(b') == multiset(b) - multiset{b[0]};
    forall key: T ensures Class(a', key, cmp) == Class(b', key, cmp) {
      assert Class(a, key, cmp) == Class(b, key, cmp);
      var h := if Equivalent(cmp, a[0].data, key) then [a[0]] else [];
      assert Class(a, key, cmp)[|h|..] == Class(a', key, cmp);
      assert Class(b, key, cmp)[|h|..] == Class(b', key, cmp);
    }
  }

  lemma SameFirst<T(!new)>(a: seq<Node<T>>, b: seq<Node<T>>, cmp: Comparison<T>)
    requires TotalPreorder(cmp) && Sorted(a, cmp) && Sorted(b, cmp)
    requires a != [] && b != [] && multiset(a) == multiset(b)
    requires forall key: T :: Class(a, key, cmp) == Class(b, key, cmp)
    ensures a[0] == b[0]
  {
    assert a[0] in multiset(b) && b[0] in multiset(a);
    assert a[0] in b && b[0] in a;
    var key := a[0].data;
    assert cmp(key, key) <= 0;
    assert cmp(b[0].data, key) <= 0 && cmp(key, b[0].data) <= 0;
    assert Class(a, key, cmp)[0] == a[0];
    assert Class(b, key, cmp)[0] == b[0];
  }

  // ----- how many comparisons

  /** Merging compares the heads of the two runs as long as neither is empty. */
  ghost function MergeCost<T>(ps: seq<Node<T>>, qs: seq<Node<T>>, cmp: Comparison<T>): (c: nat) {
    if ps == [] || qs == [] then 0
    else if cmp(ps[0].data, qs[0].data) <= 0 then 1 + MergeCost(ps[1..], qs, cmp)
    else 1 + MergeCost(ps, qs[1..], cmp)
  }

  ghost function PassCost<T>(s: seq<Node<T>>, w: nat, cmp: Comparison<T>): (c: nat)
    requires 0 < w
  {
    if s == [] then 0
    else
      var a, b := Min(w, |s|), Min(2 * w, |s|);
      MergeCost(s[..a], s[a..b], cmp) + PassCost(s[b..], w, cmp)
  }

  ghost function PassesCost<T>(s: seq<Node<T>>, w: nat, cmp: Comparison<T>): (c: nat)
    requires 0 < w
    decreases |s| - w
  {
    PassCost(s, w, cmp) + if |s| <= 2 * w then 0 else PassesCost(Pass(s, w, cmp), 2 * w, cmp)
  }

  function Pow2(k: nat): (p: nat)
    ensures 0 < p
  {
    if k == 0 then 1 else 2 * Pow2(k - 1)
  }

  /** The number of doublings that bring 1 up to at least `n`. */
  function CeilLog2(n: nat): (k: nat) {
    if n <= 1 then 0 else 1 + CeilLog2((n + 1) / 2)
  }

  lemma {:induction false} CeilLog2Tight(n: nat, k: nat)
    ensures Pow2(k) < n <==> k < CeilLog2(n)
    decreases n
  {
    if n > 1 && k > 0 {
      CeilLog2Tight((n + 1) / 2, k - 1);
    }
  }

  // ----- linked nodes

  ghost predicate Distinct<T>(s: seq<Node<T>>) {
    forall i, j :: 0 <= i < j < |s| ==> s[i] != s[j]
  }

  /** No node occurs twice in `m`. */
  ghost predicate Once<T>(m: multiset<Node<T>>) {
    forall x :: x in m ==> m[x] == 1
  }

  lemma {:induction false} OnceDistinct<T>(s: seq<Node<T>>)
    ensures Once(multiset(s)) <==> Distinct(s)
  {
    if s != [] {
      var m, t := multiset(s), s[1..];
      assert s == [s[0]] + t;
      assert m == multiset{s[0]} + multiset(t);
      OnceDistinct(t);
      if Once(m) {
        forall x | x in multiset(t) ensures multiset(t)[x] == 1 { assert m[x] == 1; }
        assert m[s[0]] == 1;
        assert s[0] !in t;
        assert forall j :: 0 < j < |s| ==> s[j] == t[j - 1];
      }
      if Distinct(s) {
        assert forall i, j :: 0 <= i < j < |t| ==> t[i] == s[i + 1] && t[j] == s[j + 1];
        assert s[0] !in t;
      }
    }
  }

  ghost function NodeAt<T>(s: seq<Node<T>>, i: nat): (n: Node?<T>) {
    if i < |s| then s[i] else null
  }

  /** The nodes of `s` are linked by `next`, and the last one ends the list. */
  ghost predicate Linked<T>(s: seq<Node<T>>)
    reads s`next
  {
    Distinct(s) && forall i :: 0 <= i < |s| ==> s[i].next == NodeAt(s, i + 1)
  }

  /** The `prev` links of a doubly linked list: the head's leads to the last node. */
  ghost predicate LinkedBack<T>(s: seq<Node<T>>)
    reads s`prev
  {
    (s != [] ==> s[0].prev == s[|s| - 1]) && forall i :: 0 < i < |s| ==> s[i].prev == s[i - 1]
  }

  /** The output of a pass so far: linked in order, with `tail` as its last node. */
  ghost predicate Output<T>(out: seq<Node<T>>, list: Node?<T>, tail: Node?<T>, back: bool)
    reads out
  {
    && list == NodeAt(out, 0)
    && tail == (if out == [] then null else out[|out| - 1])
    && (forall i :: 0 <= i < |out| - 1 ==> out[i].next == out[i + 1])
    && (back ==> forall i :: 0 < i < |out| ==> out[i].prev == out[i - 1])
  }

  /** A run of nodes still to be merged: its nodes are linked, and what follows the last is not said. */
  ghost predicate Run<T>(s: seq<Node<T>>)
    reads s
  {
    forall i :: 0 <= i < |s| - 1 ==> s[i].next == s[i + 1]
  }

  /** The rest of the list: linked up to its end. */
  ghost predicate Rest<T>(s: seq<Node<T>>)
    reads s
  {
    forall i :: 0 <= i < |s| ==> s[i].next == NodeAt(s, i + 1)
  }

  ghost function Take<T>(s: seq<Node<T>>, k: nat): (r: seq<Node<T>>)
    ensures |r| == if k <= |s| then k else |s|
  {
    s[..Min(k, |s|)]
  }

  ghost function Skip<T>(s: seq<Node<T>>, k: nat): (r: seq<Node<T>>)
    ensures |r| == if k <= |s| then |s| - k else 0
  {
    s[Min(k, |s|)..]
  }

  /** Appends node `e` to the output of a pass.  The nodes still to be merged keep their links. */
  method Emit<T>(list: Node?<T>, tail: Node?<T>, e: Node<T>, back: bool,
                 ghost out: seq<Node<T>>, ghost ps: seq<Node<T>>, ghost rest: seq<Node<T>>)
    returns (list': Node<T>)
    requires Output(out, list, tail, back) && Run(ps) && Rest(rest)
    requires Once(multiset(out + [e]) + multiset(ps) + multiset(rest))
    modifies if tail == null then {e} else {tail, e}
    ensures Output(out + [e], list', e, back) && Run(ps) && Rest(rest)
  {
    Separate(out, e, ps, rest);
    assert tail != null ==> tail in out;
    list' := e;
    if tail != null {
      list' := list;
      tail.next := e;
    }
    if back {
      e.prev := tail;
    }
    assert forall i :: 0 <= i < |out| - 1 ==> out[i] != out[|out| - 1];
  }

  lemma Separate<T>(out: seq<Node<T>>, e: Node<T>, ps: seq<Node<T>>, rest: seq<Node<T>>)
    requires Once(multiset(out + [e]) + multiset(ps) + multiset(rest))
    ensures Distinct(out) && e !in out && e !in ps && e !in rest
    ensures forall x :: x in out ==> x !in ps && x !in rest
  {
    var m := multiset(out + [e]) + multiset(ps) + multiset(rest);
    assert m == multiset(out) + multiset{e} + multiset(ps) + multiset(rest);
    assert forall x :: x in m ==> m[x] == 1;
    forall x | x in multiset(out) ensures multiset(out)[x] == 1 { assert m[x] == 1; }
    OnceDistinct(out);
    assert m[e] == 1;
    forall x | x in out ensures x !in ps && x !in rest { assert m[x] == 1; }
  }

  /** Walks `q` over the first run, at most `insize` nodes, and counts its nodes. */
  method CountRun<T>(p: Node<T>, insize: nat, ghost s: seq<Node<T>>)
    returns (q: Node?<T>, psize: nat)
    requires 0 < insize && s != [] && p == s[0] && Rest(s)
    ensures psize == |Take(s, insize)| && q == NodeAt(s, psize)
  {
    q, psize := p, 0;
    for k := 0 to insize
      invariant psize == k < |s| && q == s[k]
    {
      psize := psize + 1;
      q := q.next;
      if q == null {
        break;
      }
    }
  }

  /** Unlinks the next node of the merge from the front of one of the two runs. */
  method TakeNext<T>(p0: Node?<T>, q0: Node?<T>, psize0: nat, qsize0: nat, cmp: Comparison<T>,
                     ghost ps0: seq<Node<T>>, ghost rest0: seq<Node<T>>)
    returns (e: Node<T>, p: Node?<T>, q: Node?<T>, psize: nat, qsize: nat,
             ghost ps: seq<Node<T>>, ghost rest: seq<Node<T>>, ghost compared: nat)
    requires psize0 > 0 || (qsize0 > 0 && q0 != null)
    requires psize0 == |ps0| && (ps0 != [] ==> p0 == ps0[0]) && q0 == NodeAt(rest0, 0)
    requires Run(ps0) && Rest(rest0)
    ensures psize == |ps| && (ps != [] ==> p == ps[0]) && q == NodeAt(rest, 0)
    ensures if psize < psize0 then ps0 == [e] + ps && rest == rest0 && qsize == qsize0
                              else ps == ps0 && rest0 == [e] + rest && qsize == qsize0 - 1
    ensures Merge(ps0, Take(rest0, qsize0), cmp) == [e] + Merge(ps, Take(rest, qsize), cmp)
    ensures MergeCost(ps0, Take(rest0, qsize0), cmp) == compared + MergeCost(ps, Take(rest, qsize), cmp)
    ensures compared <= 1 && (qsize0 == 0 || |rest0| == 0 ==> compared == 0)
    ensures Run(ps) && Rest(rest)
  {
    p, q, psize, qsize := p0, q0, psize0, qsize0;
    ps, rest, compared := ps0, rest0, 0;
    ghost var qs := Take(rest, qsize0);
    assert qsize0 > 0 && rest != [] ==> qs[0] == rest[0] && qs[1..] == Take(rest[1..], qsize0 - 1);
    var takeP: bool;
    if psize == 0 {
      takeP := false;
    } else if qsize == 0 || q == null {
      takeP := true;
    } else {
      takeP := cmp(p.data, q.data) <= 0;
      compared := 1;
    }
    if takeP {
      e, p, psize := p, p.next, psize - 1;
      ps := ps[1..];
    } else {
      e, q, qsize := q, q.next, qsize - 1;
      rest := rest[1..];
    }
  }

  ghost predicate Within<T>(s: seq<Node<T>>, nodes: set<Node<T>>) {
    forall i :: 0 <= i < |s| ==> s[i] in nodes
  }

  /** The state of the inner loop: `ps` and `rest` are still to be merged onto `out`. */
  ghost predicate Merging<T>(nodes: set<Node<T>>, list: Node?<T>, tail: Node?<T>, p: Node?<T>, q: Node?<T>, psize: nat,
                             back: bool, out: seq<Node<T>>, ps: seq<Node<T>>, rest: seq<Node<T>>)
    reads nodes
  {
    && Within(out, nodes) && Within(ps, nodes) && Within(rest, nodes)
    && Once(multiset(out) + multiset(ps) + multiset(rest))
    && psize == |ps| && (ps != [] ==> p == ps[0]) && q == NodeAt(rest, 0)
    && Run(ps) && Rest(rest) && Output(out, list, tail, back)
  }

  /** One turn of the inner loop: moves the next node of the merge to the output. */
  method MergeStep<T>(list0: Node?<T>, tail0: Node?<T>, p0: Node?<T>, q0: Node?<T>, psize0: nat, qsize0: nat,
                      back: bool, cmp: Comparison<T>, ghost nodes: set<Node<T>>,
                      ghost out: seq<Node<T>>, ghost ps0: seq<Node<T>>, ghost rest0: seq<Node<T>>)
    returns (list: Node<T>, e: Node<T>, p: Node?<T>, q: Node?<T>, psize: nat, qsize: nat,
             ghost ps: seq<Node<T>>, ghost rest: seq<Node<T>>, ghost compared: nat)
    requires psize0 > 0 || (qsize0 > 0 && q0 != null)
    requires Merging(nodes, list0, tail0, p0, q0, psize0, back, out, ps0, rest0)
    modifies nodes
    ensures Merging(nodes, list, e, p, q, psize, back, out + [e], ps, rest)
    ensures Merge(ps0, Take(rest0, qsize0), cmp) == [e] + Merge(ps, Take(rest, qsize), cmp)
    ensures MergeCost(ps0, Take(rest0, qsize0), cmp) == compared + MergeCost(ps, Take(rest, qsize), cmp)
    ensures Skip(rest, qsize) == Skip(rest0, qsize0) && psize + qsize + 1 == psize0 + qsize0
    ensures compared <= 1 && (|rest0| == 0 ==> compared == |rest| == 0)
  {
    hide Once, Run, Rest, Within, Merge, MergeCost, Distinct;
    e, p, q, psize, qsize, ps, rest, compared := TakeNext(p0, q0, psize0, qsize0, cmp, ps0, rest0);
    MoveNode(nodes, e, out, ps0, rest0, ps, rest);
    list := Emit(list0, tail0, e, back, out, ps, rest);
  }

  /** Moving a node from one run to the output keeps every node in one place. */
  lemma MoveNode<T>(nodes: set<Node<T>>, e: Node<T>, out: seq<Node<T>>, ps0: seq<Node<T>>, rest0: seq<Node<T>>,
                    ps: seq<Node<T>>, rest: seq<Node<T>>)
    requires Within(out, nodes) && Within(ps0, nodes) && Within(rest0, nodes)
    requires Once(multiset(out) + multiset(ps0) + multiset(rest0))
    requires (ps0 == [e] + ps && rest == rest0) || (ps == ps0 && rest0 == [e] + rest)
    ensures Within(out + [e], nodes) && Within(ps, nodes) && Within(rest, nodes) && e in nodes
    ensures Once(multiset(out + [e]) + multiset(ps) + multiset(rest))
    ensures out != [] ==> out[|out| - 1] in nodes
  {
    assert multiset(out) + multiset(ps0) + multiset(rest0) == multiset(out + [e]) + multiset(ps) + multiset(rest);
    if ps0 == [e] + ps && rest == rest0 {
      assert e == ps0[0] && forall i :: 0 <= i < |ps| ==> ps[i] == ps0[i + 1];
    } else {
      assert e == rest0[0] && forall i :: 0 <= i < |rest| ==> rest[i] == rest0[i + 1];
    }
  }

  /** The inner loop: merges the run at `p` with the run at `q` onto the end of the output. */
  method MergeRuns<T>(list0: Node?<T>, tail0: Node?<T>, p0: Node<T>, q0: Node?<T>, psize0: nat, insize: nat,
                      back: bool, cmp: Comparison<T>, ghost nodes: set<Node<T>>,
                      ghost out0: seq<Node<T>>, ghost ps0: seq<Node<T>>, ghost rest0: seq<Node<T>>)
    returns (list: Node<T>, tail: Node<T>, next: Node?<T>, ghost out: seq<Node<T>>, ghost compared: nat)
    requires psize0 == |ps0| > 0 && Merging(nodes, list0, tail0, p0, q0, psize0, back, out0, ps0, rest0)
    modifies nodes
    ensures out == out0 + Merge(ps0, Take(rest0, insize), cmp)
    ensures compared == MergeCost(ps0, Take(rest0, insize), cmp)
    ensures Merging(nodes, list, tail, null, next, 0, back, out, [], Skip(rest0, insize))
    ensures compared <= |out| - |out0| && (|rest0| == 0 ==> compared == 0)
  {
    hide *;
    var p: Node?<T>, q, psize: nat, qsize: nat := p0, q0, psize0, insize;
    var head, last := list0, tail0;
    ghost var ps, rest, c := ps0, rest0, 0;
    out, compared := out0, 0;
    while psize > 0 || (qsize > 0 && q != null)
      invariant Merging(nodes, head, last, p, q, psize, back, out, ps, rest)
      invariant Skip(rest, qsize) == Skip(rest0, insize)
      invariant out + Merge(ps, Take(rest, qsize), cmp) == out0 + Merge(ps0, Take(rest0, insize), cmp)
      invariant compared + MergeCost(ps, Take(rest, qsize), cmp) == MergeCost(ps0, Take(rest0, insize), cmp)
      invariant |out0| + compared <= |out| && (|rest0| == 0 ==> compared == |rest| == 0)
      decreases psize + qsize
    {
      ghost var out1, m := out, Merge(ps, Take(rest, qsize), cmp);
      head, last, p, q, psize, qsize, ps, rest, c :=
        MergeStep(head, last, p, q, psize, qsize, back, cmp, nodes, out, ps, rest);
      assert out1 + m == out1 + [last] + Merge(ps, Take(rest, qsize), cmp);
      out := out + [last];
      compared := compared + c;
    }
    MergeDone(nodes, head, last, p, q, psize, qsize, back, cmp, out, ps, rest);
    assert out == out0 + Merge(ps0, Take(rest0, insize), cmp);
    list, tail, next := head, last, q;
  }

  lemma MergeDone<T>(nodes: set<Node<T>>, list: Node?<T>, tail: Node?<T>, p: Node?<T>, q: Node?<T>, psize: nat, qsize: nat,
                     back: bool, cmp: Comparison<T>, out: seq<Node<T>>, ps: seq<Node<T>>, rest: seq<Node<T>>)
    requires Merging(nodes, list, tail, p, q, psize, back, out, ps, rest)
    requires psize == 0 && (qsize == 0 || q == null)
    ensures Merge(ps, Take(rest, qsize), cmp) == [] && ps == [] && rest == Skip(rest, qsize)
    ensures MergeCost(ps, Take(rest, qsize), cmp) == 0
    ensures Merging(nodes, list, tail, null, q, 0, back, out, [], rest)
    ensures out != [] ==> list != null && tail != null
  {
  }

  /** A pass merges the first two runs and goes on behind them. */
  lemma PassUnfold<T>(s: seq<Node<T>>, w: nat, cmp: Comparison<T>)
    requires 0 < w && s != []
    ensures Pass(s, w, cmp) == Merge(Take(s, w), Take(Skip(s, w), w), cmp) + Pass(Skip(s, 2 * w), w, cmp)
    ensures PassCost(s, w, cmp) == MergeCost(Take(s, w), Take(Skip(s, w), w), cmp) + PassCost(Skip(s, 2 * w), w, cmp)
    ensures Skip(Skip(s, w), w) == Skip(s, 2 * w)
  {
    hide Merge, MergeCost;
    assert Take(Skip(s, w), w) == s[Min(w, |s|)..Min(2 * w, |s|)];
    assert Skip(Skip(s, w), w) == Skip(s, 2 * w);
  }

  lemma PassNothing<T>(w: nat, cmp: Comparison<T>)
    requires 0 < w
    ensures Pass([], w, cmp) == [] && PassCost([], w, cmp) == 0
  {
  }

  lemma MergingStart<T>(nodes: set<Node<T>>, list: Node<T>, s: seq<Node<T>>, back: bool)
    requires s != [] && list == s[0] && Within(s, nodes) && Linked(s)
    ensures Merging(nodes, null, null, null, list, 0, back, [], [], s)
  {
    OnceDistinct(s);
    assert multiset([]) + multiset([]) + multiset(s) == multiset(s);
  }

  lemma MergingRest<T>(nodes: set<Node<T>>, list: Node?<T>, tail: Node?<T>, p: Node<T>, back: bool, out: seq<Node<T>>, rest: seq<Node<T>>)
    requires Merging(nodes, list, tail, null, p, 0, back, out, [], rest)
    ensures rest != [] && Rest(rest) && p == rest[0]
  {
  }

  /** Splitting off the first run of the rest. */
  lemma MergingSplit<T>(nodes: set<Node<T>>, list: Node?<T>, tail: Node?<T>, p: Node<T>, q: Node?<T>, w: nat,
                        back: bool, out: seq<Node<T>>, rest: seq<Node<T>>)
    requires Merging(nodes, list, tail, null, p, 0, back, out, [], rest) && q == NodeAt(rest, |Take(rest, w)|) && 0 < w
    ensures Take(rest, w) != []
    ensures Merging(nodes, list, tail, p, q, |Take(rest, w)|, back, out, Take(rest, w), Skip(rest, w))
  {
    SplitOnce(nodes, out, rest, w);
    var k, ps, qs := Min(w, |rest|), Take(rest, w), Skip(rest, w);
    assert forall i :: 0 <= i < |ps| ==> ps[i] == rest[i];
    assert forall i :: 0 <= i < |qs| ==> qs[i] == rest[k + i];
  }

  lemma SplitOnce<T>(nodes: set<Node<T>>, out: seq<Node<T>>, rest: seq<Node<T>>, w: nat)
    requires Within(rest, nodes) && Once(multiset(out) + multiset([]) + multiset(rest))
    ensures Within(Take(rest, w), nodes) && Within(Skip(rest, w), nodes)
    ensures Once(multiset(out) + multiset(Take(rest, w)) + multiset(Skip(rest, w)))
  {
    var ps, qs := Take(rest, w), Skip(rest, w);
    assert rest == ps + qs && multiset(rest) == multiset(ps) + multiset(qs);
    assert multiset(out) + multiset([]) + multiset(rest) == multiset(out) + multiset(ps) + multiset(qs);
    assert forall i :: 0 <= i < |qs| ==> qs[i] == rest[Min(w, |rest|) + i];
  }

  lemma MergingEnd<T>(nodes: set<Node<T>>, list: Node?<T>, tail: Node?<T>, back: bool, out: seq<Node<T>>, rest: seq<Node<T>>)
    requires Merging(nodes, list, tail, null, null, 0, back, out, [], rest)
    ensures rest == [] && Distinct(out) && Within(out, nodes) && Output(out, list, tail, back)
    ensures out != [] ==> list != null && tail != null && list == out[0] && list in nodes && tail in nodes
  {
    assert multiset(out) + multiset([]) + multiset(rest) == multiset(out);
    OnceDistinct(out);
  }

  /** Ends the list at `tail` and, for a doubly linked list, lets the head's `prev` lead to it. */
  method CloseList<T>(list: Node<T>, tail: Node<T>, back: bool, ghost out: seq<Node<T>>)
    requires Distinct(out) && Output(out, list, tail, back)
    modifies list, tail
    ensures Linked(out) && (back ==> LinkedBack(out))
  {
    if back {
      list.prev := tail;
    }
    tail.next := null;
  }

  /** The body of a pass: counts the first run behind `p` and merges it with the next. */
  method MergePair<T>(list0: Node?<T>, tail0: Node?<T>, p: Node<T>, insize: nat, back: bool, cmp: Comparison<T>,
                      ghost nodes: set<Node<T>>, ghost out0: seq<Node<T>>, ghost rest: seq<Node<T>>)
    returns (list: Node<T>, tail: Node<T>, next: Node?<T>, ghost out: seq<Node<T>>, ghost compared: nat)
    requires 0 < insize && Merging(nodes, list0, tail0, null, p, 0, back, out0, [], rest)
    modifies nodes
    ensures Merging(nodes, list, tail, null, next, 0, back, out, [], Skip(rest, 2 * insize))
    ensures out + Pass(Skip(rest, 2 * insize), insize, cmp) == out0 + Pass(rest, insize, cmp)
    ensures PassCost(rest, insize, cmp) == compared + PassCost(Skip(rest, 2 * insize), insize, cmp)
    ensures |out0| < |out| && |out0| + |rest| == |out| + |Skip(rest, 2 * insize)|
    ensures compared <= |out| - |out0| && (|rest| == 1 ==> compared == 0)
  {
    hide *;
    MergingRest(nodes, list0, tail0, p, back, out0, rest);
    var q, psize := CountRun(p, insize, rest);
    MergingSplit(nodes, list0, tail0, p, q, insize, back, out0, rest);
    PassUnfold(rest, insize, cmp);
    ghost var m := Merge(Take(rest, insize), Take(Skip(rest, insize), insize), cmp);
    list, tail, next, out, compared :=
      MergeRuns(list0, tail0, p, q, psize, insize, back, cmp, nodes, out0, Take(rest, insize), Skip(rest, insize));
    ghost var tail' := Pass(Skip(rest, 2 * insize), insize, cmp);
    assert out0 + (m + tail') == out + tail';
  }

  /** One pass over the list: merges neighbouring runs of `insize` nodes, counting the merges. */
  method SortPass<T>(list0: Node<T>, insize: nat, back: bool, cmp: Comparison<T>,
                     ghost nodes: set<Node<T>>, ghost s: seq<Node<T>>)
    returns (list: Node<T>, nmerges: nat, ghost compared: nat)
    requires 0 < insize && s != [] && list0 == s[0] && Within(s, nodes) && Linked(s)
    modifies nodes
    ensures var r := Pass(s, insize, cmp);
      list == r[0] && Within(r, nodes) && Linked(r) && (back ==> LinkedBack(r))
    ensures compared == PassCost(s, insize, cmp)
    ensures nmerges <= 1 <==> |s| <= 2 * insize
    ensures compared <= |s| && (|s| == 1 ==> compared == 0)
  {
    hide *;
    MergingStart(nodes, list0, s, back);
    var p: Node?<T>, head: Node?<T>, tail: Node?<T> := list0, null, null;
    ghost var out: seq<Node<T>>, rest := [], s;
    nmerges, compared := 0, 0;
    while p != null
      invariant Merging(nodes, head, tail, null, p, 0, back, out, [], rest)
      invariant out + Pass(rest, insize, cmp) == Pass(s, insize, cmp)
      invariant compared + PassCost(rest, insize, cmp) == PassCost(s, insize, cmp)
      invariant |out| + |rest| == |s| && (nmerges == 0 <==> |out| == 0)
      invariant nmerges == 1 ==> |rest| == |Skip(s, 2 * insize)|
      invariant nmerges > 1 ==> |Skip(s, 2 * insize)| > 0
      invariant compared <= |out| && (|s| == 1 ==> compared == 0)
      decreases |rest|
    {
      nmerges := nmerges + 1;
      ghost var c;
      head, tail, p, out, c := MergePair(head, tail, p, insize, back, cmp, nodes, out, rest);
      rest := Skip(rest, 2 * insize);
      compared := compared + c;
    }
    MergingEnd(nodes, head, tail, back, out, rest);
    PassNothing(insize, cmp);
    assert out == Pass(s, insize, cmp);
    list := head;
    CloseList(list, tail, back, out);
  }

  /**
   LL_SORT and, with `back`, DL_SORT; the second differs from the first only in setting `prev`.
   The list of the nodes `s` becomes the list of their stable sort, with the comparisons of its merges, which
   are at most n * ceil(log2 n).
   */
  method Sort<T(!new)>(list0: Node?<T>, back: bool, cmp: Comparison<T>, ghost s: seq<Node<T>>)
    returns (list: Node?<T>, ghost sorted: seq<Node<T>>, ghost compared: nat)
    requires TotalPreorder(cmp)
    requires list0 == NodeAt(s, 0) && Linked(s)
    modifies s
    ensures list == NodeAt(sorted, 0) && StablySorted(s, sorted, cmp)
    ensures Linked(sorted) && (back ==> LinkedBack(sorted))
    ensures compared == PassesCost(s, 1, cmp) <= |s| * CeilLog2(|s|)
  {
    hide *;
    list, sorted, compared := list0, s, 0;
    SortStart(list, s, cmp);
    if list == null {
      return;
    }
    ghost var nodes, k: nat := set x | x in s, 0;
    var insize, looping := 1, true;
    while looping
      invariant 0 < insize == Pow2(k)
      invariant |sorted| == |s| > 0 && list == sorted[0] && Within(sorted, nodes) && Linked(sorted)
      invariant looping ==> Passes(sorted, insize, cmp) == Passes(s, 1, cmp)
      invariant looping ==> compared + PassesCost(sorted, insize, cmp) == PassesCost(s, 1, cmp)
      invariant !looping ==> compared == PassesCost(s, 1, cmp)
      invariant !looping ==> sorted == Passes(s, 1, cmp) && (back ==> LinkedBack(sorted))
      invariant looping ==> (k == 0 || insize < |s|) && compared <= Times(|s|, k)
      invariant !looping ==> compared <= Times(|s|, CeilLog2(|s|))
      decreases looping, |s| - insize
    {
      PassesUnfold(sorted, insize, cmp);
      ghost var c;
      var nmerges;
      list, nmerges, c := SortPass(list, insize, back, cmp, nodes, sorted);
      sorted := Pass(sorted, insize, cmp);
      CostStep(|s|, k, compared, c);
      compared := compared + c;
      if nmerges <= 1 {
        looping := false;
      }
      insize := insize * 2;
      k := k + 1;
    }
    SortEnd(sorted);
  }

  lemma SortStart<T(!new)>(list: Node?<T>, s: seq<Node<T>>, cmp: Comparison<T>)
    requires TotalPreorder(cmp) && list == NodeAt(s, 0)
    ensures StablySorted(s, Passes(s, 1, cmp), cmp)
    ensures list == null ==> s == [] && Passes(s, 1, cmp) == s && PassesCost(s, 1, cmp) == 0 && LinkedBack(s)
    ensures list != null ==> s != [] && list == s[0]
    ensures Within(s, set x | x in s) && Pow2(0) == 1 && Times(|s|, 0) == 0
  {
    BlocksOfOne(s, cmp);
    PassesCorrect(s, 1, cmp);
  }

  lemma SortEnd<T>(s: seq<Node<T>>)
    ensures s != [] ==> NodeAt(s, 0) == s[0]
    ensures Times(|s|, CeilLog2(|s|)) == |s| * CeilLog2(|s|)
  {
  }

  lemma PassesUnfold<T>(s: seq<Node<T>>, w: nat, cmp: Comparison<T>)
    requires 0 < w
    ensures Passes(s, w, cmp) == if |s| <= 2 * w then Pass(s, w, cmp) else Passes(Pass(s, w, cmp), 2 * w, cmp)
    ensures PassesCost(s, w, cmp) == PassCost(s, w, cmp) + if |s| <= 2 * w then 0 else PassesCost(Pass(s, w, cmp), 2 * w, cmp)
  {
  }

  ghost function Times(n: nat, k: nat): nat { n * k }

  lemma {:induction false} TimesMonotone(n: nat, k: nat, j: nat)
    ensures Times(n, k + 1) == Times(n, k) + n
    ensures Times(n, k) <= Times(n, k + j)
    decreases j
  {
    assert n * (k + 1) == n * k + n;
    if j > 0 {
      TimesMonotone(n, k + 1, j - 1);
    }
  }

  /** Adding the comparisons of pass `k`, whose runs have 2^k nodes, keeps the bound. */
  lemma CostStep(n: nat, k: nat, total: nat, last: nat)
    requires total <= Times(n, k) && last <= n && (n <= 1 ==> last == 0)
    requires k == 0 || Pow2(k) < n
    ensures total + last <= Times(n, k + 1) && total + last <= Times(n, CeilLog2(n))
    ensures Pow2(k + 1) == 2 * Pow2(k)
  {
    hide Times;
    CeilLog2Tight(n, k);
    if n > 1 {
      TimesMonotone(n, k, 0);
      TimesMonotone(n, k + 1, CeilLog2(n) - k - 1);
    } else {
      TimesMonotone(n, k, 0);
      TimesMonotone(n, 0, CeilLog2(n));
    }
  }
}
