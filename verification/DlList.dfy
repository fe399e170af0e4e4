/**
 The doubly linked lists of utlist.h, on which libuvc keeps its descriptors, and the nested teardown
 of `uvc_free_device_info`.

 `head->prev` is the last node and `last->next` is NULL.  The payload of a node is the list of its
 children (the formats of an interface, the frames of a format) and the interval array of a frame.
 */
module DlList {
  import opened ListSort

  datatype Info = Info(children: DlList?, intervals: array?<nat>)

  type Entry = Node<Info>

  /** The nodes of `s` but for the first occurrence of `x`. */
  ghost function Without(s: seq<Entry>, x: Entry): (r: seq<Entry>) {
    if s == [] then [] else if s[0] == x then s[1..] else [s[0]] + Without(s[1..], x)
  }

  lemma {:induction false} WithoutAt(s: seq<Entry>, k: nat)
    requires k < |s| && Distinct(s)
    ensures Without(s, s[k]) == s[..k] + s[k + 1..]
  {
    if k > 0 {
      WithoutAt(s[1..], k - 1);
      assert s[..k] + s[k + 1..] == [s[0]] + (s[1..][..k - 1] + s[1..][k..]);
    }
  }

  class DlList {
    var head: Node?<Info>
    ghost var spine: seq<Entry>

    ghost predicate Links()
      reads `head, `spine, spine`next, spine`prev
    {
      head == NodeAt(spine, 0) && Linked(spine) && LinkedBack(spine)
    }

    constructor ()
      ensures Links() && spine == []
    {
      head, spine := null, [];
    }

    /** DL_PREPEND. */
    method Prepend(add: Entry)
      requires Links() && add !in spine
      modifies `head, `spine, add`next, add`prev, spine`next, spine`prev
      ensures Links() && spine == [add] + old(spine)
    {
      ghost var s, t := spine, [add] + spine;
      assert s != [] ==> head == s[0] && s[0].prev == s[|s| - 1];
      add.next := head;
      if head != null {
        add.prev := head.prev;
        head.prev := add;
      } else {
        add.prev := add;
      }
      head := add;
      spine := t;
      forall i | 0 <= i < |t|
        ensures t[i].next == NodeAt(t, i + 1) && (i > 0 ==> t[i].prev == t[i - 1])
      {
        assert i > 0 ==> t[i] == s[i - 1];
      }
      assert Distinct(t);
    }

    /** DL_APPEND. */
    method Append(add: Entry)
      requires Links() && add !in spine
      modifies `head, `spine, add`next, add`prev, spine`next, spine`prev
      ensures Links() && spine == old(spine) + [add]
    {
      ghost var s, t := spine, spine + [add];
      if head != null {
        assert s != [] && head == s[0] && s[0].prev == s[|s| - 1];
        assert forall i :: 0 <= i < |s| - 1 ==> s[i] != s[|s| - 1];
        add.prev := head.prev;
        head.prev.next := add;
        head.prev := add;
        add.next := null;
      } else {
        head := add;
        head.prev := head;
        head.next := null;
      }
      spine := t;
      forall i | 0 <= i < |t|
        ensures t[i].next == NodeAt(t, i + 1) && (i > 0 ==> t[i].prev == t[i - 1])
      {
        assert i < |s| ==> t[i] == s[i];
      }
      assert Distinct(t);
    }

    /** DL_DELETE. */
    method Delete(del: Entry)
      requires Links() && del in spine
      modifies `head, `spine, spine`next, spine`prev
      ensures Links() && spine == Without(old(spine), del)
      ensures del.next == old(del.next)
    {
      hide *;
      ghost var k :| 0 <= k < |spine| && spine[k] == del;
      DeleteCases(k);
      if del.prev == del {
        head := null;
        spine := [];
        NoLinks();
      } else if del == head {
        UnlinkFirst(del);
      } else {
        UnlinkInner(del, k);
      }
    }

    /** How DL_DELETE tells where node `k` is. */
    lemma DeleteCases(k: nat)
      requires Links() && k < |spine|
      ensures head == spine[0] && (spine[k] == head <==> k == 0)
      ensures spine[k].prev == spine[k] <==> |spine| == 1
      ensures Without(spine, spine[k]) == spine[..k] + spine[k + 1..]
      ensures |spine| == 1 ==> Without(spine, spine[k]) == []
      ensures k == 0 ==> Without(spine, spine[k]) == spine[1..]
    {
      WithoutAt(spine, k);
      assert spine[0].prev == spine[|spine| - 1];
      assert k > 0 ==> spine[k].prev == spine[k - 1];
    }

    lemma NoLinks()
      requires head == null && spine == []
      ensures Links()
    {
    }

    /** The second branch of DL_DELETE. */
    method UnlinkFirst(del: Entry)
      requires Links() && |spine| > 1 && spine[0] == del
      modifies `head, `spine, spine`next, spine`prev
      ensures Links() && spine == old(spine)[1..]
      ensures del.next == old(del.next)
    {
      ghost var s := spine;
      assert s[0].next == s[1] && s[0].prev == s[|s| - 1];
      del.next.prev := del.prev;
      head := del.next;
      spine := spine[1..];
      forall i | 0 <= i < |spine|
        ensures spine[i].next == NodeAt(spine, i + 1) && (i > 0 ==> spine[i].prev == spine[i - 1])
      {
        assert spine[i] == s[i + 1];
      }
    }

    /** The last branch of DL_DELETE. */
    method UnlinkInner(del: Entry, ghost k: nat)
      requires Links() && 0 < k < |spine| && spine[k] == del
      modifies `head, `spine, spine`next, spine`prev
      ensures Links() && spine == old(spine)[..k] + old(spine)[k + 1..]
      ensures del.next == old(del.next)
    {
      hide *;
      ghost var s := spine;
      InnerLinks(this, s, k);
      del.prev.next := del.next;
      if del.next != null {
        del.next.prev := del.prev;
      } else {
        head.prev := del.prev;
      }
      spine := s[..k] + s[k + 1..];
      Spliced(this, s, k);
    }
  }

  /** What the unlinking reads of the list around an inner node, and which nodes differ. */
  lemma InnerLinks(list: DlList, s: seq<Entry>, k: nat)
    requires list.Links() && list.spine == s && 0 < k < |s|
    ensures list.head == s[0] && Distinct(s)
    ensures s[k].prev == s[k - 1] && s[k].next == NodeAt(s, k + 1) == if k + 1 < |s| then s[k + 1] else null
    ensures forall i :: 0 <= i < |s| ==> s[i].next == NodeAt(s, i + 1)
    ensures s[0].prev == s[|s| - 1]
    ensures forall i :: 0 < i < |s| ==> s[i].prev == s[i - 1]
    ensures forall i :: 0 <= i < |s| && i != k - 1 ==> s[i] != s[k - 1]
    ensures forall i :: 0 < i < |s| ==> s[i] != s[0]
    ensures k + 1 < |s| ==> forall i :: 0 <= i < |s| && i != k + 1 ==> s[i] != s[k + 1]
  {
  }

  /** The list `s` without node `k`, once its neighbours are linked to each other. */
  lemma Spliced(list: DlList, s: seq<Entry>, k: nat)
    requires 0 < k < |s| && list.spine == s[..k] + s[k + 1..] && Distinct(s) && list.head == s[0]
    requires forall i :: 0 <= i < |s| ==> s[i].next == if i == k - 1 then NodeAt(s, k + 1) else NodeAt(s, i + 1)
    requires s[0].prev == if k == |s| - 1 then s[k - 1] else s[|s| - 1]
    requires forall i {:trigger s[i].prev} :: 0 < i < |s| ==> s[i].prev == if i == k + 1 then s[k - 1] else s[i - 1]
    ensures list.Links()
  {
    var t := list.spine;
    DeleteDistinct(s, t, k);
    forall i | 0 <= i < |t|
      ensures t[i].next == NodeAt(t, i + 1)
    {
      assert i + 1 < |t| ==> t[i + 1] == if i + 1 < k then s[i + 1] else s[i + 2];
    }
    forall i | 0 < i < |t|
      ensures t[i].prev == t[i - 1]
    {
      assert i >= k ==> s[i + 1].prev == if i == k then s[k - 1] else s[i];
      assert t[i - 1] == if i - 1 < k then s[i - 1] else s[i];
    }
  }

  lemma DeleteDistinct(s: seq<Entry>, t: seq<Entry>, k: nat)
    requires k < |s| && t == s[..k] + s[k + 1..] && Distinct(s)
    ensures Distinct(t)
    ensures forall i :: 0 <= i < |t| ==> t[i] == if i < k then s[i] else s[i + 1]
  {
  }

  // ----- runs of list operations

  datatype Edit = Prepending(node: Entry) | Appending(node: Entry) | Deleting(node: Entry)

  ghost function Edited(s: seq<Entry>, e: Edit): seq<Entry> {
    match e
    case Prepending(n) => [n] + s
    case Appending(n) => s + [n]
    case Deleting(n) => Without(s, n)
  }

  ghost function EditedBy(s: seq<Entry>, edits: seq<Edit>): seq<Entry>
    decreases |edits|
  {
    if edits == [] then s else EditedBy(Edited(s, edits[0]), edits[1..])
  }

  /** Nodes are added while off the list and deleted while on it. */
  ghost predicate Proper(s: seq<Entry>, edits: seq<Edit>)
    decreases |edits|
  {
    edits != [] ==>
      && (edits[0].Deleting? <==> edits[0].node in s)
      && Proper(Edited(s, edits[0]), edits[1..])
  }

  /** Any run of the three operations does to the linked list what it does to a sequence. */
  method Perform(list: DlList, edits: seq<Edit>, ghost pool: set<Entry>)
    requires list.Links() && Proper(list.spine, edits)
    requires forall n :: n in list.spine ==> n in pool
    requires forall i :: 0 <= i < |edits| ==> edits[i].node in pool
    modifies list, pool
    ensures list.Links() && list.spine == EditedBy(old(list.spine), edits)
  {
    if edits != [] {
      ghost var s, e := list.spine, edits[0];
      match edits[0] {
        case Prepending(n) => list.Prepend(n);
        case Appending(n) => list.Append(n);
        case Deleting(n) => list.Delete(n); WithoutOnly(s, n);
      }
      assert list.spine == Edited(s, e);
      Perform(list, edits[1..], pool);
    }
  }

  lemma {:induction false} WithoutOnly(s: seq<Entry>, x: Entry)
    ensures forall n :: n in Without(s, x) ==> n in s
  {
    if s != [] && s[0] != x {
      WithoutOnly(s[1..], x);
    }
  }

  // ----- nested teardown

  /**
   A list of nodes and all the lists below it, by first child and next sibling: the first node,
   what hangs below that node, and the remaining nodes.
   */
  datatype Forest = Bare | Grove(node: Entry, below: Forest, next: Forest)

  ghost function Spine(f: Forest): (s: seq<Entry>) {
    if f.Bare? then [] else [f.node] + Spine(f.next)
  }

  /** What is allocated: the nodes, and the interval arrays of frames. */
  datatype Block = NodeBlock(node: Entry) | IntervalBlock(intervals: array<nat>)

  ghost function Own(n: Entry): (bs: seq<Block>) {
    (if n.data.intervals == null then [] else [IntervalBlock(n.data.intervals)]) + [NodeBlock(n)]
  }

  /** All blocks, those of a node after the blocks below it. */
  ghost function PostOrder(f: Forest): (s: seq<Block>) {
    if f.Bare? then [] else PostOrder(f.below) + Own(f.node) + PostOrder(f.next)
  }

  ghost function Blocks(f: Forest): (s: set<Block>) {
    if f.Bare? then {} else (set b | b in Own(f.node)) + Blocks(f.below) + Blocks(f.next)
  }

  ghost function Size(f: Forest): nat {
    if f.Bare? then 0 else 1 + Size(f.below) + Size(f.next)
  }

  ghost function Just(list: DlList?): set<DlList> {
    if list == null then {} else {list}
  }

  /** The lists that the nodes of `f` carry. */
  ghost function Lists(f: Forest): (s: set<DlList>) {
    if f.Bare? then {} else Just(f.node.data.children) + Lists(f.below) + Lists(f.next)
  }

  ghost function Nodes(f: Forest): (s: set<Entry>) {
    if f.Bare? then {} else {f.node} + Nodes(f.below) + Nodes(f.next)
  }

  /** The nodes on the lists that the nodes of `f` carry. */
  ghost function Inner(f: Forest): (s: set<Entry>) {
    if f.Bare? then {} else Nodes(f.below) + Inner(f.below) + Inner(f.next)
  }

  /** The lists that the nodes of `f` carry are linked as `f` says. */
  ghost predicate Hangs(f: Forest)
    reads Lists(f)`head, Lists(f)`spine, Inner(f)`next, Inner(f)`prev
    decreases f
  {
    f.Grove? ==>
      && Carries(f.node.data.children, f.below)
      && Hangs(f.below) && Hangs(f.next)
  }

  ghost predicate Carries(list: DlList?, f: Forest)
    reads Just(list)`head, Just(list)`spine, Nodes(f)`next, Nodes(f)`prev
  {
    if list == null then f.Bare? else SpineNodes(f); list.spine == Spine(f) && list.Links()
  }

  lemma {:induction false} SpineNodes(f: Forest)
    ensures forall n :: n in Spine(f) ==> n in Nodes(f)
  {
    if f.Grove? {
      SpineNodes(f.next);
    }
  }

  /** No node, no interval array and no list occurs twice in `f`. */
  ghost predicate Separate(f: Forest) {
    f.Grove? ==>
      && (forall b :: b in Own(f.node) ==> b !in Blocks(f.below) && b !in Blocks(f.next)) && Blocks(f.below) !! Blocks(f.next)
      && f.node !in Nodes(f.below) && f.node !in Nodes(f.next) && Nodes(f.below) !! Nodes(f.next)
      && f.node.data.children !in Lists(f.below) && f.node.data.children !in Lists(f.next) && Lists(f.below) !! Lists(f.next)
      && Separate(f.below) && Separate(f.next)
  }

  ghost predicate Empty(lists: set<DlList>)
    reads lists`head, lists`spine
  {
    forall l :: l in lists ==> l.head == null && l.spine == []
  }

  /** The allocator: the blocks freed so far, in order. */
  class Allocator {
    ghost var freed: seq<Block>

    constructor ()
      ensures freed == []
    {
      freed := [];
    }

    /** `free`: a block that is already freed must not be freed again. */
    method Free(b: Block)
      requires b !in freed
      modifies `freed
      ensures freed == old(freed) + [b]
    {
      freed := freed + [b];
    }
  }

  /** Nothing of `f` has been freed. */
  ghost predicate Live(f: Forest, heap: Allocator)
    reads heap
  {
    forall b :: b in Blocks(f) ==> b !in heap.freed
  }

  /** The parts of a forest: which nodes and lists the first node, those below it and the rest hold. */
  lemma Parts(f: Forest)
    requires f.Grove? && Separate(f)
    ensures Size(f) == 1 + Size(f.below) + Size(f.next) && Separate(f.below) && Separate(f.next)
    ensures Spine(f) == [f.node] + Spine(f.next) && Without(Spine(f), f.node) == Spine(f.next)
    ensures PostOrder(f) == PostOrder(f.below) + Own(f.node) + PostOrder(f.next)
    ensures forall b :: b in Own(f.node) ==> b in Blocks(f)
    ensures Blocks(f.below) <= Blocks(f) && Blocks(f.next) <= Blocks(f)
    ensures forall b :: b in Own(f.node) ==> b !in Blocks(f.below) && b !in Blocks(f.next)
    ensures Blocks(f.below) !! Blocks(f.next)
    ensures Nodes(f) == {f.node} + Nodes(f.below) + Nodes(f.next)
    ensures f.node !in Nodes(f.below) && f.node !in Nodes(f.next) && Nodes(f.below) !! Nodes(f.next)
    ensures Lists(f) - Lists(f.next) == Just(f.node.data.children) + Lists(f.below)
    ensures Lists(f.next) <= Lists(f) && f.node.data.children !in Lists(f.below)
    ensures forall n :: n in Spine(f) ==> n in Nodes(f) && n !in Nodes(f.below) && n !in Inner(f.next)
    ensures Inner(f.next) <= Nodes(f.next)
  {
    SpineNodes(f.next);
    InnerApart(f.next);
    assert Lists(f) == Just(f.node.data.children) + Lists(f.below) + Lists(f.next);
  }

  lemma {:induction false} InnerApart(f: Forest)
    requires Separate(f)
    ensures Inner(f) <= Nodes(f) && forall n :: n in Spine(f) ==> n !in Inner(f)
  {
    if f.Grove? {
      InnerApart(f.below);
      InnerApart(f.next);
      SpineNodes(f.next);
    }
  }

  /** The list `f` at its first node. */
  lemma FirstNode(list: DlList, f: Forest, heap: Allocator)
    requires list.Links() && list.spine == Spine(f) && Hangs(f) && Live(f, heap)
    ensures list.head == null <==> f.Bare?
    ensures f.Grove? ==>
      && list.head == f.node && f.node.next == NodeAt(Spine(f.next), 0)
      && Carries(f.node.data.children, f.below) && Hangs(f.below) && Hangs(f.next)
      && Live(f.below, heap) && Live(f.next, heap)
  {
    if f.Grove? {
      var s, r := Spine(f), Spine(f.next);
      assert s[0].next == NodeAt(s, 1);
      assert r != [] ==> s[1] == r[0];
    }
  }

  lemma CarriesUnfold(list: DlList?, f: Forest)
    requires Carries(list, f)
    ensures Just(list) == if list == null then {} else {list}
    ensures list == null ==> f == Bare && PostOrder(f) == [] && Lists(f) == {} && Nodes(f) == {}
    ensures list != null ==> list.Links() && list.spine == Spine(f)
  {
  }

  lemma HeadOf(list: DlList)
    requires list.Links()
    ensures list.head == NodeAt(list.spine, 0)
  {
  }

  lemma EmptyUnion(a: set<DlList>, b: set<DlList>)
    requires Empty(a) && Empty(b)
    ensures Empty(a + b)
  {
  }

  lemma TeardownStart(f: Forest)
    ensures Empty({}) && [] + PostOrder(f) == PostOrder(f) && Lists(f) + {} == Lists(f)
  {
  }

  lemma TeardownEnd(list: DlList, f: Forest)
    requires list.Links() && list.spine == Spine(f) && list.head == null
    ensures f.Bare? && Empty({list}) && Lists(f) == {} && PostOrder(f) == []
  {
  }

  lemma LiveBlocks(f: Forest, heap: Allocator)
    requires Live(f, heap)
    ensures forall b :: b in Blocks(f) ==> b !in heap.freed
  {
  }

  /** A node's own blocks, one or two. */
  lemma OwnIs(n: Entry)
    ensures n.data.intervals == null ==> Own(n) == [NodeBlock(n)]
    ensures n.data.intervals != null ==> Own(n) == [IntervalBlock(n.data.intervals), NodeBlock(n)]
  {
  }

  lemma EmptyBelow(children: DlList?, f: Forest)
    requires f.Grove? && f.node.data.children == children && Separate(f)
    requires if children == null then Lists(f.below) == {} else Empty({children} + Lists(f.below))
    ensures Empty(Lists(f) - Lists(f.next))
  {
    Parts(f);
  }

  /** When the blocks below the first node are freed, its own are not yet. */
  lemma OwnLast(f: Forest, before: seq<Block>, freed: seq<Block>)
    requires f.Grove? && Separate(f) && freed == before + PostOrder(f.below)
    requires forall b :: b in Blocks(f) ==> b !in before
    ensures forall b :: b in Own(f.node) ==> b !in freed
  {
    hide Own;
    PostOrderBlocks(f.below);
  }

  /** The blocks still allocated when those of `f`'s first node have been freed. */
  lemma LiveNext(f: Forest, heap: Allocator, before: seq<Block>)
    requires f.Grove? && Separate(f) && heap.freed == before + (PostOrder(f.below) + Own(f.node))
    requires forall b :: b in Blocks(f.next) ==> b !in before
    ensures Live(f.next, heap)
  {
    PostOrderBlocks(f.below);
  }

  lemma {:induction false} PostOrderBlocks(f: Forest)
    ensures forall b :: b in PostOrder(f) <==> b in Blocks(f)
  {
    if f.Grove? {
      hide Own;
      PostOrderBlocks(f.below);
      PostOrderBlocks(f.next);
    }
  }

  /** A teardown that frees in post-order frees every block of the forest exactly once, and no other. */
  lemma {:induction false} FreedOnce(f: Forest, b: Block)
    requires Separate(f)
    ensures multiset(PostOrder(f))[b] == if b in Blocks(f) then 1 else 0
  {
    if f.Grove? {
      FreedOnce(f.below, b);
      FreedOnce(f.next, b);
    }
  }

  /** Block `b` lies below node `n`, or is its interval array. */
  ghost predicate Below(f: Forest, n: Entry, b: Block) {
    f.Grove? &&
    ((f.node == n && (b in Blocks(f.below) || (n.data.intervals != null && b == IntervalBlock(n.data.intervals))))
     || Below(f.below, n, b) || Below(f.next, n, b))
  }

  /** And in the right order: what lies below a node, and its interval array, before the node. */
  lemma {:induction false} BelowFirst(f: Forest, n: Entry, b: Block) returns (i: nat, j: nat)
    requires Below(f, n, b)
    ensures i < j < |PostOrder(f)| && PostOrder(f)[i] == b && PostOrder(f)[j] == NodeBlock(n)
  {
    var below, own, next := PostOrder(f.below), Own(f.node), PostOrder(f.next);
    OwnIs(f.node);
    PostOrderBlocks(f.below);
    hide Own;
    assert PostOrder(f) == below + own + next;
    if Below(f.below, n, b) {
      i, j := BelowFirst(f.below, n, b);
    } else if Below(f.next, n, b) {
      i, j := BelowFirst(f.next, n, b);
      i, j := |below| + |own| + i, |below| + |own| + j;
    } else if b in Blocks(f.below) {
      i :| i < |below| && below[i] == b;
      j := |below| + |own| - 1;
    } else {
      i, j := |below|, |below| + 1;
    }
  }

  /** Among them are all nodes and all interval arrays. */
  lemma {:induction false} BlocksAre(f: Forest, n: Entry)
    ensures NodeBlock(n) in Blocks(f) <==> n in Nodes(f)
    ensures n in Nodes(f) && n.data.intervals != null ==> IntervalBlock(n.data.intervals) in Blocks(f)
  {
    if f.Grove? {
      BlocksAre(f.below, n);
      BlocksAre(f.next, n);
    }
  }

  /**
   DL_FOREACH_SAFE over `list`: the lists below each node are torn down first, then the node is
   deleted from its list and freed.  The source writes the three levels as three nested loops.
   */
  method Teardown(list: DlList, heap: Allocator, ghost f: Forest)
    requires list.Links() && list.spine == Spine(f) && list !in Lists(f)
    requires Hangs(f) && Separate(f) && Live(f, heap)
    modifies list`head, list`spine, Lists(f)`head, Lists(f)`spine, Nodes(f)`next, Nodes(f)`prev, heap
    ensures list.Links() && Empty({list} + Lists(f))
    ensures heap.freed == old(heap.freed) + PostOrder(f)
    decreases Size(f), 1
  {
    hide *;
    var el := list.head;
    ghost var rest, done, gone: set<DlList> := f, [], {};
    TeardownStart(f);
    while el != null
      invariant list.Links() && list.spine == Spine(rest) && list !in Lists(f) && el == list.head
      invariant Hangs(rest) && Separate(rest) && Live(rest, heap)
      invariant Lists(rest) + gone == Lists(f) && Lists(rest) !! gone && Empty(gone)
      invariant Nodes(rest) <= Nodes(f) && Size(rest) <= Size(f)
      invariant heap.freed == old(heap.freed) + done && done + PostOrder(rest) == PostOrder(f)
      decreases Size(rest)
    {
      FirstNode(list, rest, heap);
      var tmp := el.next;
      Parts(rest);
      TearFirst(list, el, heap, rest);
      assert Empty(gone);
      EmptyUnion(gone, Lists(rest) - Lists(rest.next));
      done := done + (PostOrder(rest.below) + Own(rest.node));
      gone := gone + (Lists(rest) - Lists(rest.next));
      rest := rest.next;
      el := tmp;
    }
    TeardownEnd(list, rest);
    EmptyUnion({list}, gone);
  }

  /** The end of the body: the node's intervals are freed, and the node is deleted from its list and freed. */
  method DropNode(list: DlList, el: Entry, heap: Allocator)
    requires list.Links() && el in list.spine && forall b :: b in Own(el) ==> b !in heap.freed
    modifies list`head, list`spine, list.spine`next, list.spine`prev, heap`freed
    ensures list.Links() && list.spine == Without(old(list.spine), el)
    ensures heap.freed == old(heap.freed) + Own(el)
  {
    OwnIs(el);
    hide *;
    if el.data.intervals != null {
      heap.Free(IntervalBlock(el.data.intervals));
    }
    list.Delete(el);
    heap.Free(NodeBlock(el));
  }

  /** The body of the loop: everything below `el` goes, then its intervals, then `el`. */
  method TearFirst(list: DlList, el: Entry, heap: Allocator, ghost f: Forest)
    requires list.Links() && list.spine == Spine(f) && list !in Lists(f)
    requires Hangs(f) && Separate(f) && Live(f, heap) && f.Grove? && f.node == el
    modifies list`head, list`spine, (Lists(f) - Lists(f.next))`head, (Lists(f) - Lists(f.next))`spine,
      Nodes(f)`next, Nodes(f)`prev, heap
    ensures list.Links() && list.spine == Spine(f.next) && list.head == old(el.next)
    ensures Hangs(f.next) && Live(f.next, heap) && Empty(Lists(f) - Lists(f.next))
    ensures heap.freed == old(heap.freed) + (PostOrder(f.below) + Own(el))
    decreases Size(f), 0
  {
    hide *;
    Parts(f);
    FirstNode(list, f, heap);
    assert allocated(Lists(f)) && allocated(Lists(f.next)) && allocated(Inner(f.next));
    CarriesUnfold(el.data.children, f.below);
    LiveBlocks(f, heap);
    PostOrderBlocks(f.below);
    var children := el.data.children;
    if children != null {
      Teardown(children, heap, f.below);
    }
    EmptyBelow(children, f);
    OwnLast(f, old(heap.freed), heap.freed);
    DropNode(list, el, heap);
    HeadOf(list);
    LiveNext(f, heap, old(heap.freed));
  }
}
