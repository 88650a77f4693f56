/**
 * The memory that lwlib/lwlib.c works on: cells linked by addresses, and argument blocks that
 * several cells share.  A shape says which cells make up a tree.
 */
module WidgetHeap {
  import opened Options
  import opened WidgetSpec

  /** A `widget_value`. */
  datatype Cell = Cell(item: Item, args: Ptr, change: Change, toolkit: Option<int>, contents: Ptr, next: Ptr)

  /** A `widget_args`: who uses it, and whether it is marked as changed. */
  datatype Block = Block(refCount: int, changed: bool)

  type Heap = map<Ptr, Cell>

  datatype Shape = Leaf | Branch(at: Ptr, contents: Shape, next: Shape)

  ghost function Ptrs(s: Shape): (ps: set<Ptr>) {
    if s.Leaf? then {} else {s.at} + Ptrs(s.contents) + Ptrs(s.next)
  }

  /** No cell occurs twice. */
  ghost predicate Distinct(s: Shape) {
    s.Branch? ==>
      && s.at !in Ptrs(s.contents) && s.at !in Ptrs(s.next)
      && Ptrs(s.contents) !! Ptrs(s.next)
      && Distinct(s.contents) && Distinct(s.next)
  }

  /** The tree at address `p` has shape `s`. */
  ghost predicate Rep(h: Heap, p: Ptr, s: Shape)
    decreases s
  {
    if s.Leaf? then p == 0
    else p == s.at && p != 0 && p in h && Rep(h, h[p].contents, s.contents) && Rep(h, h[p].next, s.next)
  }

  ghost function ValueOf(h: Heap, s: Shape): (t: Tree) {
    if s.Leaf? || s.at !in h then Nil
    else
      var c := h[s.at];
      Node(c.item, c.args, c.change, c.toolkit, ValueOf(h, s.contents), ValueOf(h, s.next))
  }

  /** The cells of `ps` are the same in both heaps. */
  ghost predicate Kept(h: Heap, h': Heap, ps: set<Ptr>) {
    forall p :: p in ps && p in h ==> p in h' && h'[p] == h[p]
  }

  /** The cells of `ps` differ in nothing but their argument slots. */
  ghost predicate KeptButArgs(h: Heap, h': Heap, ps: set<Ptr>) {
    forall p :: p in ps && p in h ==> p in h' && h'[p] == h[p].(args := h'[p].args)
  }

  lemma {:induction false} ValueFrame(h: Heap, h': Heap, p: Ptr, s: Shape)
    requires Rep(h, p, s) && Kept(h, h', Ptrs(s))
    ensures Rep(h', p, s) && ValueOf(h', s) == ValueOf(h, s)
    decreases s
  {
    if s.Branch? {
      ValueFrame(h, h', h[p].contents, s.contents);
      ValueFrame(h, h', h[p].next, s.next);
    }
  }

  lemma {:induction false} RepFrame(h: Heap, h': Heap, p: Ptr, s: Shape)
    requires Rep(h, p, s) && KeptButArgs(h, h', Ptrs(s))
    ensures Rep(h', p, s)
    decreases s
  {
    if s.Branch? {
      RepFrame(h, h', h[p].contents, s.contents);
      RepFrame(h, h', h[p].next, s.next);
    }
  }

  lemma KeptPart(h: Heap, h': Heap, ps: set<Ptr>, qs: set<Ptr>)
    requires Kept(h, h', ps) && qs <= ps
    ensures Kept(h, h', qs)
  {
  }

  /** A tree none of whose cells changed. */
  lemma TreeKept(h: Heap, h': Heap, p: Ptr, s: Shape, ps: set<Ptr>)
    requires Rep(h, p, s) && Kept(h, h', ps) && Ptrs(s) <= ps
    ensures Rep(h', p, s) && ValueOf(h', s) == ValueOf(h, s)
  {
    KeptPart(h, h', ps, Ptrs(s));
    ValueFrame(h, h', p, s);
  }

  /** One cell of a tree unfolded. */
  lemma RepTop(h: Heap, p: Ptr, s: Shape)
    requires Rep(h, p, s)
    ensures p == 0 <==> s.Leaf?
    ensures p != 0 ==>
              && p in h && s.Branch? && s.at == p
              && Rep(h, h[p].contents, s.contents) && Rep(h, h[p].next, s.next)
              && Ptrs(s) == {p} + Ptrs(s.contents) + Ptrs(s.next)
              && ValueOf(h, s) == Node(h[p].item, h[p].args, h[p].change, h[p].toolkit, ValueOf(h, s.contents), ValueOf(h, s.next))
    ensures p == 0 ==> Ptrs(s) == {} && ValueOf(h, s) == Nil
  {
  }

  /** One cell and two trees put together. */
  lemma RepJoin(h: Heap, p: Ptr, c: Shape, n: Shape)
    requires p in h && p != 0 && Rep(h, h[p].contents, c) && Rep(h, h[p].next, n)
    ensures Rep(h, p, Branch(p, c, n))
    ensures ValueOf(h, Branch(p, c, n)) ==
            Node(h[p].item, h[p].args, h[p].change, h[p].toolkit, ValueOf(h, c), ValueOf(h, n))
    ensures Ptrs(Branch(p, c, n)) == {p} + Ptrs(c) + Ptrs(n)
  {
  }

  lemma RepNothing(h: Heap)
    ensures Rep(h, 0, Leaf) && ValueOf(h, Leaf) == Nil && Ptrs(Leaf) == {} && Distinct(Leaf)
  {
  }

  /** Addresses: every cell is in use or on the free list, once and not both; nothing lies at `brk` or behind. */
  ghost predicate Memory(h: Heap, freeList: seq<Ptr>, blocks: map<Ptr, Block>, brk: Ptr, live: set<Ptr>) {
    && 0 < brk && (forall p :: p in h ==> 0 < p < brk) && (forall b :: b in blocks ==> 0 < b < brk)
    && (forall p :: p in h <==> p in live || p in freeList)
    && (forall p :: p in freeList ==> p !in live)
    && (forall i, j :: 0 <= i < j < |freeList| ==> freeList[i] != freeList[j])
  }

  /** Writing into cells, and freeing blocks, moves nothing. */
  lemma MemorySame(h: Heap, h': Heap, freeList: seq<Ptr>, blocks: map<Ptr, Block>, blocks': map<Ptr, Block>, brk: Ptr, live: set<Ptr>)
    requires Memory(h, freeList, blocks, brk, live)
    requires (forall p :: p in h' <==> p in h) && (forall b :: b in blocks' ==> b in blocks)
    ensures Memory(h', freeList, blocks', brk, live)
  {
  }

  lemma MemoryHas(h: Heap, freeList: seq<Ptr>, blocks: map<Ptr, Block>, brk: Ptr, live: set<Ptr>, p: Ptr)
    requires Memory(h, freeList, blocks, brk, live) && p in live
    ensures p in h && p != 0 && p !in freeList
  {
  }

  // ----- Reference counts -----

  /** The cells among `counted` that point at block `b`. */
  ghost function Holders(h: Heap, counted: set<Ptr>, b: Ptr): (ps: set<Ptr>) {
    set p | p in counted && p in h && h[p].args == b
  }

  /** Each block's count is the number of its holders, and each block has one. */
  ghost predicate Counts(h: Heap, counted: set<Ptr>, blocks: map<Ptr, Block>) {
    && 0 !in blocks
    && (forall p :: p in counted ==> p in h && (h[p].args != 0 ==> h[p].args in blocks))
    && (forall b :: b in blocks ==> blocks[b].refCount == |Holders(h, counted, b)| >= 1)
  }

  lemma BlockOf(h: Heap, counted: set<Ptr>, blocks: map<Ptr, Block>, p: Ptr)
    requires Counts(h, counted, blocks) && p in counted
    ensures p in h && 0 !in blocks
    ensures h[p].args != 0 ==> h[p].args in blocks && blocks[h[p].args].refCount >= 1
  {
  }

  /** Counting depends on the argument slots of the counted cells only. */
  lemma CountsFrame(h: Heap, h': Heap, counted: set<Ptr>, blocks: map<Ptr, Block>)
    requires Counts(h, counted, blocks)
    requires forall p :: p in counted && p in h ==> p in h' && h'[p].args == h[p].args
    ensures Counts(h', counted, blocks)
  {
    forall b | b in blocks ensures blocks[b].refCount == |Holders(h', counted, b)| >= 1 {
      assert Holders(h', counted, b) == Holders(h, counted, b);
    }
  }

  /** One more cell without a block. */
  lemma CountsNew(h: Heap, h': Heap, counted: set<Ptr>, blocks: map<Ptr, Block>, p: Ptr)
    requires Counts(h, counted, blocks) && p !in counted
    requires p in h' && h'[p].args == 0
    requires forall q :: q in counted && q in h ==> q in h' && h'[q].args == h[q].args
    ensures Counts(h', counted + {p}, blocks)
  {
    forall b | b in blocks ensures blocks[b].refCount == |Holders(h', counted + {p}, b)| >= 1 {
      assert Holders(h', counted + {p}, b) == Holders(h, counted, b);
    }
  }

  lemma HoldersUp(h: Heap, h': Heap, counted: set<Ptr>, p: Ptr, x: Ptr)
    requires p !in counted && p in h'
    requires forall q :: q in counted ==> q in h && q in h' && h'[q].args == h[q].args
    ensures |Holders(h', counted + {p}, x)| == |Holders(h, counted, x)| + if h'[p].args == x then 1 else 0
  {
    if h'[p].args == x {
      assert Holders(h', counted + {p}, x) == Holders(h, counted, x) + {p};
    } else {
      assert Holders(h', counted + {p}, x) == Holders(h, counted, x);
    }
  }

  /** One more holder of `b`. */
  lemma CountsUp(h: Heap, h': Heap, counted: set<Ptr>, blocks: map<Ptr, Block>, p: Ptr, b: Ptr)
    requires Counts(h, counted, blocks) && p !in counted && b in blocks
    requires p in h' && h'[p].args == b
    requires forall q :: q in counted && q in h ==> q in h' && h'[q].args == h[q].args
    ensures Counts(h', counted + {p}, blocks[b := blocks[b].(refCount := blocks[b].refCount + 1)])
  {
    hide Holders;
    var blocks' := blocks[b := blocks[b].(refCount := blocks[b].refCount + 1)];
    forall x | x in blocks' ensures blocks'[x].refCount == |Holders(h', counted + {p}, x)| >= 1 {
      HoldersUp(h, h', counted, p, x);
    }
  }

  lemma HoldersDown(h: Heap, counted: set<Ptr>, p: Ptr, b: Ptr)
    requires p in counted && p in h
    ensures h[p].args != b ==> Holders(h, counted - {p}, b) == Holders(h, counted, b)
    ensures h[p].args == b ==> |Holders(h, counted - {p}, b)| == |Holders(h, counted, b)| - 1
    ensures h[p].args == b && |Holders(h, counted, b)| <= 1 ==> forall q :: q in counted - {p} && q in h ==> h[q].args != b
  {
    var all, fewer := Holders(h, counted, b), Holders(h, counted - {p}, b);
    if h[p].args != b {
      assert fewer == all;
    } else {
      assert p in all;
      assert fewer == all - {p};
      assert |fewer| == |all| - 1;
      assert |all| <= 1 ==> |fewer| == 0;
      assert forall q :: q in counted - {p} && q in h && h[q].args == b ==> q in fewer;
    }
  }

  /** The blocks once a holder of `b` is gone: the last one takes the block along. */
  ghost function Released(blocks: map<Ptr, Block>, b: Ptr): (r: map<Ptr, Block>)
    requires b in blocks
  {
    var n := blocks[b].refCount - 1;
    if n <= 0 then blocks - {b} else blocks[b := blocks[b].(refCount := n)]
  }

  /** One holder less. */
  lemma CountsDown(h: Heap, counted: set<Ptr>, blocks: map<Ptr, Block>, p: Ptr)
    requires Counts(h, counted, blocks) && p in counted
    ensures Counts(h, counted - {p}, if h[p].args == 0 then blocks else Released(blocks, h[p].args))
    ensures h[p].args != 0 ==> (h[p].args !in Released(blocks, h[p].args) <==> Holders(h, counted, h[p].args) == {p})
  {
    var b := h[p].args;
    HoldersDown(h, counted, p, b);
    if b != 0 {
      assert p in Holders(h, counted, b);
      if blocks[b].refCount == 1 {
        assert Holders(h, counted, b) - {p} == Holders(h, counted - {p}, b) == {};
      }
    }
    var blocks' := if b == 0 then blocks else Released(blocks, b);
    forall x | x in blocks' ensures blocks'[x].refCount == |Holders(h, counted - {p}, x)| >= 1 {
      HoldersDown(h, counted, p, x);
    }
  }

  /** Marking a block does not change the counts. */
  lemma CountsMark(h: Heap, counted: set<Ptr>, blocks: map<Ptr, Block>, b: Ptr, changed: bool)
    requires Counts(h, counted, blocks) && b in blocks
    ensures Counts(h, counted, blocks[b := blocks[b].(changed := changed)])
  {
  }
}
