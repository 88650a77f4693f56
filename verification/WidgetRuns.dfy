/**
 * Whole runs of the operations on widget values: however trees are built, copied, merged, replaced and
 * freed, the widget values in use are those of the trees at hand, and an argument block lives
 * exactly as long as one of them points at it.
 */
module WidgetRuns {
  import opened Options
  import opened WidgetSpec
  import opened WidgetHeap
  import opened Widgets
  import opened WidgetModify
  import opened WidgetModifySpec

  /** The trees at hand: no two have a cell in common, and there is no cell in use besides theirs. */
  ghost predicate Forest(h: Heap, live: set<Ptr>, roots: seq<Ptr>, shapes: seq<Shape>) {
    && |roots| == |shapes|
    && (forall i :: 0 <= i < |roots| ==> Rep(h, roots[i], shapes[i]) && Distinct(shapes[i]) && Ptrs(shapes[i]) <= live)
    && (forall i, j :: 0 <= i < j < |roots| ==> Ptrs(shapes[i]) !! Ptrs(shapes[j]))
    && (forall p :: p in live ==> exists i :: 0 <= i < |roots| && p in Ptrs(shapes[i]))
  }

  /** One tree is taken away and another, of new cells or of its own, put in its place. */
  lemma Planted(h: Heap, h': Heap, live: set<Ptr>, live': set<Ptr>, roots: seq<Ptr>, shapes: seq<Shape>, i: nat, r: Ptr, s: Shape)
    requires i < |roots| && Forest(h, live, roots, shapes)
    requires Rep(h', r, s) && Distinct(s) && Ptrs(s) !! (live - Ptrs(shapes[i]))
    requires live' == live - Ptrs(shapes[i]) + Ptrs(s)
    requires forall k :: 0 <= k < |roots| && k != i ==> Rep(h', roots[k], shapes[k])
    ensures Forest(h', live', roots[i := r], shapes[i := s])
  {
    hide Rep, Ptrs, Distinct;
    var shapes' := shapes[i := s];
    forall p | p in live' ensures exists k :: 0 <= k < |roots| && p in Ptrs(shapes'[k]) {
      if p in Ptrs(s) {
        assert p in Ptrs(shapes'[i]);
      } else {
        var k :| 0 <= k < |roots| && p in Ptrs(shapes[k]);
        assert p in Ptrs(shapes'[k]);
      }
    }
  }

  /** The trees apart from the one whose cells may have changed. */
  lemma OthersKept(h: Heap, h': Heap, live: set<Ptr>, roots: seq<Ptr>, shapes: seq<Shape>, gone: set<Ptr>)
    requires Forest(h, live, roots, shapes) && Kept(h, h', live - gone)
    ensures forall k :: 0 <= k < |roots| && Ptrs(shapes[k]) !! gone ==> Rep(h', roots[k], shapes[k])
  {
    hide Rep, Ptrs, Distinct, ValueOf;
    forall k | 0 <= k < |roots| && Ptrs(shapes[k]) !! gone ensures Rep(h', roots[k], shapes[k]) {
      TreeKept(h, h', roots[k], shapes[k], live - gone);
    }
  }

  lemma NoTrees(h: Heap)
    ensures Forest(h, {}, [], [])
  {
  }

  /** An empty tree more. */
  lemma EmptyPlanted(h: Heap, live: set<Ptr>, roots: seq<Ptr>, shapes: seq<Shape>)
    requires Forest(h, live, roots, shapes)
    ensures Forest(h, live, roots + [0], shapes + [Leaf])
  {
    hide Rep, Ptrs, Distinct;
    RepNothing(h);
    var shapes' := shapes + [Leaf];
    forall p | p in live ensures exists k :: 0 <= k < |shapes'| && p in Ptrs(shapes'[k]) {
      var k :| 0 <= k < |roots| && p in Ptrs(shapes[k]);
      assert p in Ptrs(shapes'[k]);
    }
  }

  /** What every operation keeps. */
  ghost predicate Sound(lib: Lwlib, roots: seq<Ptr>, shapes: seq<Shape>)
    reads lib
  {
    lib.Valid() && Forest(lib.nodes, lib.live, roots, shapes)
  }

  method CopyOne(lib: Lwlib, roots: seq<Ptr>, ghost shapes: seq<Shape>, i: nat, change: Change)
    returns (roots': seq<Ptr>, ghost shapes': seq<Shape>)
    requires Sound(lib, roots, shapes) && i < |roots|
    modifies lib
    ensures Sound(lib, roots', shapes')
  {
    hide Rep, Ptrs, Distinct, ValueOf, Memory, Counts, BlocksKept, Copy, Kept, Forest;
    ghost var h, live := lib.nodes, lib.live;
    TreeAt(h, live, roots, shapes, i);
    var copy;
    ghost var c;
    copy, c := lib.CopyTree(roots[i], change, shapes[i]);
    EmptyPlanted(h, live, roots, shapes);
    roots', shapes' := roots + [copy], shapes + [c];
    KeptSame(h, lib.nodes, live);
    OthersKept(h, lib.nodes, live, roots + [0], shapes + [Leaf], {});
    RepNothing(h);
    assert live - Ptrs(Leaf) == live;
    Planted(h, lib.nodes, live, lib.live, roots + [0], shapes + [Leaf], |roots|, copy, c);
    assert (roots + [0])[|roots| := copy] == roots' && (shapes + [Leaf])[|shapes| := c] == shapes';
  }

  lemma KeptSame(h: Heap, h': Heap, ps: set<Ptr>)
    requires Kept(h, h', ps)
    ensures Kept(h, h', ps - {})
  {
    assert ps - {} == ps;
  }

  lemma TreeAt(h: Heap, live: set<Ptr>, roots: seq<Ptr>, shapes: seq<Shape>, i: nat)
    requires Forest(h, live, roots, shapes) && i < |roots|
    ensures |roots| == |shapes| && Rep(h, roots[i], shapes[i]) && Distinct(shapes[i]) && Ptrs(shapes[i]) <= live
    ensures forall k :: 0 <= k < |roots| && k != i ==> Ptrs(shapes[k]) !! Ptrs(shapes[i])
  {
    hide Rep, Ptrs, Distinct;
  }

  method FreeOne(lib: Lwlib, roots: seq<Ptr>, ghost shapes: seq<Shape>, i: nat)
    returns (roots': seq<Ptr>, ghost shapes': seq<Shape>)
    requires Sound(lib, roots, shapes) && i < |roots|
    modifies lib
    ensures Sound(lib, roots', shapes')
  {
    hide Rep, Ptrs, Distinct, ValueOf, Memory, Counts, BlocksKept, Kept, Forest;
    ghost var h, live := lib.nodes, lib.live;
    TreeAt(h, live, roots, shapes, i);
    lib.FreeTree(roots[i], shapes[i]);
    OthersKept(h, lib.nodes, live, roots, shapes, Ptrs(shapes[i]));
    RepNothing(lib.nodes);
    Planted(h, lib.nodes, live, lib.live, roots, shapes, i, 0, Leaf);
    roots', shapes' := roots[i := 0], shapes[i := Leaf];
  }

  method MergeTwo(lib: Lwlib, roots: seq<Ptr>, ghost shapes: seq<Shape>, i: nat, j: nat, level: int)
    returns (roots': seq<Ptr>, ghost shapes': seq<Shape>)
    requires Sound(lib, roots, shapes) && i < |roots| && j < |roots| && i != j
    modifies lib
    ensures Sound(lib, roots', shapes')
  {
    hide Rep, Ptrs, Distinct, ValueOf, Memory, Counts, BlocksKept, Kept, KeptButArgs, Merge, Filled, Forest;
    ghost var h, live := lib.nodes, lib.live;
    TreeAt(h, live, roots, shapes, i);
    TreeAt(h, live, roots, shapes, j);
    ghost var flagged := set b | b in lib.blocks && lib.blocks[b].changed;
    var m;
    ghost var s;
    m, s := lib.MergeTree(roots[i], roots[j], level, shapes[i], shapes[j], flagged);
    ghost var gone := Ptrs(shapes[i]) + Ptrs(shapes[j]);
    assert live - Ptrs(shapes[i]) - Ptrs(shapes[j]) == live - gone;
    OthersKept(h, lib.nodes, live, roots, shapes, gone);
    Planted(h, lib.nodes, live, lib.live, roots, shapes, i, m, s);
    roots', shapes' := roots[i := m], shapes[i := s];
  }

  method ModifyOneByOne(lib: Lwlib, roots: seq<Ptr>, ghost shapes: seq<Shape>, i: nat, j: nat, deep: bool)
    returns (roots': seq<Ptr>, ghost shapes': seq<Shape>)
    requires Sound(lib, roots, shapes) && i < |roots| && j < |roots| && i != j
    modifies lib
    ensures Sound(lib, roots', shapes')
  {
    hide Rep, Ptrs, Distinct, ValueOf, Memory, Counts, Kept, KeptButArgs, ModifyAll, FilledAll, Forest, ListChanged;
    hide Cleared, TopArgs, Marked;
    ghost var h, live := lib.nodes, lib.live;
    TreeAt(h, live, roots, shapes, i);
    TreeAt(h, live, roots, shapes, j);
    var head;
    ghost var s;
    head, s := ModifyAllWidgets(lib, roots[i], roots[j], deep, shapes[i], shapes[j]);
    ListGives(h, lib.nodes, live, lib.live, shapes[i], s, shapes[j]);
    OthersKept(h, lib.nodes, live, roots, shapes, Ptrs(shapes[i]) + Ptrs(shapes[j]));
    Planted(h, lib.nodes, live, lib.live, roots, shapes, i, head, s);
    roots', shapes' := roots[i := head], shapes[i := s];
  }

  lemma ListGives(h: Heap, h': Heap, live: set<Ptr>, live': set<Ptr>, s: Shape, s': Shape, v: Shape)
    requires ListChanged(h, h', live, live', s, s', v)
    ensures Distinct(s') && Ptrs(s') !! (live - Ptrs(s)) && live' == live - Ptrs(s) + Ptrs(s')
    ensures Kept(h, h', live - (Ptrs(s) + Ptrs(v)))
  {
    assert live - (Ptrs(s) + Ptrs(v)) == live - Ptrs(s) - Ptrs(v);
  }

  method ReplaceOne(lib: Lwlib, roots: seq<Ptr>, ghost shapes: seq<Shape>, i: nat, j: nat)
    returns (roots': seq<Ptr>, ghost shapes': seq<Shape>)
    requires Sound(lib, roots, shapes) && i < |roots| && j < |roots| && i != j
    modifies lib
    ensures Sound(lib, roots', shapes')
  {
    hide Rep, Ptrs, Distinct, ValueOf, Memory, Counts, BlocksKept, Kept, Copy, Forest;
    if roots[i] == 0 || roots[j] == 0 {
      return roots, shapes;  // `replace_widget_value_tree` aborts
    }
    ghost var h, live := lib.nodes, lib.live;
    TreeAt(h, live, roots, shapes, i);
    TreeAt(h, live, roots, shapes, j);
    ghost var s := lib.ReplaceTree(roots[i], roots[j], shapes[i], shapes[j]);
    OthersKept(h, lib.nodes, live, roots, shapes, Ptrs(shapes[i]));
    Planted(h, lib.nodes, live, lib.live, roots, shapes, i, roots[i], s);
    roots', shapes' := roots[i := roots[i]], shapes[i := s];
  }

  /** Only argument slots have changed. */
  lemma ArgsChanged(h: Heap, h': Heap, live: set<Ptr>, roots: seq<Ptr>, shapes: seq<Shape>)
    requires Forest(h, live, roots, shapes) && KeptButArgs(h, h', live)
    ensures Forest(h', live, roots, shapes)
  {
    hide Rep, Ptrs, Distinct;
    forall i | 0 <= i < |roots| ensures Rep(h', roots[i], shapes[i]) {
      RepFrame(h, h', roots[i], shapes[i]);
    }
  }

  /** An argument more for any cell in use. */
  method AddArgTo(lib: Lwlib, roots: seq<Ptr>, ghost shapes: seq<Shape>, wv: Ptr)
    requires Sound(lib, roots, shapes) && wv in lib.live
    modifies lib
    ensures Sound(lib, roots, shapes)
  {
    hide Memory, Counts, Forest;
    ghost var h := lib.nodes;
    lib.AddArg(wv);
    ArgsChanged(h, lib.nodes, lib.live, roots, shapes);
  }

  lemma InUse(lib: Lwlib, p: Ptr)
    requires lib.Valid() && p in lib.nodes && p !in lib.freeList
    ensures p in lib.live
  {
  }

  /** The block of one cell in use for another, unless that would leave a slot behind that is not counted. */
  method ShareArgs(lib: Lwlib, roots: seq<Ptr>, ghost shapes: seq<Shape>, val: Ptr, copy: Ptr)
    requires Sound(lib, roots, shapes)
    modifies lib
    ensures Sound(lib, roots, shapes)
  {
    hide Memory, Counts, Forest;
    if !(val in lib.nodes && val !in lib.freeList && copy in lib.nodes && copy !in lib.freeList) || lib.Stale(val, copy) {
      return;
    }
    InUse(lib, val);
    InUse(lib, copy);
    ghost var h := lib.nodes;
    lib.CopyArgs(val, copy);
    ArgsChanged(h, lib.nodes, lib.live, roots, shapes);
  }

  /**
   * Three entries: the first gets an argument and shares its block with the second, the second then takes over that the
   * third has none, and the first is freed.  The second is left in use, pointing at a block that is gone.
   */
  method FreedUnderneath() returns (lib: Lwlib, y: Ptr)
    ensures fresh(lib) && y in lib.live && y in lib.nodes
    ensures lib.nodes[y].args != 0 && lib.nodes[y].args !in lib.blocks
  {
    hide Memory, Counts;
    lib := new Lwlib();
    var item := Item(0, None, Looks(None, None, 0, false, false), 0);
    var x := lib.NewCopy(item, NoChange);
    y := lib.NewCopy(item, NoChange);
    var z := lib.NewCopy(item, NoChange);
    lib.AddArg(x);
    var b := lib.nodes[x].args;
    lib.CopyArgs(x, y);
    TwoHolders(lib.nodes, lib.live, lib.blocks, x, y);
    lib.CopyArgs(z, y);
    OneHolder(lib.nodes, lib.counted, lib.blocks, x);
    lib.FreeArgs(x);
  }

  lemma TwoHolders(h: Heap, live: set<Ptr>, blocks: map<Ptr, Block>, x: Ptr, y: Ptr)
    requires Counts(h, live, blocks) && x in live && y in live && x != y
    requires x in h && y in h && h[x].args == h[y].args != 0
    ensures h[x].args in blocks && blocks[h[x].args].refCount > 1
  {
    var holders := Holders(h, live, h[x].args);
    assert {x, y} <= holders;
    assert |holders - {x, y}| == |holders| - |{x, y}|;
  }

  lemma OneHolder(h: Heap, counted: set<Ptr>, blocks: map<Ptr, Block>, x: Ptr)
    requires Counts(h, counted, blocks) && x in counted && x in h && h[x].args != 0
    requires forall p :: p in counted && p in h && p != x ==> h[p].args != h[x].args
    ensures h[x].args in blocks && blocks[h[x].args].refCount == 1
  {
    assert Holders(h, counted, h[x].args) == {x};
  }

  /** A new entry with one tree for its contents and another for its next siblings. */
  method Build(lib: Lwlib, roots: seq<Ptr>, ghost shapes: seq<Shape>, i: nat, j: nat, item: Item)
    returns (roots': seq<Ptr>, ghost shapes': seq<Shape>)
    requires Sound(lib, roots, shapes) && i < |roots| && j < |roots| && i != j
    modifies lib
    ensures Sound(lib, roots', shapes')
  {
    hide Rep, Ptrs, Distinct, ValueOf, Memory, Counts, Forest;
    ghost var h, live := lib.nodes, lib.live;
    TreeAt(h, live, roots, shapes, i);
    TreeAt(h, live, roots, shapes, j);
    ghost var c, n := shapes[i], shapes[j];
    var wv := lib.NewCopy(item, NoChange);
    lib.Store(wv, lib.nodes[wv].(contents := roots[i], next := roots[j]));
    ghost var h' := lib.nodes;
    KeptSame(h, h', live);
    OthersKept(h, h', live, roots, shapes, {});
    RepJoin(h', wv, c, n);
    BranchDistinct(wv, c, n);
    RepNothing(h');
    ghost var live' := live - Ptrs(n);
    Planted(h, h', live, live', roots, shapes, j, 0, Leaf);
    Planted(h', h', live', lib.live, roots[j := 0], shapes[j := Leaf], i, wv, Branch(wv, c, n));
    roots', shapes' := roots[j := 0][i := wv], shapes[j := Leaf][i := Branch(wv, c, n)];
  }

  /** Any one operation, on any of the trees and any of their cells. */
  method Step(lib: Lwlib, roots: seq<Ptr>, ghost shapes: seq<Shape>)
    returns (roots': seq<Ptr>, ghost shapes': seq<Shape>)
    requires Sound(lib, roots, shapes)
    modifies lib
    ensures Sound(lib, roots', shapes')
  {
    hide Forest, Memory, Counts;
    var i: nat, j: nat, level: int, deep: bool, item: Item, change: Change, p: Ptr, q: Ptr :=
      *, *, *, *, *, *, *, *;
    roots', shapes' := roots, shapes;
    if
    case true =>
      roots', shapes' := roots + [0], shapes + [Leaf];
      EmptyPlanted(lib.nodes, lib.live, roots, shapes);
    case i < |roots| =>
      roots', shapes' := CopyOne(lib, roots, shapes, i, change);
    case i < |roots| =>
      roots', shapes' := FreeOne(lib, roots, shapes, i);
    case i < |roots| && j < |roots| && i != j =>
      roots', shapes' := MergeTwo(lib, roots, shapes, i, j, level);
    case i < |roots| && j < |roots| && i != j =>
      roots', shapes' := ModifyOneByOne(lib, roots, shapes, i, j, deep);
    case i < |roots| && j < |roots| && i != j =>
      roots', shapes' := ReplaceOne(lib, roots, shapes, i, j);
    case p in lib.nodes && p !in lib.freeList =>
      InUse(lib, p);
      AddArgTo(lib, roots, shapes, p);
    case true =>
      ShareArgs(lib, roots, shapes, p, q);
    case i < |roots| && j < |roots| && i != j =>
      roots', shapes' := Build(lib, roots, shapes, i, j, item);
  }

  /** Any run from the start. */
  method AnyRun(n: nat) returns (lib: Lwlib, roots: seq<Ptr>, ghost shapes: seq<Shape>)
    ensures fresh(lib) && Sound(lib, roots, shapes)
  {
    hide Memory, Counts, Forest;
    lib := new Lwlib();
    roots, shapes := [], [];
    NoTrees(lib.nodes);
    for k := 0 to n
      invariant fresh(lib) && Sound(lib, roots, shapes)
    {
      roots, shapes := Step(lib, roots, shapes);
    }
  }

  /** The argument blocks there are, and their counts, follow from the widget values in use. */
  lemma BlocksDetermined(h: Heap, h': Heap, live: set<Ptr>, blocks: map<Ptr, Block>, blocks': map<Ptr, Block>)
    requires Counts(h, live, blocks) && Counts(h', live, blocks')
    requires Kept(h, h', live) && BlocksKept(blocks, blocks')
    ensures blocks' == blocks
  {
    forall b | b in blocks ensures b in blocks' && blocks'[b] == blocks[b] {
      assert Holders(h, live, b) == Holders(h', live, b);
      assert Holders(h, live, b) != {};
      var p :| p in Holders(h, live, b);
      assert h'[p].args == b;
    }
  }

  /** Freeing a copy undoes the copying: shared argument blocks and their counts are back to what they were. */
  method CopyThenFree(lib: Lwlib, val: Ptr, change: Change, ghost s: Shape)
    requires lib.Valid() && Rep(lib.nodes, val, s) && Ptrs(s) <= lib.live
    modifies lib
    ensures lib.Valid() && lib.live == old(lib.live) && lib.blocks == old(lib.blocks)
    ensures Kept(old(lib.nodes), lib.nodes, old(lib.live))
  {
    hide Rep, Ptrs, Distinct, ValueOf, Memory, Counts, BlocksKept, Copy;
    ghost var h, live, b := lib.nodes, lib.live, lib.blocks;
    var copy;
    ghost var c;
    copy, c := lib.CopyTree(val, change, s);
    ghost var h1, b1 := lib.nodes, lib.blocks;
    lib.FreeTree(copy, c);
    BlocksTrans(b, b1, lib.blocks);
    assert live + Ptrs(c) - Ptrs(c) == live;
    BlocksDetermined(h, lib.nodes, live, b, lib.blocks);
  }
}
