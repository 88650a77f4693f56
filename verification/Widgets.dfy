/**
 * The operations of lwlib/lwlib.c on widget values: allocation with a free list, shared argument
 * blocks with reference counts, and copying, freeing, replacing and merging of trees in place.
 */
module Widgets {
  import opened Options
  import opened WidgetSpec
  import opened WidgetHeap

  /** What `memset` leaves of a cell. */
  const ZERO: Cell := Cell(Item(0, None, Looks(None, None, 0, false, false), 0), 0, NoChange, None, 0, 0)

  /** Blocks may have been freed, but none was made and none marked. */
  ghost predicate BlocksKept(blocks: map<Ptr, Block>, blocks': map<Ptr, Block>) {
    forall b :: b in blocks' ==> b in blocks && blocks'[b].changed == blocks[b].changed
  }

  /** The memory of the library, and its static free list. */
  class Lwlib {
    var nodes: Heap              // every widget_value there is, free ones included
    var freeList: seq<Ptr>       // the free ones, as `free_list` links them
    var blocks: map<Ptr, Block>  // every widget_args there is
    var brk: Ptr                 // addresses from here on are unused
    ghost var live: set<Ptr>     // the widget_values in use
    ghost var counted: set<Ptr>  // those whose argument slot is counted: all in use, between operations

    constructor ()
      ensures Valid() && live == {}
    {
      nodes, freeList, blocks, brk := map[], [], map[], 1;
      live, counted := {}, {};
    }

    ghost predicate Inv()
      reads this
    {
      && Memory(nodes, freeList, blocks, brk, live)
      && counted <= live
      && Counts(nodes, counted, blocks)
    }

    /**
     * Between operations: a widget value is either in use or on the free list, once, and not both;
     * an argument block is there as long as widget values in use point at it, and counts them.
     */
    ghost predicate Valid()
      reads this
    {
      Inv() && counted == live
    }

    /** `malloc_widget_value`. */
    method MallocWidgetValue() returns (wv: Ptr)
      requires Inv()
      modifies this
      ensures Inv() && wv != 0 && wv !in old(live)
      ensures live == old(live) + {wv} && counted == old(counted) + {wv}
      ensures wv in nodes && nodes[wv] == ZERO
      ensures Kept(old(nodes), nodes, old(live)) && blocks == old(blocks)
      ensures if old(freeList) != [] then old(freeList) == [wv] + freeList && brk == old(brk)
              else wv == old(brk) && brk == wv + 1 && freeList == []
    {
      hide Counts;
      if freeList != [] {
        wv := freeList[0];
        freeList := freeList[1..];
      } else {
        wv := brk;
        brk := brk + 1;
      }
      nodes := nodes[wv := ZERO];
      CountsNew(old(nodes), nodes, counted, blocks, wv);
      live := live + {wv};
      counted := counted + {wv};
    }

    /** `free_widget_value`: it must not be on the free list already. */
    method FreeWidgetValue(wv: Ptr)
      requires Inv() && wv in live && wv !in counted
      modifies this
      ensures Inv() && live == old(live) - {wv} && counted == old(counted)
      ensures nodes == old(nodes) && blocks == old(blocks)
    {
      freeList := [wv] + freeList;
      live := live - {wv};
    }

    /** `free_widget_value_args`: afterwards the slot of `wv` is not counted, whatever it holds. */
    method FreeArgs(wv: Ptr)
      requires Inv() && wv in counted
      modifies this
      ensures Inv() && live == old(live) && counted == old(counted) - {wv}
      ensures wv in nodes && nodes == old(nodes)[wv := old(nodes)[wv].(args := nodes[wv].args)]
      ensures BlocksKept(old(blocks), blocks)
      ensures var b := old(nodes[wv].args);
              && nodes[wv].args == (if b in blocks then b else 0)
              && (b != 0 ==> (b !in blocks <==> Holders(old(nodes), old(counted), b) == {wv}))
              && (b != 0 ==> b in old(blocks) && (b !in blocks <==> old(blocks)[b].refCount == 1))
    {
      hide Counts, Holders, Memory;
      BlockOf(nodes, counted, blocks, wv);
      var b := nodes[wv].args;
      CountsDown(nodes, counted, blocks, wv);
      if b != 0 {
        var n := blocks[b].refCount - 1;
        if n <= 0 {
          blocks := blocks - {b};
          nodes := nodes[wv := nodes[wv].(args := 0)];
          CountsFrame(old(nodes), nodes, counted - {wv}, blocks);
        } else {
          blocks := blocks[b := blocks[b].(refCount := n)];
        }
      }
      MemorySame(old(nodes), nodes, freeList, old(blocks), blocks, brk, live);
      counted := counted - {wv};
    }

    /** `lw_copy_widget_value_args` would take no block for a slot whose block others hold as well. */
    predicate Stale(val: Ptr, copy: Ptr)
      reads this
    {
      && val in nodes && copy in nodes && nodes[val].args == 0
      && nodes[copy].args != 0 && nodes[copy].args in blocks && blocks[nodes[copy].args].refCount > 1
    }

    /**
     * `lw_copy_widget_value_args`.  Copying no block onto a slot that has one empties the slot only if it was the
     * last to hold that block; otherwise the slot is left pointing at a block that does not count it.
     */
    method CopyArgs(val: Ptr, copy: Ptr)
      requires Inv() && val in counted && copy in counted
      modifies this
      ensures Inv() && live == old(live)
      ensures var a, b := old(nodes)[val].args, old(nodes)[copy].args;
              && counted == old(counted) - (if old(Stale(val, copy)) then {copy} else {})
              && nodes == old(nodes)[copy := old(nodes)[copy].(args := if old(Stale(val, copy)) then b else a)]
      ensures old(Valid()) ==> (Valid() <==> !old(Stale(val, copy)))
      ensures BlocksKept(old(blocks), blocks)
      ensures old(nodes[copy].args) == 0 ==> blocks.Keys == old(blocks.Keys)
    {
      hide Counts, Holders, Memory;
      BlockOf(nodes, counted, blocks, val);
      BlockOf(nodes, counted, blocks, copy);
      if val == copy || nodes[val].args == nodes[copy].args {
        return;
      }
      var b := nodes[val].args;
      if nodes[copy].args != 0 {
        FreeArgs(copy);
      } else {
        CountsDown(nodes, counted, blocks, copy);
        counted := counted - {copy};
      }
      if b == 0 {
        if nodes[copy].args == 0 {
          CountsNew(nodes, nodes, counted, blocks, copy);
          counted := counted + {copy};
        }
        return;
      }
      BlockOf(nodes, counted, blocks, val);
      CountsUp(nodes, nodes[copy := nodes[copy].(args := b)], counted, blocks, copy, b);
      MemorySame(nodes, nodes[copy := nodes[copy].(args := b)], freeList, blocks,
                 blocks[b := blocks[b].(refCount := blocks[b].refCount + 1)], brk, live);
      nodes := nodes[copy := nodes[copy].(args := b)];
      blocks := blocks[b := blocks[b].(refCount := blocks[b].refCount + 1)];
      counted := counted + {copy};
    }

    /** `lw_add_widget_value_arg`, as far as counts and marks go: the first argument makes the block. */
    method AddArg(wv: Ptr)
      requires Valid() && wv in live
      modifies this
      ensures Valid() && live == old(live)
      ensures wv in nodes && nodes == old(nodes)[wv := old(nodes)[wv].(args := nodes[wv].args)]
      ensures nodes[wv].args != 0 && nodes[wv].args in blocks && blocks[nodes[wv].args].changed
    {
      hide Counts, Holders;
      BlockOf(nodes, counted, blocks, wv);
      if nodes[wv].args == 0 {
        NewHolder(nodes, counted, blocks, wv, brk);
        blocks := blocks[brk := Block(1, false)];
        nodes := nodes[wv := nodes[wv].(args := brk)];
        brk := brk + 1;
      }
      var b := nodes[wv].args;
      CountsMark(nodes, counted, blocks, b, true);
      blocks := blocks[b := blocks[b].(changed := true)];
    }

    /** Assigns slots of a widget value other than its argument slot. */
    method Store(wv: Ptr, c: Cell)
      requires Inv() && wv in nodes && c.args == nodes[wv].args
      modifies this
      ensures Inv() && live == old(live) && counted == old(counted) && blocks == old(blocks)
      ensures nodes == old(nodes)[wv := c]
    {
      hide Counts, Memory;
      nodes := nodes[wv := c];
      CountsFrame(old(nodes), nodes, counted, blocks);
      MemorySame(old(nodes), nodes, freeList, blocks, blocks, brk, live);
    }

    /** A new widget value with the data of an entry. */
    method NewCopy(item: Item, change: Change) returns (copy: Ptr)
      requires Inv()
      modifies this
      ensures Inv() && copy != 0 && copy !in old(live)
      ensures live == old(live) + {copy} && counted == old(counted) + {copy}
      ensures copy in nodes && nodes[copy] == Cell(item, 0, change, None, 0, 0)
      ensures Kept(old(nodes), nodes, old(live)) && blocks == old(blocks)
    {
      hide Counts, Memory;
      copy := MallocWidgetValue();
      Store(copy, Cell(item, 0, change, None, 0, 0));
    }

    /** The first half of a copy: the entry and its contents. */
    method CopyEntry(val: Ptr, change: Change, ghost s: Shape) returns (copy: Ptr, ghost cc: Shape)
      requires Inv() && val != 0 && Rep(nodes, val, s) && Ptrs(s) <= counted
      modifies this
      ensures Inv() && copy != 0 && copy !in old(live) && copy !in Ptrs(cc)
      ensures copy in nodes && Rep(nodes, nodes[copy].contents, cc) && Distinct(cc) && Ptrs(cc) !! old(live)
      ensures live == old(live) + ({copy} + Ptrs(cc)) && counted == old(counted) + ({copy} + Ptrs(cc))
      ensures Kept(old(nodes), nodes, old(live))
      ensures nodes[copy] == Cell(old(nodes[val].item), 0, change, None, nodes[copy].contents, 0)
      ensures ValueOf(nodes, cc) == Copy(ValueOf(old(nodes), s.contents), change)
      ensures BlocksKept(old(blocks), blocks)
      decreases s, 0
    {
      hide Counts, Memory, ValueOf, Rep, Copy, Ptrs, BlocksKept;
      ghost var h0, live0 := nodes, live;
      RepTop(nodes, val, s);
      var v := nodes[val];
      copy := NewCopy(v.item, change);
      TreeKept(h0, nodes, v.contents, s.contents, live0);
      var contents;
      contents, cc := CopyTree(v.contents, change, s.contents);
      ghost var h2 := nodes;
      Store(copy, nodes[copy].(contents := contents));
      TreeKept(h2, nodes, contents, cc, Ptrs(cc));
    }

    /** `copy_widget_value_tree`. */
    method CopyTree(val: Ptr, change: Change, ghost s: Shape) returns (copy: Ptr, ghost c: Shape)
      requires Inv() && Rep(nodes, val, s) && Ptrs(s) <= counted
      modifies this
      ensures Inv() && Rep(nodes, copy, c) && Distinct(c) && Ptrs(c) !! old(live)
      ensures live == old(live) + Ptrs(c) && counted == old(counted) + Ptrs(c)
      ensures Kept(old(nodes), nodes, old(live))
      ensures ValueOf(nodes, c) == Copy(ValueOf(old(nodes), s), change)
      ensures BlocksKept(old(blocks), blocks)
      decreases s, 1
    {
      hide Counts, Memory, ValueOf, Rep, Copy, Ptrs, BlocksKept;
      ghost var h0, live0 := nodes, live;
      RepTop(nodes, val, s);
      CopyStep(ValueOf(nodes, s), change);
      if val == 0 {
        RepNothing(nodes);
        BlocksSame(blocks);
        return 0, Leaf;
      }
      ghost var cc, cn;
      copy, cc := CopyEntry(val, change, s);
      ghost var h2, b2 := nodes, blocks;
      TreeKept(h0, h2, h0[val].next, s.next, live0);
      var next;
      next, cn := CopyTree(nodes[val].next, change, s.next);
      ghost var h3, b3 := nodes, blocks;
      Store(copy, nodes[copy].(next := next));
      CopyArgs(val, copy);
      BlocksTrans(old(blocks), b2, b3);
      BlocksTrans(old(blocks), b3, blocks);
      c := Branch(copy, cc, cn);
      TreeKept(h2, nodes, h2[copy].contents, cc, Ptrs(cc));
      TreeKept(h3, nodes, next, cn, Ptrs(cn));
      RepJoin(nodes, copy, cc, cn);
    }

    /** `free_widget_value_contents`: all that hangs on a widget value, its siblings included. */
    method FreeContents(wv: Ptr, ghost s: Shape)
      requires Inv() && wv != 0 && Rep(nodes, wv, s) && Distinct(s) && Ptrs(s) <= counted
      modifies this
      ensures Inv() && wv in live
      ensures live == old(live) - (Ptrs(s) - {wv}) && counted == old(counted) - Ptrs(s)
      ensures Kept(old(nodes), nodes, old(live) - Ptrs(s))
      ensures BlocksKept(old(blocks), blocks)
      decreases s, 0
    {
      hide Counts, Memory, ValueOf, Rep, Ptrs, BlocksKept;
      ghost var h0, live0, b0 := nodes, live, blocks;
      RepTop(nodes, wv, s);
      BlocksSame(blocks);
      if nodes[wv].contents != 0 {
        FreeTree(nodes[wv].contents, s.contents);
      } else {
        RepTop(nodes, 0, s.contents);
      }
      ghost var h1, b1 := nodes, blocks;
      FreeArgs(wv);
      BlocksTrans(b0, b1, blocks);
      ghost var b2 := blocks;
      TreeKept(h0, nodes, h0[wv].next, s.next, live0 - ({wv} + Ptrs(s.contents)));
      if nodes[wv].next != 0 {
        FreeTree(nodes[wv].next, s.next);
        BlocksTrans(b0, b2, blocks);
      } else {
        RepTop(nodes, 0, s.next);
      }
    }

    /** `free_widget_value_tree`. */
    method FreeTree(wv: Ptr, ghost s: Shape)
      requires Inv() && Rep(nodes, wv, s) && Distinct(s) && Ptrs(s) <= counted
      modifies this
      ensures Inv()
      ensures live == old(live) - Ptrs(s) && counted == old(counted) - Ptrs(s)
      ensures Kept(old(nodes), nodes, old(live) - Ptrs(s))
      ensures BlocksKept(old(blocks), blocks)
      decreases s, 1
    {
      hide Counts, Memory, ValueOf, Rep, Ptrs, BlocksKept;
      RepTop(nodes, wv, s);
      BlocksSame(blocks);
      if wv == 0 {
        return;
      }
      FreeContents(wv, s);
      FreeWidgetValue(wv);
    }

    /** `replace_widget_value_tree`: the tree at `node` becomes a copy of the other one, at the same address. */
    method ReplaceTree(node: Ptr, newtree: Ptr, ghost s: Shape, ghost t: Shape) returns (ghost r: Shape)
      requires Valid() && node != 0 && newtree != 0
      requires Rep(nodes, node, s) && Distinct(s) && Ptrs(s) <= live
      requires Rep(nodes, newtree, t) && Ptrs(t) <= live
      modifies this
      ensures Valid() && Rep(nodes, node, r) && Distinct(r)
      ensures Ptrs(r) !! (old(live) - Ptrs(s)) && live == old(live) - Ptrs(s) + Ptrs(r)
      ensures Kept(old(nodes), nodes, old(live) - Ptrs(s))
      ensures ValueOf(nodes, r) == Copy(ValueOf(old(nodes), t), StructuralChange)
      ensures BlocksKept(old(blocks), blocks)
    {
      hide Counts, Memory, ValueOf, Rep, Ptrs, BlocksKept;
      ghost var h0, live0 := nodes, live;
      RepTop(nodes, newtree, t);
      RepTop(nodes, node, s);
      CopyStep(ValueOf(nodes, t), StructuralChange);
      ghost var c;
      var copy;
      copy, c := CopyTree(newtree, StructuralChange, t);
      ghost var h1, b1 := nodes, blocks;
      RepTop(h1, copy, c);
      TreeKept(h0, h1, node, s, live0);
      FreeContents(node, s);
      BlocksTrans(old(blocks), b1, blocks);
      ghost var h2 := nodes;
      MemoryHas(nodes, freeList, blocks, brk, live, node);
      MoveCount(nodes, counted, blocks, node, copy);
      nodes := nodes[node := nodes[copy]];
      counted := counted - {copy} + {node};
      MemorySame(h2, nodes, freeList, blocks, blocks, brk, live);
      FreeWidgetValue(copy);
      r := Branch(node, c.contents, c.next);
      TreeKept(h1, nodes, h1[copy].contents, c.contents, Ptrs(c.contents));
      TreeKept(h1, nodes, h1[copy].next, c.next, Ptrs(c.next));
      RepJoin(nodes, node, c.contents, c.next);
    }

    /** `merge_widget_value_args`: afterwards both slots hold the same block. */
    method MergeArgs(val1: Ptr, val2: Ptr) returns (changed: bool)
      requires Inv() && val1 in counted && val2 in counted && val1 != val2
      modifies this
      ensures Inv() && live == old(live) && counted == old(counted) && BlocksKept(old(blocks), blocks)
      ensures var a, b := old(nodes[val1].args), old(nodes[val2].args);
              && changed == (a != b || (a != 0 && a in old(blocks) && old(blocks)[a].changed))
              && nodes == old(nodes)[val1 := old(nodes)[val1].(args := if b != 0 then b else a)]
                                    [val2 := old(nodes)[val2].(args := if b != 0 then b else a)]
    {
      hide Counts, Memory, BlocksKept;
      BlockOf(nodes, counted, blocks, val1);
      BlockOf(nodes, counted, blocks, val2);
      BlocksSame(blocks);
      changed := false;
      var a, b := nodes[val1].args, nodes[val2].args;
      if b != 0 && a == 0 {
        CopyArgs(val2, val1);
        changed := true;
      } else if b == 0 && a != 0 {
        CopyArgs(val1, val2);
        changed := true;
      } else if b != 0 && a != 0 && b != a {
        CopyArgs(val2, val1);
        changed := true;
      } else if b != 0 && b == a && blocks[b].changed {
        changed := true;
      }
    }

    /** The tests and assignments of `merge_widget_value` on the slots that can be seen. */
    static method MergeLooks(a: Looks, b: Looks, before: Change) returns (looks: Looks, change: Change)
      ensures looks == b && change == if a != b then before.Max(VisibleChange) else before
    {
      looks, change := a, before;
      if looks.value != b.value {
        change := change.Max(VisibleChange);
        looks := looks.(value := b.value);
      }
      if looks.key != b.key {
        change := change.Max(VisibleChange);
        looks := looks.(key := b.key);
      }
      if looks.accel != b.accel {
        change := change.Max(VisibleChange);
        looks := looks.(accel := b.accel);
      }
      if looks.enabled != b.enabled {
        change := change.Max(VisibleChange);
        looks := looks.(enabled := b.enabled);
      }
      if looks.selected != b.selected {
        change := change.Max(VisibleChange);
        looks := looks.(selected := b.selected);
      }
    }

    /** The tests and assignments of `merge_widget_value` on the slots of one entry. */
    static method MergeSlots(a: Item, b: Item) returns (item: Item, change: Change)
      ensures item == b && change == ItemChange(a, b)
    {
      hide ItemChange;
      ItemChangeIs(a, b);
      change := NoChange;
      item := a;
      if item.kind != b.kind {
        change := change.Max(StructuralChange);
        item := item.(kind := b.kind);
      }
      if item.name != b.name {
        change := change.Max(StructuralChange);
        item := item.(name := b.name);
      }
      var looks;
      looks, change := MergeLooks(item.looks, b.looks, change);
      item := item.(looks := looks);
      if item.callData != b.callData {
        change := change.Max(InvisibleChange);
        item := item.(callData := b.callData);
      }
    }

    /** Merging of two entries without what hangs on them. */
    method MergeEntry(val1: Ptr, val2: Ptr, ghost flagged: set<Ptr>) returns (change: Change)
      requires Inv() && val1 in counted && val2 in counted && val1 != val2
      requires Marks(blocks, flagged)
      modifies this
      ensures Inv() && live == old(live) && counted == old(counted) && BlocksKept(old(blocks), blocks)
      ensures val1 in old(nodes) && val2 in old(nodes)
      ensures var a, b := old(nodes)[val1], old(nodes)[val2]; var args := MergedArgs(a.args, b.args);
              && nodes == old(nodes)[val1 := a.(item := b.item, args := args)][val2 := b.(args := args)]
              && change == (var c := ItemChange(a.item, b.item); if ArgsChange(a.args, b.args, flagged) then c.Max(VisibleChange) else c)
    {
      hide Counts, Memory, BlocksKept, ItemChange;
      BlockOf(nodes, counted, blocks, val1);
      BlockOf(nodes, counted, blocks, val2);
      var item;
      item, change := MergeSlots(nodes[val1].item, nodes[val2].item);
      Store(val1, nodes[val1].(item := item));
      var argsChanged := MergeArgs(val1, val2);
      if argsChanged {
        change := change.Max(VisibleChange);
      }
    }

    /** Two trees that may be merged: their cells are in use, and none belongs to both. */
    ghost predicate Mergeable(val1: Ptr, val2: Ptr, s1: Shape, s2: Shape)
      reads this
    {
      && Rep(nodes, val1, s1) && Distinct(s1) && Ptrs(s1) <= live
      && Rep(nodes, val2, s2) && Distinct(s2) && Ptrs(s2) <= live
      && Ptrs(s1) !! Ptrs(s2)
    }

    /** The step of `merge_widget_value` into the contents of two entries. */
    method MergeContents(val1: Ptr, val2: Ptr, level: int, before: Change, ghost t1: Shape, ghost t2: Shape, ghost flagged: set<Ptr>)
      returns (change: Change, ghost sc: Shape)
      requires Valid() && Marks(blocks, flagged) && level > 0
      requires val1 in live && val2 in live && val1 in nodes && val2 in nodes && val1 != val2
      requires Mergeable(nodes[val1].contents, nodes[val2].contents, t1, t2)
      requires val1 !in Ptrs(t1) + Ptrs(t2) && val2 !in Ptrs(t1) + Ptrs(t2)
      modifies this
      ensures Valid() && BlocksKept(old(blocks), blocks)
      ensures val1 in nodes && nodes[val1] == old(nodes[val1]).(contents := nodes[val1].contents)
      ensures Rep(nodes, nodes[val1].contents, sc) && Distinct(sc)
      ensures val2 in nodes && Rep(nodes, nodes[val2].contents, t2)
      ensures Ptrs(sc) !! (old(live) - Ptrs(t1)) && live == old(live) - Ptrs(t1) + Ptrs(sc)
      ensures Kept(old(nodes), nodes, old(live) - {val1} - Ptrs(t1) - Ptrs(t2))
      ensures KeptButArgs(old(nodes), nodes, Ptrs(t2))
      ensures var a, b := ValueOf(old(nodes), t1), ValueOf(old(nodes), t2);
              && ValueOf(nodes, sc) == Merge(a, b, level - 1, flagged)
              && ValueOf(nodes, t2) == Filled(a, b, level - 1)
              && change == ContentsChange(before, a, Merge(a, b, level - 1, flagged))
      decreases t1, t2, 3
    {
      hide Counts, Memory, ValueOf, Rep, Ptrs, BlocksKept, Merge, Filled;
      change := before;
      RepTop(nodes, nodes[val1].contents, t1);
      var merged;
      merged, sc := MergeTree(nodes[val1].contents, nodes[val2].contents, level - 1, t1, t2, flagged);
      RepTop(nodes, merged, sc);
      if nodes[val1].contents != 0 && merged == 0 {
        change := change.Max(InvisibleChange);
      } else if merged != 0 && nodes[merged].change != NoChange {
        change := change.Max(InvisibleChange);
      }
      ghost var h := nodes;
      Store(val1, nodes[val1].(contents := merged));
      TreeKept(h, nodes, merged, sc, Ptrs(sc));
      TreeKept(h, nodes, h[val2].contents, t2, Ptrs(t2));
    }

    /** The step of `merge_widget_value` to the next siblings of two entries. */
    method MergeNext(val1: Ptr, val2: Ptr, level: int, before: Change, ghost t1: Shape, ghost t2: Shape, ghost flagged: set<Ptr>)
      returns (change: Change, ghost sn: Shape)
      requires Valid() && Marks(blocks, flagged)
      requires val1 in live && val2 in live && val1 in nodes && val2 in nodes && val1 != val2
      requires Mergeable(nodes[val1].next, nodes[val2].next, t1, t2)
      requires val1 !in Ptrs(t1) + Ptrs(t2) && val2 !in Ptrs(t1) + Ptrs(t2)
      modifies this
      ensures Valid() && BlocksKept(old(blocks), blocks)
      ensures val1 in nodes && nodes[val1] == old(nodes[val1]).(next := nodes[val1].next)
      ensures Rep(nodes, nodes[val1].next, sn) && Distinct(sn)
      ensures val2 in nodes && Rep(nodes, nodes[val2].next, t2)
      ensures Ptrs(sn) !! (old(live) - Ptrs(t1)) && live == old(live) - Ptrs(t1) + Ptrs(sn)
      ensures Kept(old(nodes), nodes, old(live) - {val1} - Ptrs(t1) - Ptrs(t2))
      ensures KeptButArgs(old(nodes), nodes, Ptrs(t2))
      ensures var a, b := ValueOf(old(nodes), t1), ValueOf(old(nodes), t2);
              && ValueOf(nodes, sn) == Merge(a, b, level, flagged)
              && ValueOf(nodes, t2) == Filled(a, b, level)
              && change == NextChange(before, a, Merge(a, b, level, flagged))
      decreases t1, t2, 3
    {
      hide Counts, Memory, ValueOf, Rep, Ptrs, BlocksKept, Merge, Filled;
      change := before;
      RepTop(nodes, nodes[val1].next, t1);
      var merged;
      merged, sn := MergeTree(nodes[val1].next, nodes[val2].next, level, t1, t2, flagged);
      RepTop(nodes, merged, sn);
      if nodes[val1].next != 0 && merged == 0 {
        change := change.Max(StructuralChange);
      } else if merged != 0 {
        if nodes[merged].change != NoChange {
          change := change.Max(nodes[merged].change);
        }
      }
      ghost var h := nodes;
      Store(val1, nodes[val1].(next := merged));
      TreeKept(h, nodes, merged, sn, Ptrs(sn));
      TreeKept(h, nodes, h[val2].next, t2, Ptrs(t2));
    }

    /** The body of `merge_widget_value` when there is an entry on both sides, up to their contents. */
    method MergeHead(val1: Ptr, val2: Ptr, level: int, ghost s1: Shape, ghost s2: Shape, ghost flagged: set<Ptr>)
      returns (change: Change, ghost sc: Shape)
      requires Valid() && Marks(blocks, flagged) && val1 != 0 && val2 != 0
      requires Mergeable(val1, val2, s1, s2)
      modifies this
      ensures Valid() && BlocksKept(old(blocks), blocks)
      ensures val1 in old(nodes) && val2 in old(nodes) && val1 in nodes && val2 in nodes
      ensures var a, b := old(nodes)[val1], old(nodes)[val2]; var args := MergedArgs(a.args, b.args);
              && nodes[val1] == a.(item := b.item, args := args, contents := nodes[val1].contents)
              && nodes[val2] == b.(args := args)
      ensures Rep(nodes, nodes[val1].contents, sc) && Distinct(sc)
      ensures Rep(nodes, nodes[val2].contents, s2.contents)
      ensures Ptrs(sc) !! (old(live) - Ptrs(s1.contents)) && live == old(live) - Ptrs(s1.contents) + Ptrs(sc)
      ensures Kept(old(nodes), nodes, old(live) - {val1, val2} - Ptrs(s1.contents) - Ptrs(s2.contents))
      ensures KeptButArgs(old(nodes), nodes, Ptrs(s2.contents))
      ensures var a, b := ValueOf(old(nodes), s1), ValueOf(old(nodes), s2);
              && a.Node? && b.Node?
              && ValueOf(nodes, sc) == (if level > 0 then Merge(a.contents, b.contents, level - 1, flagged) else a.contents)
              && ValueOf(nodes, s2.contents) == (if level > 0 then Filled(a.contents, b.contents, level - 1) else b.contents)
              && change == (if level > 0 then ContentsChange(OwnChange(a, b, flagged), a.contents, ValueOf(nodes, sc)) else OwnChange(a, b, flagged))
      decreases s1, s2, 0
    {
      hide Counts, Memory, ValueOf, Rep, Ptrs, BlocksKept, Merge, Filled, Marks;
      ghost var h0 := nodes;
      RepTop(nodes, val1, s1);
      RepTop(nodes, val2, s2);
      change := MergeEntry(val1, val2, flagged);
      ghost var h1, b1 := nodes, blocks;
      MarksKept(old(blocks), blocks, flagged);
      TreeKept(h0, h1, h0[val1].contents, s1.contents, Ptrs(s1.contents));
      TreeKept(h0, h1, h0[val2].contents, s2.contents, Ptrs(s2.contents));
      sc := s1.contents;
      if level > 0 {
        change, sc := MergeContents(val1, val2, level, change, s1.contents, s2.contents, flagged);
        BlocksTrans(old(blocks), b1, blocks);
      }
    }

    /** The end of `merge_widget_value`: the change is recorded, and toolkit data of a changed entry dropped. */
    method Settle(val1: Ptr, val2: Ptr, change: Change, ghost c1: Shape, ghost n1: Shape, ghost c2: Shape, ghost n2: Shape)
      requires Inv() && val1 in nodes && val2 in nodes && val1 != 0 && val2 != 0 && val1 != val2
      requires Rep(nodes, nodes[val1].contents, c1) && Rep(nodes, nodes[val1].next, n1)
      requires Rep(nodes, nodes[val2].contents, c2) && Rep(nodes, nodes[val2].next, n2)
      requires val1 !in Ptrs(c1) + Ptrs(n1) + Ptrs(c2) + Ptrs(n2)
      modifies this
      ensures Inv() && live == old(live) && counted == old(counted) && blocks == old(blocks)
      ensures Kept(old(nodes), nodes, old(nodes).Keys - {val1})
      ensures val2 in nodes && Rep(nodes, val1, Branch(val1, c1, n1)) && Rep(nodes, val2, Branch(val2, c2, n2))
      ensures var toolkit := if change != NoChange then None else old(nodes[val1]).toolkit;
              var h, e1, e2 := old(nodes), old(nodes[val1]), old(nodes[val2]);
              && ValueOf(nodes, Branch(val1, c1, n1)) == Node(e1.item, e1.args, change, toolkit, ValueOf(h, c1), ValueOf(h, n1))
              && ValueOf(nodes, Branch(val2, c2, n2)) == Node(e2.item, e2.args, e2.change, e2.toolkit, ValueOf(h, c2), ValueOf(h, n2))
    {
      hide Counts, Memory, ValueOf, Rep, Ptrs;
      ghost var h := nodes;
      var toolkit := if change != NoChange then None else nodes[val1].toolkit;
      Store(val1, nodes[val1].(change := change, toolkit := toolkit));
      TreeKept(h, nodes, h[val1].contents, c1, Ptrs(c1));
      TreeKept(h, nodes, h[val1].next, n1, Ptrs(n1));
      TreeKept(h, nodes, h[val2].contents, c2, Ptrs(c2));
      TreeKept(h, nodes, h[val2].next, n2, Ptrs(n2));
      RepJoin(nodes, val1, c1, n1);
      RepJoin(nodes, val2, c2, n2);
    }

    /** The body of `merge_widget_value` when there is an entry on both sides. */
    method MergeNodes(val1: Ptr, val2: Ptr, level: int, ghost s1: Shape, ghost s2: Shape, ghost flagged: set<Ptr>)
      returns (m: Ptr, ghost s: Shape)
      requires Valid() && Marks(blocks, flagged) && val1 != 0 && val2 != 0
      requires Mergeable(val1, val2, s1, s2)
      modifies this
      ensures Valid() && BlocksKept(old(blocks), blocks)
      ensures Rep(nodes, m, s) && Distinct(s)
      ensures Ptrs(s) !! (old(live) - Ptrs(s1)) && live == old(live) - Ptrs(s1) + Ptrs(s)
      ensures Kept(old(nodes), nodes, old(live) - Ptrs(s1) - Ptrs(s2))
      ensures Rep(nodes, val2, s2) && KeptButArgs(old(nodes), nodes, Ptrs(s2))
      ensures var a, b := ValueOf(old(nodes), s1), ValueOf(old(nodes), s2);
              && ValueOf(nodes, s) == Merge(a, b, level, flagged)
              && ValueOf(nodes, s2) == Filled(a, b, level)
      decreases s1, s2, 1
    {
      hide Counts, Memory, ValueOf, Rep, Ptrs, BlocksKept, Merge, Filled, Marks, Kept, KeptButArgs;
      ghost var h0 := nodes;
      RepTop(nodes, val1, s1);
      RepTop(nodes, val2, s2);
      ghost var c1, n1, c2, n2 := Ptrs(s1.contents), Ptrs(s1.next), Ptrs(s2.contents), Ptrs(s2.next);
      MergeStep(ValueOf(h0, s1), ValueOf(h0, s2), level, flagged);
      var change;
      ghost var sc, sn;
      change, sc := MergeHead(val1, val2, level, s1, s2, flagged);
      ghost var h2, b2, live1 := nodes, blocks, live;
      MarksKept(old(blocks), blocks, flagged);
      TreeKept(h0, h2, h0[val1].next, s1.next, old(live) - {val1, val2} - c1 - c2);
      TreeKept(h0, h2, h0[val2].next, s2.next, old(live) - {val1, val2} - c1 - c2);
      change, sn := MergeNext(val1, val2, level, change, s1.next, s2.next, flagged);
      BlocksTrans(old(blocks), b2, blocks);
      ghost var h3, live2 := nodes, live;
      TreeKept(h2, h3, h2[val1].contents, sc, live1 - {val1} - n1 - n2);
      TreeKept(h2, h3, h2[val2].contents, s2.contents, live1 - {val1} - n1 - n2);
      CellKept(h2, h3, val2, live1 - {val1} - n1 - n2);
      Settle(val1, val2, change, sc, sn, s2.contents, s2.next);
      FramesJoin(h0, h2, h3, nodes, old(live), live1, val1, val2, c1, n1, c2, n2);
      PtrsJoin(val1, sc, sn);
      LiveJoin(old(live), live1, live2, val1, Ptrs(s1.contents), Ptrs(s1.next), Ptrs(sc), Ptrs(sn));
      m, s := val1, Branch(val1, sc, sn);
    }

    /** `merge_widget_value`: makes the tree at `val1` like the one at `val2`, down to `level` levels of contents. */
    method MergeTree(val1: Ptr, val2: Ptr, level: int, ghost s1: Shape, ghost s2: Shape, ghost flagged: set<Ptr>)
      returns (m: Ptr, ghost s: Shape)
      requires Valid() && Marks(blocks, flagged)
      requires Mergeable(val1, val2, s1, s2)
      modifies this
      ensures Valid() && BlocksKept(old(blocks), blocks)
      ensures Rep(nodes, m, s) && Distinct(s)
      ensures Ptrs(s) !! (old(live) - Ptrs(s1)) && live == old(live) - Ptrs(s1) + Ptrs(s)
      ensures Kept(old(nodes), nodes, old(live) - Ptrs(s1) - Ptrs(s2))
      ensures Rep(nodes, val2, s2) && KeptButArgs(old(nodes), nodes, Ptrs(s2))
      ensures var a, b := ValueOf(old(nodes), s1), ValueOf(old(nodes), s2);
              && ValueOf(nodes, s) == Merge(a, b, level, flagged)
              && ValueOf(nodes, s2) == Filled(a, b, level)
      decreases s1, s2, 2
    {
      hide Counts, Memory, ValueOf, Rep, Ptrs, BlocksKept, Merge, Filled;
      RepTop(nodes, val1, s1);
      RepTop(nodes, val2, s2);
      BlocksSame(blocks);
      MergeEnds(ValueOf(nodes, s1), ValueOf(nodes, s2), level, flagged);
      if val1 == 0 {
        if val2 != 0 {
          ghost var h0 := nodes;
          m, s := CopyTree(val2, StructuralChange, s2);
          TreeKept(h0, nodes, val2, s2, Ptrs(s2));
        } else {
          RepNothing(nodes);
          m, s := 0, Leaf;
        }
        return;
      }
      if val2 == 0 {
        FreeTree(val1, s1);
        RepNothing(nodes);
        return 0, Leaf;
      }
      m, s := MergeNodes(val1, val2, level, s1, s2, flagged);
    }
  }

  lemma MergeStep(a: Tree, b: Tree, level: int, flagged: set<Ptr>)
    requires a.Node? && b.Node?
    ensures var contents := if level > 0 then Merge(a.contents, b.contents, level - 1, flagged) else a.contents;
            var next := Merge(a.next, b.next, level, flagged);
            var own := OwnChange(a, b, flagged);
            var change := NextChange(if level > 0 then ContentsChange(own, a.contents, contents) else own, a.next, next);
            Merge(a, b, level, flagged) ==
            Node(b.item, MergedArgs(a.args, b.args), change, if change != NoChange then None else a.toolkit, contents, next)
    ensures Filled(a, b, level) ==
            b.(args := MergedArgs(a.args, b.args),
               contents := if level > 0 then Filled(a.contents, b.contents, level - 1) else b.contents,
               next := Filled(a.next, b.next, level))
  {
  }

  lemma CellKept(h: Heap, h': Heap, p: Ptr, ps: set<Ptr>)
    requires Kept(h, h', ps) && p in ps && p in h
    ensures p in h' && h'[p] == h[p]
  {
  }

  /** What the steps of a merge of two entries keep, together. */
  lemma FramesJoin(h0: Heap, h2: Heap, h3: Heap, h4: Heap, live0: set<Ptr>, live1: set<Ptr>, p1: Ptr, p2: Ptr,
                   c1: set<Ptr>, n1: set<Ptr>, c2: set<Ptr>, n2: set<Ptr>)
    requires p1 != p2 && p1 !in c2 + n2 && p2 in live0 && p2 in h0 && p2 !in c1 + n1 + c2 + n2
    requires (c1 + n1) !! (c2 + n2) && c2 !! n2 && c2 <= live0 && n2 <= live0 && live0 - c1 <= live1
    requires Kept(h0, h2, live0 - {p1, p2} - c1 - c2) && KeptButArgs(h0, h2, c2)
    requires p2 in h2 && h2[p2] == h0[p2].(args := h2[p2].args)
    requires Kept(h2, h3, live1 - {p1} - n1 - n2) && KeptButArgs(h2, h3, n2)
    requires Kept(h3, h4, h3.Keys - {p1})
    ensures Kept(h0, h4, live0 - ({p1} + c1 + n1) - ({p2} + c2 + n2))
    ensures KeptButArgs(h0, h4, {p2} + c2 + n2)
  {
  }

  /** Contents and siblings of `p` were replaced, one after the other. */
  lemma LiveJoin(live0: set<Ptr>, live1: set<Ptr>, live2: set<Ptr>, p: Ptr, c: set<Ptr>, n: set<Ptr>, c': set<Ptr>, n': set<Ptr>)
    requires p in live0 && p !in c && p !in n && c !! n && c <= live0 && n <= live0
    requires live1 == live0 - c + c' && c' !! (live0 - c)
    requires live2 == live1 - n + n' && n' !! (live1 - n)
    ensures p !in c' && p !in n' && c' !! n'
    ensures live2 == live0 - ({p} + c + n) + ({p} + c' + n')
    ensures ({p} + c' + n') !! (live0 - ({p} + c + n))
  {
  }

  lemma PtrsJoin(p: Ptr, c: Shape, n: Shape)
    ensures Ptrs(Branch(p, c, n)) == {p} + Ptrs(c) + Ptrs(n)
  {
  }

  lemma MergeEnds(a: Tree, b: Tree, level: int, flagged: set<Ptr>)
    ensures a.Nil? ==> Merge(a, b, level, flagged) == Copy(b, StructuralChange) && Filled(a, b, level) == b
    ensures a.Nil? && b.Nil? ==> Merge(a, b, level, flagged) == Nil
    ensures b.Nil? ==> Merge(a, b, level, flagged) == Nil && Filled(a, b, level) == b
  {
  }

  /** `flagged` are the blocks that are marked as changed. */
  ghost predicate Marks(blocks: map<Ptr, Block>, flagged: set<Ptr>) {
    forall b :: b in blocks ==> (b in flagged <==> blocks[b].changed)
  }

  lemma MarksKept(a: map<Ptr, Block>, b: map<Ptr, Block>, flagged: set<Ptr>)
    requires BlocksKept(a, b) && Marks(a, flagged)
    ensures Marks(b, flagged)
  {
  }

  lemma BlocksTrans(a: map<Ptr, Block>, b: map<Ptr, Block>, c: map<Ptr, Block>)
    requires BlocksKept(b, c)
    ensures BlocksKept(a, b) ==> BlocksKept(a, c)
  {
  }

  lemma BlocksSame(a: map<Ptr, Block>)
    ensures BlocksKept(a, a)
  {
  }

  lemma CopyStep(t: Tree, change: Change)
    ensures Copy(t, change) ==
            if t.Nil? then Nil else Node(t.item, t.args, change, None, Copy(t.contents, change), Copy(t.next, change))
  {
  }

  /** `*node = *copy`, when only `copy` is counted: its share of its block goes to `node`. */
  lemma MoveCount(h: Heap, counted: set<Ptr>, blocks: map<Ptr, Block>, node: Ptr, copy: Ptr)
    requires Counts(h, counted, blocks) && copy in counted && node !in counted && copy in h
    ensures Counts(h[node := h[copy]], counted - {copy} + {node}, blocks)
  {
    var h', counted' := h[node := h[copy]], counted - {copy} + {node};
    forall x | x in blocks ensures blocks[x].refCount == |Holders(h', counted', x)| >= 1 {
      HoldersDown(h, counted, copy, x);
      HoldersUp(h, h', counted - {copy}, node, x);
    }
  }

  /** A new block with one holder. */
  lemma NewHolder(h: Heap, counted: set<Ptr>, blocks: map<Ptr, Block>, p: Ptr, b: Ptr)
    requires Counts(h, counted, blocks) && p in counted && h[p].args == 0 && b !in blocks && b != 0
    ensures Counts(h[p := h[p].(args := b)], counted, blocks[b := Block(1, false)])
  {
    var h', blocks' := h[p := h[p].(args := b)], blocks[b := Block(1, false)];
    forall x | x in blocks' ensures blocks'[x].refCount == |Holders(h', counted, x)| >= 1 {
      if x == b {
        assert Holders(h', counted, x) == {p};
      } else {
        assert Holders(h', counted, x) == Holders(h, counted, x);
      }
    }
  }
}
