/**
 * `lw_modify_all_widgets` of lwlib/lwlib.c in place: each new entry is cut out of its list, merged into the entry
 * of its name that is cut out of the other list, and both are linked in again.
 */
module WidgetModify {
  import opened Options
  import opened WidgetSpec
  import opened WidgetHeap
  import opened Widgets
  import opened WidgetModifySpec

  // ----- Parts of a list -----

  /** The list `f` with the list `t` behind it. */
  ghost function Joined(f: Shape, t: Shape): (s: Shape) {
    if f.Leaf? then t else Branch(f.at, f.contents, Joined(f.next, t))
  }

  /** The entries of `f` lie in a chain that starts at `p`, and `q` is what the last one links to. */
  ghost predicate Linked(h: Heap, p: Ptr, f: Shape, q: Ptr)
    decreases f
  {
    if f.Leaf? then p == q
    else p == f.at && p != 0 && p in h && Rep(h, h[p].contents, f.contents) && Linked(h, h[p].next, f.next, q)
  }

  ghost function Last(f: Shape): (p: Ptr) {
    if f.Leaf? then 0 else if f.next.Leaf? then f.at else Last(f.next)
  }

  lemma {:induction false} JoinedPtrs(f: Shape, t: Shape)
    ensures Ptrs(Joined(f, t)) == Ptrs(f) + Ptrs(t)
    ensures Distinct(Joined(f, t)) <==> Distinct(f) && Distinct(t) && Ptrs(f) !! Ptrs(t)
    ensures Joined(f, Leaf) == f
    ensures f.Branch? ==> Last(f) in Ptrs(f)
    decreases f
  {
    if f.Branch? {
      JoinedPtrs(f.next, t);
    }
  }

  lemma {:induction false} JoinedAssoc(f: Shape, g: Shape, t: Shape)
    ensures Joined(Joined(f, g), t) == Joined(f, Joined(g, t))
    decreases f
  {
    if f.Branch? {
      JoinedAssoc(f.next, g, t);
    }
  }

  lemma {:induction false} LinkedJoin(h: Heap, p: Ptr, f: Shape, q: Ptr, t: Shape)
    requires Linked(h, p, f, q) && Rep(h, q, t)
    ensures Rep(h, p, Joined(f, t)) && ValueOf(h, Joined(f, t)) == JoinTree(ValueOf(h, f), ValueOf(h, t))
    decreases f
  {
    if f.Branch? {
      LinkedJoin(h, h[p].next, f.next, q, t);
    }
  }

  /** One entry more in the chain. */
  lemma {:induction false} LinkedSnoc(h: Heap, p: Ptr, f: Shape, q: Ptr, c: Shape)
    requires Linked(h, p, f, q) && q != 0 && q in h && Rep(h, h[q].contents, c)
    ensures var g := Joined(f, Branch(q, c, Leaf));
            && Linked(h, p, g, h[q].next) && Last(g) == q && g.Branch?
            && ValueOf(h, g) == JoinTree(ValueOf(h, f), ValueOf(h, Branch(q, c, Leaf)))
    decreases f
  {
    if f.Branch? {
      LinkedSnoc(h, h[p].next, f.next, q, c);
    }
  }

  /** A chain none of whose cells has changed, or only in what the last one links to. */
  lemma {:induction false} LinkedKept(h: Heap, h': Heap, p: Ptr, f: Shape, q: Ptr, ps: set<Ptr>)
    requires Linked(h, p, f, q) && Kept(h, h', ps) && Ptrs(f) <= ps
    ensures Linked(h', p, f, q) && ValueOf(h', f) == ValueOf(h, f)
    decreases f
  {
    if f.Branch? {
      TreeKept(h, h', h[p].contents, f.contents, ps);
      LinkedKept(h, h', h[p].next, f.next, q, ps);
    }
  }

  lemma {:induction false} LinkedRelinked(h: Heap, p: Ptr, f: Shape, q: Ptr, q': Ptr)
    requires Linked(h, p, f, q) && Distinct(f) && f.Branch? && Last(f) in h
    ensures var h' := h[Last(f) := h[Last(f)].(next := q')];
            Linked(h', p, f, q') && ValueOf(h', f) == ValueOf(h, f)
    decreases f
  {
    var h' := h[Last(f) := h[Last(f)].(next := q')];
    JoinedPtrs(f.next, Leaf);
    assert Kept(h, h', Ptrs(f) - {Last(f)});
    TreeKept(h, h', h[p].contents, f.contents, Ptrs(f) - {Last(f)});
    if f.next.Branch? {
      LinkedRelinked(h, h[p].next, f.next, q, q');
    }
  }

  // ----- One new entry -----

  /** The entries up to the first one of a name, or all. */
  method FindEntry(lib: Lwlib, head: Ptr, newVal: Ptr, ghost s: Shape)
    returns (prev: Ptr, cur: Ptr, ghost f: Shape, ghost t: Shape)
    requires Rep(lib.nodes, head, s) && newVal in lib.nodes
    ensures s == Joined(f, t) && Linked(lib.nodes, head, f, cur) && Rep(lib.nodes, cur, t) && prev == Last(f)
    ensures lib.nodes[newVal].item.name !in TopNames(ValueOf(lib.nodes, f))
    ensures cur != 0 ==> cur in lib.nodes && lib.nodes[cur].item.name == lib.nodes[newVal].item.name
  {
    hide Rep, ValueOf, Linked, Joined, TopNames, Last;
    StartOfList(lib.nodes, head);
    prev, cur, f, t := 0, head, Leaf, s;
    NothingJoined(s);
    RepTop(lib.nodes, cur, t);
    while cur != 0 && lib.nodes[cur].item.name != lib.nodes[newVal].item.name
      invariant s == Joined(f, t) && Linked(lib.nodes, head, f, cur) && Rep(lib.nodes, cur, t) && prev == Last(f)
      invariant lib.nodes[newVal].item.name !in TopNames(ValueOf(lib.nodes, f))
      invariant cur != 0 ==> cur in lib.nodes
      decreases t
    {
      RepTop(lib.nodes, cur, t);
      OneFurther(lib.nodes, head, f, cur, t);
      prev := cur;
      f, t := Joined(f, Branch(cur, t.contents, Leaf)), t.next;
      cur := lib.nodes[cur].next;
      RepTop(lib.nodes, cur, t);
    }
  }

  lemma StartOfList(h: Heap, p: Ptr)
    ensures Linked(h, p, Leaf, p) && ValueOf(h, Leaf) == Nil && TopNames(Nil) == [] && Last(Leaf) == 0
  {
  }

  lemma NothingJoined(s: Shape)
    ensures Joined(Leaf, s) == s
  {
  }

  lemma OneFurther(h: Heap, head: Ptr, f: Shape, cur: Ptr, t: Shape)
    requires Linked(h, head, f, cur) && cur != 0 && Rep(h, cur, t)
    ensures t.Branch? && cur in h
    ensures var g := Joined(f, Branch(cur, t.contents, Leaf));
            && Joined(g, t.next) == Joined(f, t) && Linked(h, head, g, h[cur].next) && Last(g) == cur && g.Branch?
            && TopNames(ValueOf(h, g)) == TopNames(ValueOf(h, f)) + [h[cur].item.name]
            && Rep(h, h[cur].next, t.next)
  {
    RepTop(h, cur, t);
    LinkedSnoc(h, head, f, cur, t.contents);
    JoinedAssoc(f, Branch(cur, t.contents, Leaf), t.next);
    JoinAssoc(ValueOf(h, f), ValueOf(h, Branch(cur, t.contents, Leaf)), Nil);
    assert TopNames(ValueOf(h, Branch(cur, t.contents, Leaf))) == [h[cur].item.name];
  }

  lemma {:induction false} LastIs(h: Heap, p: Ptr, f: Shape, q: Ptr)
    requires Linked(h, p, f, q)
    ensures Last(f) == 0 <==> f.Leaf?
    ensures f.Branch? ==> Last(f) in Ptrs(f) && Last(f) in h
    ensures f.Leaf? ==> p == q
    decreases f
  {
    if f.Branch? && f.next.Branch? {
      LastIs(h, h[p].next, f.next, q);
    }
  }

  /** An entry is linked in behind those of `f`, and `rest` behind the entry. */
  method LinkIn(lib: Lwlib, head: Ptr, prev: Ptr, m: Ptr, next: Ptr, ghost f: Shape, ghost q: Ptr, ghost sm: Shape, ghost rest: Shape)
    returns (head': Ptr)
    requires lib.Inv() && Linked(lib.nodes, head, f, q) && prev == Last(f)
    requires m != 0 && Rep(lib.nodes, m, sm) && Rep(lib.nodes, next, rest)
    requires Distinct(f) && m !in Ptrs(sm.contents) + Ptrs(rest) && Ptrs(f) !! ({m} + Ptrs(sm.contents) + Ptrs(rest))
    modifies lib
    ensures lib.Inv() && lib.live == old(lib.live) && lib.counted == old(lib.counted) && lib.blocks == old(lib.blocks)
    ensures forall p :: p in old(lib.nodes) && p !in Ptrs(f) && p != m ==> p in lib.nodes && lib.nodes[p] == old(lib.nodes)[p]
    ensures var s' := Joined(f, Branch(m, sm.contents, rest));
            && Rep(lib.nodes, head', s') && ValueOf(old(lib.nodes), sm).Node?
            && ValueOf(lib.nodes, s') ==
               JoinTree(ValueOf(old(lib.nodes), f), ValueOf(old(lib.nodes), sm).(next := ValueOf(old(lib.nodes), rest)))
  {
    hide Rep, ValueOf, Linked, Joined, Last, Ptrs, Memory, Counts;
    ghost var h := lib.nodes;
    LastIs(h, head, f, q);
    RepTop(h, m, sm);
    head' := m;
    if prev != 0 {
      LinkedRelinked(h, head, f, q, m);
      lib.Store(prev, lib.nodes[prev].(next := m));
      head' := head;
    } else {
      LinkedNothing(h, f, m);
    }
    ghost var h1 := lib.nodes;
    lib.Store(m, lib.nodes[m].(next := next));
    ghost var h2 := lib.nodes;
    TreeKept(h, h2, h[m].contents, sm.contents, Ptrs(sm.contents));
    TreeKept(h, h2, next, rest, Ptrs(rest));
    LinkedKept(h1, h2, head', f, m, Ptrs(f));
    RepJoin(h2, m, sm.contents, rest);
    LinkedJoin(h2, head', f, m, Branch(m, sm.contents, rest));
  }

  lemma LinkedNothing(h: Heap, f: Shape, m: Ptr)
    requires f.Leaf?
    ensures Linked(h, m, f, m)
  {
  }

  /** What merging one new entry into a list keeps, and where its cells come from. */
  ghost predicate ListChanged(h: Heap, h': Heap, live: set<Ptr>, live': set<Ptr>, s: Shape, s': Shape, e: Shape) {
    && Distinct(s') && Ptrs(s') !! (live - Ptrs(s)) && live' == live - Ptrs(s) + Ptrs(s')
    && Kept(h, h', live - Ptrs(s) - Ptrs(e)) && KeptButArgs(h, h', Ptrs(e))
  }

  /** There is no entry of that name: a copy comes to the end. */
  method AppendCopy(lib: Lwlib, head: Ptr, prev: Ptr, newVal: Ptr, ghost f: Shape, ghost e: Shape)
    returns (head': Ptr, ghost s': Shape)
    requires lib.Valid() && Linked(lib.nodes, head, f, 0) && prev == Last(f) && newVal != 0
    requires Distinct(f) && Ptrs(f) <= lib.live && Rep(lib.nodes, newVal, e) && Ptrs(e) <= lib.live && Ptrs(f) !! Ptrs(e)
    modifies lib
    ensures lib.Valid() && BlocksKept(old(lib.blocks), lib.blocks)
    ensures Rep(lib.nodes, head', s') && Rep(lib.nodes, newVal, e)
    ensures ListChanged(old(lib.nodes), lib.nodes, old(lib.live), lib.live, f, s', e)
    ensures ValueOf(lib.nodes, s') == JoinTree(ValueOf(old(lib.nodes), f), Copy(ValueOf(old(lib.nodes), e), StructuralChange))
    ensures ValueOf(lib.nodes, e) == ValueOf(old(lib.nodes), e)
  {
    hide Rep, ValueOf, Linked, Joined, Last, Ptrs, Memory, Counts, Distinct, BlocksKept, Copy;
    ghost var h, live := lib.nodes, lib.live;
    var copy;
    ghost var c;
    copy, c := lib.CopyTree(newVal, StructuralChange, e);
    ghost var h1 := lib.nodes;
    LastIs(h, head, f, 0);
    LinkedKept(h, h1, head, f, 0, live);
    TreeKept(h, h1, newVal, e, live);
    head' := copy;
    if prev != 0 {
      LinkedRelinked(h1, head, f, 0, copy);
      LastIs(h1, head, f, 0);
      lib.Store(prev, lib.nodes[prev].(next := copy));
      head' := head;
    } else {
      LinkedNothing(h1, f, copy);
    }
    TreeKept(h1, lib.nodes, copy, c, Ptrs(c));
    TreeKept(h1, lib.nodes, newVal, e, Ptrs(e));
    LinkedJoin(lib.nodes, head', f, copy, c);
    JoinedPtrs(f, c);
    s' := Joined(f, c);
  }

  /** An entry cut out of its list. */
  method CutOut(lib: Lwlib, cur: Ptr, ghost t: Shape) returns (next: Ptr, ghost alone: Shape)
    requires lib.Valid() && cur != 0 && Rep(lib.nodes, cur, t) && Distinct(t) && Ptrs(t) <= lib.live
    modifies lib
    ensures lib.Valid() && lib.live == old(lib.live) && lib.blocks == old(lib.blocks)
    ensures t.Branch? && t == Branch(cur, t.contents, t.next) && alone == Branch(cur, t.contents, Leaf)
    ensures cur in old(lib.nodes) && next == old(lib.nodes)[cur].next
    ensures lib.nodes == old(lib.nodes)[cur := old(lib.nodes)[cur].(next := 0)]
    ensures Rep(lib.nodes, cur, alone) && Rep(lib.nodes, next, t.next)
    ensures Ptrs(alone) == {cur} + Ptrs(t.contents) && Ptrs(t) == Ptrs(alone) + Ptrs(t.next)
    ensures Distinct(alone) && Distinct(t.next) && Ptrs(alone) !! Ptrs(t.next) && cur !in Ptrs(t.contents)
    ensures var v := ValueOf(old(lib.nodes), t);
            && v.Node? && ValueOf(lib.nodes, alone) == v.(next := Nil)
            && ValueOf(lib.nodes, t.next) == ValueOf(old(lib.nodes), t.next) == v.next
            && ValueOf(lib.nodes, t.contents) == v.contents
  {
    hide Rep, ValueOf, Ptrs, Memory, Counts;
    ghost var h := lib.nodes;
    RepTop(h, cur, t);
    next := lib.nodes[cur].next;
    lib.Store(cur, lib.nodes[cur].(next := 0));
    TreeKept(h, lib.nodes, h[cur].contents, t.contents, Ptrs(t.contents));
    TreeKept(h, lib.nodes, next, t.next, Ptrs(t.next));
    RepNothing(lib.nodes);
    RepJoin(lib.nodes, cur, t.contents, Leaf);
    alone := Branch(cur, t.contents, Leaf);
  }

  /** There is an entry of that name: it is cut out, merged and linked in again. */
  method MergeFound(lib: Lwlib, head: Ptr, prev: Ptr, cur: Ptr, newVal: Ptr, level: int,
                    ghost f: Shape, ghost t: Shape, ghost e: Shape, ghost flagged: set<Ptr>)
    returns (head': Ptr, ghost s': Shape)
    requires lib.Valid() && Marks(lib.blocks, flagged)
    requires Linked(lib.nodes, head, f, cur) && prev == Last(f) && cur != 0 && Rep(lib.nodes, cur, t)
    requires Distinct(f) && Distinct(t) && Ptrs(f) !! Ptrs(t) && Ptrs(f) + Ptrs(t) <= lib.live
    requires newVal != 0 && Rep(lib.nodes, newVal, e) && e.Branch? && e.next.Leaf?
    requires Distinct(e) && Ptrs(e) <= lib.live && (Ptrs(f) + Ptrs(t)) !! Ptrs(e)
    modifies lib
    ensures lib.Valid() && BlocksKept(old(lib.blocks), lib.blocks)
    ensures Rep(lib.nodes, head', s') && Rep(lib.nodes, newVal, e)
    ensures ListChanged(old(lib.nodes), lib.nodes, old(lib.live), lib.live, Joined(f, t), s', e)
    ensures var a, b := ValueOf(old(lib.nodes), t), ValueOf(old(lib.nodes), e);
            && a.Node? && b.Node?
            && Merge(a.(next := Nil), b, level, flagged).Node?
            && ValueOf(lib.nodes, s') ==
               JoinTree(ValueOf(old(lib.nodes), f), Merge(a.(next := Nil), b, level, flagged).(next := a.next))
            && ValueOf(lib.nodes, e) == Filled(a.(next := Nil), b, level)
  {
    hide Rep, ValueOf, Linked, Joined, Last, Ptrs, Memory, Counts, Distinct, BlocksKept, Merge, Filled, Marks, Kept, KeptButArgs;
    ghost var h, live := lib.nodes, lib.live;
    RepTop(h, newVal, e);
    var next;
    ghost var alone;
    next, alone := CutOut(lib, cur, t);
    ghost var h1 := lib.nodes;
    OneStored(h, h1, cur, Ptrs(f));
    OneStored(h, h1, cur, Ptrs(e));
    LinkedKept(h, h1, head, f, cur, Ptrs(f));
    TreeKept(h, h1, newVal, e, Ptrs(e));
    var m;
    ghost var sm;
    m, sm := lib.MergeTree(cur, newVal, level, alone, e, flagged);
    ghost var h2 := lib.nodes;
    ghost var still := live - Ptrs(alone) - Ptrs(e);
    LinkedKept(h1, h2, head, f, cur, still);
    TreeKept(h1, h2, next, t.next, still);
    MergedAlone(h1, h2, m, sm, alone, e, level, flagged);
    RepTop(h2, m, sm);
    DistinctParts(sm);
    head' := LinkIn(lib, head, prev, m, next, f, cur, sm, t.next);
    s' := Joined(f, Branch(m, sm.contents, t.next));
    OthersStored(h2, lib.nodes, Ptrs(f), m, Ptrs(e));
    TreeKept(h2, lib.nodes, newVal, e, Ptrs(e));
    ListRelinked(h, h1, h2, lib.nodes, live, lib.live, f, t, e, cur, m, alone, sm);
  }

  lemma OneStored(h: Heap, h': Heap, p: Ptr, ps: set<Ptr>)
    requires forall q :: q in h && q != p ==> q in h' && h'[q] == h[q]
    requires p !in ps
    ensures Kept(h, h', ps)
  {
  }

  lemma OthersStored(h: Heap, h': Heap, fs: set<Ptr>, m: Ptr, ps: set<Ptr>)
    requires forall p :: p in h && p !in fs && p != m ==> p in h' && h'[p] == h[p]
    requires fs !! ps && m !in ps
    ensures Kept(h, h', ps)
  {
  }

  lemma MergedAlone(h1: Heap, h2: Heap, m: Ptr, sm: Shape, alone: Shape, e: Shape, level: int, flagged: set<Ptr>)
    requires Rep(h2, m, sm) && alone.Branch? && alone.next.Leaf? && e.Branch? && e.next.Leaf? && alone.at in h1 && e.at in h1
    requires ValueOf(h2, sm) == Merge(ValueOf(h1, alone), ValueOf(h1, e), level, flagged)
    ensures m != 0 && sm.Branch? && sm.next.Leaf?
  {
    RepTop(h2, m, sm);
    var a, b := ValueOf(h1, alone), ValueOf(h1, e);
    assert a.Node? && b.Node? && a.next == b.next == Nil;
    assert Merge(a, b, level, flagged).next == Nil;
    RepTop(h2, h2[m].next, sm.next);
  }

  lemma DistinctParts(s: Shape)
    requires Distinct(s) && s.Branch? && s.next.Leaf?
    ensures s.at !in Ptrs(s.contents) && Distinct(s.contents) && Ptrs(s) == {s.at} + Ptrs(s.contents)
  {
  }

  /** The entry of `a` in place, out of the cells of `c` and `m`. */
  lemma RelinkedCells(live: set<Ptr>, live': set<Ptr>, f: set<Ptr>, t: set<Ptr>, a: set<Ptr>, n: set<Ptr>, m: set<Ptr>)
    requires f !! t && f + t <= live && t == a + n && a !! n && m !! (live - a) && live' == live - a + m
    ensures f !! (m + n) && m !! n
    ensures (f + (m + n)) !! (live - (f + t)) && live' == live - (f + t) + (f + (m + n))
  {
  }

  lemma RelinkedFrames(h: Heap, h1: Heap, h2: Heap, h3: Heap, live: set<Ptr>,
                       f: set<Ptr>, t: set<Ptr>, e: set<Ptr>, a: set<Ptr>, cur: Ptr, m: Ptr)
    requires cur in a && a <= t && (f + t) !! e && e <= live && m !in live - a
    requires forall q :: q in h && q != cur ==> q in h1 && h1[q] == h[q]
    requires Kept(h1, h2, live - a - e) && KeptButArgs(h1, h2, e)
    requires forall p :: p in h2 && p !in f && p != m ==> p in h3 && h3[p] == h2[p]
    ensures Kept(h, h3, live - (f + t) - e) && KeptButArgs(h, h3, e)
  {
    forall p | p in live - (f + t) - e && p in h ensures p in h3 && h3[p] == h[p] {
      assert p in h1 && p in live - a - e;
    }
    forall p | p in e && p in h ensures p in h3 && h3[p] == h[p].(args := h3[p].args) {
      assert p in h1 && p in live - a;
    }
  }

  lemma ListRelinked(h: Heap, h1: Heap, h2: Heap, h3: Heap, live: set<Ptr>, live': set<Ptr>,
                     f: Shape, t: Shape, e: Shape, cur: Ptr, m: Ptr, alone: Shape, sm: Shape)
    requires Distinct(f) && Ptrs(f) !! Ptrs(t) && Ptrs(f) + Ptrs(t) <= live && (Ptrs(f) + Ptrs(t)) !! Ptrs(e)
    requires t.Branch? && Ptrs(t) == Ptrs(alone) + Ptrs(t.next) && Ptrs(alone) !! Ptrs(t.next) && Distinct(t.next)
    requires cur in Ptrs(alone) && Ptrs(e) <= live
    requires sm.Branch? && m !in Ptrs(sm.contents) && Distinct(sm.contents) && Ptrs(sm) == {m} + Ptrs(sm.contents)
    requires Ptrs(sm) !! (live - Ptrs(alone)) && live' == live - Ptrs(alone) + Ptrs(sm)
    requires forall q :: q in h && q != cur ==> q in h1 && h1[q] == h[q]
    requires Kept(h1, h2, live - Ptrs(alone) - Ptrs(e)) && KeptButArgs(h1, h2, Ptrs(e))
    requires forall p :: p in h2 && p !in Ptrs(f) && p != m ==> p in h3 && h3[p] == h2[p]
    ensures ListChanged(h, h3, live, live', Joined(f, t), Joined(f, Branch(m, sm.contents, t.next)), e)
  {
    hide Distinct, Ptrs, Joined, Kept, KeptButArgs;
    var tail := Branch(m, sm.contents, t.next);
    RelinkedCells(live, live', Ptrs(f), Ptrs(t), Ptrs(alone), Ptrs(t.next), Ptrs(sm));
    RelinkedFrames(h, h1, h2, h3, live, Ptrs(f), Ptrs(t), Ptrs(e), Ptrs(alone), cur, m);
    BranchDistinct(m, sm.contents, t.next);
    JoinedPtrs(f, t);
    JoinedPtrs(f, tail);
  }

  lemma BranchDistinct(p: Ptr, c: Shape, n: Shape)
    requires Distinct(c) && Distinct(n) && p !in Ptrs(c) && p !in Ptrs(n) && Ptrs(c) !! Ptrs(n)
    ensures Distinct(Branch(p, c, n)) && Ptrs(Branch(p, c, n)) == {p} + Ptrs(c) + Ptrs(n)
  {
  }

  lemma ModifyHere(t: Tree, e: Tree, level: int, flagged: set<Ptr>)
    requires e.Node?
    ensures t.Nil? ==> ModifyOne(t, e, level, flagged) == Copy(e, StructuralChange) && FilledOne(t, e, level) == e
    ensures t.Node? && t.item.name == e.item.name ==>
              && Merge(t.(next := Nil), e, level, flagged).Node?
              && ModifyOne(t, e, level, flagged) == Merge(t.(next := Nil), e, level, flagged).(next := t.next)
              && FilledOne(t, e, level) == Filled(t.(next := Nil), e, level)
  {
  }

  /** A new entry, by itself, is merged into the first entry of its name, or copied to the end. */
  method ModifyEntry(lib: Lwlib, head: Ptr, newVal: Ptr, level: int, ghost s: Shape, ghost e: Shape, ghost flagged: set<Ptr>)
    returns (head': Ptr, ghost s': Shape)
    requires lib.Valid() && Marks(lib.blocks, flagged)
    requires Rep(lib.nodes, head, s) && Distinct(s) && Ptrs(s) <= lib.live
    requires newVal != 0 && Rep(lib.nodes, newVal, e) && e.Branch? && e.next.Leaf?
    requires Distinct(e) && Ptrs(e) <= lib.live && Ptrs(s) !! Ptrs(e)
    modifies lib
    ensures lib.Valid() && BlocksKept(old(lib.blocks), lib.blocks)
    ensures Rep(lib.nodes, head', s') && Rep(lib.nodes, newVal, e)
    ensures ListChanged(old(lib.nodes), lib.nodes, old(lib.live), lib.live, s, s', e)
    ensures var a, b := ValueOf(old(lib.nodes), s), ValueOf(old(lib.nodes), e);
            && b.Node?
            && ValueOf(lib.nodes, s') == ModifyOne(a, b, level, flagged)
            && ValueOf(lib.nodes, e) == FilledOne(a, b, level)
  {
    hide Rep, ValueOf, Linked, Joined, Last, Ptrs, Memory, Counts, Distinct, BlocksKept, Merge, Filled, Marks;
    hide ListChanged, ModifyOne, FilledOne, JoinTree, TopNames;
    ghost var h := lib.nodes;
    RepTop(h, newVal, e);
    var prev, cur;
    ghost var f, t;
    prev, cur, f, t := FindEntry(lib, head, newVal, s);
    RepTop(h, cur, t);
    JoinedPtrs(f, t);
    LinkedJoin(h, head, f, cur, t);
    ModifyBehind(ValueOf(h, f), ValueOf(h, t), ValueOf(h, e), level, flagged);
    ModifyHere(ValueOf(h, t), ValueOf(h, e), level, flagged);
    if cur != 0 {
      head', s' := MergeFound(lib, head, prev, cur, newVal, level, f, t, e, flagged);
    } else {
      JoinedPtrs(f, Leaf);
      head', s' := AppendCopy(lib, head, prev, newVal, f, e);
    }
  }

  // ----- All new entries -----

  /** One turn of the loop: the entry at `cur` is cut out of its list for the time being. */
  method ModifyTurn(lib: Lwlib, head: Ptr, cur: Ptr, level: int, ghost s: Shape, ghost r: Shape, ghost flagged: set<Ptr>)
    returns (head': Ptr, next: Ptr, ghost s': Shape)
    requires lib.Valid() && Marks(lib.blocks, flagged)
    requires Rep(lib.nodes, head, s) && Distinct(s) && Ptrs(s) <= lib.live
    requires cur != 0 && Rep(lib.nodes, cur, r) && Distinct(r) && Ptrs(r) <= lib.live && Ptrs(s) !! Ptrs(r)
    modifies lib
    ensures lib.Valid() && BlocksKept(old(lib.blocks), lib.blocks)
    ensures r == Branch(cur, r.contents, r.next) && cur in lib.nodes && next == lib.nodes[cur].next
    ensures Rep(lib.nodes, head', s')
    ensures Rep(lib.nodes, lib.nodes[cur].contents, r.contents) && Rep(lib.nodes, next, r.next)
    ensures ListChanged(old(lib.nodes), lib.nodes, old(lib.live), lib.live, s, s', Branch(cur, r.contents, Leaf))
    ensures var a, b := ValueOf(old(lib.nodes), s), ValueOf(old(lib.nodes), r);
            && b.Node?
            && ValueOf(lib.nodes, s') == ModifyOne(a, b.(next := Nil), level, flagged)
            && ValueOf(lib.nodes, Branch(cur, r.contents, Leaf)) == FilledOne(a, b.(next := Nil), level).(next := Nil)
            && ValueOf(lib.nodes, r.next) == ValueOf(old(lib.nodes), r.next) == b.next
  {
    hide Rep, ValueOf, Ptrs, Memory, Counts, Distinct, BlocksKept, Marks, ListChanged, ModifyOne, FilledOne;
    ghost var h, live := lib.nodes, lib.live;
    ghost var alone;
    next, alone := CutOut(lib, cur, r);
    ghost var h1 := lib.nodes;
    OneStored(h, h1, cur, Ptrs(s));
    TreeKept(h, h1, head, s, Ptrs(s));
    head', s' := ModifyEntry(lib, head, cur, level, s, alone, flagged);
    ghost var h2, live2 := lib.nodes, lib.live;
    RepTop(h2, cur, alone);
    BehindKept(h1, h2, live, live2, s, s', alone, Ptrs(r.next));
    TreeKept(h1, h2, next, r.next, Ptrs(r.next));
    lib.Store(cur, lib.nodes[cur].(next := next));
    OneStored(h2, lib.nodes, cur, Ptrs(s'));
    OneStored(h2, lib.nodes, cur, Ptrs(r.contents));
    OneStored(h2, lib.nodes, cur, Ptrs(r.next));
    TreeKept(h2, lib.nodes, head', s', Ptrs(s'));
    TreeKept(h2, lib.nodes, h2[cur].contents, r.contents, Ptrs(r.contents));
    TreeKept(h2, lib.nodes, next, r.next, Ptrs(r.next));
    ValueAlone(lib.nodes, cur, r.contents);
    TurnChanged(h, h1, h2, lib.nodes, live, live2, s, s', alone, cur, next);
  }

  lemma ValueAlone(h: Heap, p: Ptr, c: Shape)
    requires p in h
    ensures ValueOf(h, Branch(p, c, Leaf)) == Node(h[p].item, h[p].args, h[p].change, h[p].toolkit, ValueOf(h, c), Nil)
  {
  }

  lemma BehindKept(h: Heap, h': Heap, live: set<Ptr>, live': set<Ptr>, s: Shape, s': Shape, e: Shape, ps: set<Ptr>)
    requires ListChanged(h, h', live, live', s, s', e) && Ptrs(e) <= live && Ptrs(s) !! Ptrs(e)
    requires ps <= live && ps !! Ptrs(s) && ps !! Ptrs(e)
    ensures Kept(h, h', ps) && ps !! Ptrs(s') && Ptrs(e) !! Ptrs(s')
  {
    hide Ptrs, Distinct;
  }

  lemma TurnChanged(h: Heap, h1: Heap, h2: Heap, h3: Heap, live: set<Ptr>, live': set<Ptr>, s: Shape, s': Shape, e: Shape, cur: Ptr, next: Ptr)
    requires ListChanged(h1, h2, live, live', s, s', e) && cur in Ptrs(e) && cur in h && cur in h2 && next == h[cur].next
    requires h1 == h[cur := h[cur].(next := 0)] && h3 == h2[cur := h2[cur].(next := next)]
    ensures ListChanged(h, h3, live, live', s, s', e)
  {
    hide Ptrs, Distinct;
  }

  lemma TurnsJoin(h0: Heap, h: Heap, h': Heap, live0: set<Ptr>, live: set<Ptr>, live': set<Ptr>,
                  s0: Shape, s: Shape, s': Shape, v: set<Ptr>, e: Shape)
    requires Ptrs(s) !! (live0 - Ptrs(s0)) && live == live0 - Ptrs(s0) + Ptrs(s)
    requires v <= live0 && v !! Ptrs(s0) && Ptrs(e) <= v
    requires Kept(h0, h, live0 - Ptrs(s0) - v) && KeptButArgs(h0, h, v)
    requires ListChanged(h, h', live, live', s, s', e)
    ensures Distinct(s') && Ptrs(s') !! (live0 - Ptrs(s0)) && live' == live0 - Ptrs(s0) + Ptrs(s') && Ptrs(s') !! v
    ensures Kept(h0, h', live0 - Ptrs(s0) - v) && KeptButArgs(h0, h', v)
  {
    hide Ptrs, Distinct;
    TurnsCells(live0, live, live', Ptrs(s0), Ptrs(s), Ptrs(s'), v);
    forall p | p in live0 - Ptrs(s0) - v && p in h0 ensures p in h' && h'[p] == h0[p] {
      assert p in h && p in live - Ptrs(s) - Ptrs(e);
    }
    forall p | p in v && p in h0 ensures p in h' && h'[p] == h0[p].(args := h'[p].args) {
      assert p in h && (p in Ptrs(e) || p in live - Ptrs(s) - Ptrs(e));
    }
  }

  lemma TurnsCells(live0: set<Ptr>, live: set<Ptr>, live': set<Ptr>, s0: set<Ptr>, s: set<Ptr>, s': set<Ptr>, v: set<Ptr>)
    requires s !! (live0 - s0) && live == live0 - s0 + s && v <= live0 && v !! s0
    requires s' !! (live - s) && live' == live - s + s'
    ensures s' !! (live0 - s0) && live' == live0 - s0 + s' && s' !! v && v <= live - s && live0 - s0 <= live - s
  {
  }

  /** A turn takes one entry off the list of those to come. */
  lemma TurnValues(list: Tree, g: Tree, r: Tree, level: int, flagged: set<Ptr>)
    requires r.Node?
    ensures var e := r.(next := Nil); var m := ModifyOne(list, e, level, flagged);
            && ModifyAll(list, r, level, flagged) == ModifyAll(m, r.next, level, flagged)
            && JoinTree(g, FilledAll(list, r, level, flagged)) ==
               JoinTree(JoinTree(g, FilledOne(list, e, level).(next := Nil)), FilledAll(m, r.next, level, flagged))
  {
    var e := r.(next := Nil);
    var x, rest := FilledOne(list, e, level), FilledAll(ModifyOne(list, e, level, flagged), r.next, level, flagged);
    JoinAssoc(g, x.(next := Nil), rest);
    assert JoinTree(x.(next := Nil), rest) == x.(next := rest);
  }

  /** What has been turned over, and what is to come. */
  lemma OneTurned(h: Heap, val: Ptr, g: Shape, cur: Ptr, r: Shape)
    requires Linked(h, val, g, cur) && cur != 0 && cur in h && r.Branch? && r.at == cur && Rep(h, h[cur].contents, r.contents)
    ensures var g' := Joined(g, Branch(cur, r.contents, Leaf));
            && Joined(g', r.next) == Joined(g, r) && Linked(h, val, g', h[cur].next)
            && ValueOf(h, g') == JoinTree(ValueOf(h, g), ValueOf(h, Branch(cur, r.contents, Leaf)))
  {
    LinkedSnoc(h, val, g, cur, r.contents);
    JoinedAssoc(g, Branch(cur, r.contents, Leaf), r.next);
    assert Joined(Branch(cur, r.contents, Leaf), r.next) == r;
  }

  lemma ListsDone(list: Tree, g: Tree, level: int, flagged: set<Ptr>)
    ensures ModifyAll(list, Nil, level, flagged) == list
    ensures JoinTree(g, FilledAll(list, Nil, level, flagged)) == g
  {
    JoinNil(g);
  }

  lemma ListsStart(h: Heap, v: Shape, r: Tree)
    ensures JoinTree(ValueOf(h, Leaf), r) == r && Joined(Leaf, v) == v
  {
  }

  lemma KeptAll(h: Heap, ps: set<Ptr>)
    ensures Kept(h, h, ps) && KeptButArgs(h, h, ps)
  {
  }

  lemma PartOf(g: Shape, r: Shape)
    requires Distinct(Joined(g, r)) && r.Branch?
    ensures Ptrs(g) <= Ptrs(Joined(g, r)) && Ptrs(r) <= Ptrs(Joined(g, r)) && Distinct(r)
    ensures Ptrs(Branch(r.at, r.contents, Leaf)) <= Ptrs(r) && Ptrs(g) !! Ptrs(Branch(r.at, r.contents, Leaf))
  {
    JoinedPtrs(g, r);
  }

  /** The loop of `lw_modify_all_widgets`. */
  method ModifyList(lib: Lwlib, info: Ptr, val: Ptr, level: int, ghost s: Shape, ghost v: Shape, ghost flagged: set<Ptr>)
    returns (head: Ptr, ghost s': Shape)
    requires lib.Valid() && Marks(lib.blocks, flagged)
    requires Rep(lib.nodes, info, s) && Distinct(s) && Ptrs(s) <= lib.live
    requires Rep(lib.nodes, val, v) && Distinct(v) && Ptrs(v) <= lib.live && Ptrs(s) !! Ptrs(v)
    modifies lib
    ensures lib.Valid() && BlocksKept(old(lib.blocks), lib.blocks)
    ensures Rep(lib.nodes, head, s') && Rep(lib.nodes, val, v)
    ensures ListChanged(old(lib.nodes), lib.nodes, old(lib.live), lib.live, s, s', v)
    ensures var a, b := ValueOf(old(lib.nodes), s), ValueOf(old(lib.nodes), v);
            && ValueOf(lib.nodes, s') == ModifyAll(a, b, level, flagged)
            && ValueOf(lib.nodes, v) == FilledAll(a, b, level, flagged)
  {
    hide Rep, ValueOf, Linked, Joined, Ptrs, Memory, Counts, Distinct, BlocksKept, Marks, Kept, KeptButArgs;
    hide ModifyOne, FilledOne, ModifyAll, FilledAll, JoinTree, ListChanged;
    ghost var h0, live0 := lib.nodes, lib.live;
    ghost var a, b := ValueOf(h0, s), ValueOf(h0, v);
    ghost var g, r := Leaf, v;
    var newVal := val;
    head, s' := info, s;
    StartOfList(h0, val);
    ListsStart(h0, v, FilledAll(a, b, level, flagged));
    KeptAll(h0, live0 - Ptrs(s) - Ptrs(v));
    KeptAll(h0, Ptrs(v));
    BlocksSame(lib.blocks);
    RepTop(lib.nodes, newVal, r);
    while newVal != 0
      invariant lib.Valid() && BlocksKept(old(lib.blocks), lib.blocks) && Marks(lib.blocks, flagged)
      invariant newVal != 0 <==> r.Branch?
      invariant v == Joined(g, r) && Linked(lib.nodes, val, g, newVal) && Rep(lib.nodes, newVal, r)
      invariant Rep(lib.nodes, head, s') && Distinct(s') && Ptrs(s') !! Ptrs(v)
      invariant Ptrs(s') !! (live0 - Ptrs(s)) && lib.live == live0 - Ptrs(s) + Ptrs(s')
      invariant Kept(h0, lib.nodes, live0 - Ptrs(s) - Ptrs(v)) && KeptButArgs(h0, lib.nodes, Ptrs(v))
      invariant ModifyAll(ValueOf(lib.nodes, s'), ValueOf(lib.nodes, r), level, flagged) == ModifyAll(a, b, level, flagged)
      invariant JoinTree(ValueOf(lib.nodes, g), FilledAll(ValueOf(lib.nodes, s'), ValueOf(lib.nodes, r), level, flagged))
             == FilledAll(a, b, level, flagged)
      decreases r
    {
      ghost var h, live, blocks, list := lib.nodes, lib.live, lib.blocks, s';
      PartOf(g, r);
      RepTop(h, newVal, r);
      TurnValues(ValueOf(h, list), ValueOf(h, g), ValueOf(h, r), level, flagged);
      ghost var cur := newVal;
      ghost var e := Branch(cur, r.contents, Leaf);
      head, newVal, s' := ModifyTurn(lib, head, newVal, level, s', r, flagged);
      BlocksTrans(old(lib.blocks), blocks, lib.blocks);
      MarksKept(blocks, lib.blocks, flagged);
      BehindKept(h, lib.nodes, live, lib.live, list, s', e, Ptrs(g));
      LinkedKept(h, lib.nodes, val, g, cur, Ptrs(g));
      OneTurned(lib.nodes, val, g, cur, r);
      TurnsJoin(h0, h, lib.nodes, live0, live, lib.live, s, list, s', Ptrs(v), e);
      g, r := Joined(g, e), r.next;
      RepTop(lib.nodes, newVal, r);
    }
    RepTop(lib.nodes, 0, r);
    ListsDone(ValueOf(lib.nodes, s'), ValueOf(lib.nodes, g), level, flagged);
    JoinedPtrs(g, Leaf);
    LinkedJoin(lib.nodes, val, g, 0, Leaf);
    Turned(h0, lib.nodes, live0, lib.live, s, s', v);
  }

  lemma Turned(h: Heap, h': Heap, live: set<Ptr>, live': set<Ptr>, s: Shape, s': Shape, v: Shape)
    requires Distinct(s') && Ptrs(s') !! (live - Ptrs(s)) && live' == live - Ptrs(s) + Ptrs(s')
    requires Kept(h, h', live - Ptrs(s) - Ptrs(v)) && KeptButArgs(h, h', Ptrs(v))
    ensures ListChanged(h, h', live, live', s, s', v)
  {
  }

  // ----- Changes taken note of -----

  /** The blocks of `b`, those of `ps` without a mark. */
  ghost predicate Unmarked(b: map<Ptr, Block>, b': map<Ptr, Block>, ps: set<Ptr>) {
    && b'.Keys == b.Keys
    && forall x :: x in b ==> b'[x] == b[x].(changed := b[x].changed && x !in ps)
  }

  method TakeNote(lib: Lwlib, wv: Ptr)
    requires lib.Valid() && wv in lib.live
    modifies lib
    ensures lib.Valid() && lib.live == old(lib.live)
    ensures wv in old(lib.nodes) && lib.nodes == old(lib.nodes)[wv := old(lib.nodes)[wv].(change := NoChange)]
    ensures Unmarked(old(lib.blocks), lib.blocks, {old(lib.nodes)[wv].args})
  {
    hide Counts, Memory;
    BlockOf(lib.nodes, lib.counted, lib.blocks, wv);
    lib.Store(wv, lib.nodes[wv].(change := NoChange));
    var b := lib.nodes[wv].args;
    if b != 0 {
      ghost var was := lib.blocks;
      CountsMark(lib.nodes, lib.counted, lib.blocks, b, false);
      lib.blocks := lib.blocks[b := lib.blocks[b].(changed := false)];
      MemorySame(lib.nodes, lib.nodes, lib.freeList, was, lib.blocks, lib.brk, lib.live);
    }
  }

  lemma NoteValues(g: Tree, r: Tree)
    requires r.Node?
    ensures var e := r.(change := NoChange, next := Nil);
            && JoinTree(g, Cleared(r)) == JoinTree(JoinTree(g, e), Cleared(r.next))
            && TopArgs(JoinTree(g, e)) == TopArgs(g) + {r.args}
  {
    var e := r.(change := NoChange, next := Nil);
    JoinAssoc(g, e, Cleared(r.next));
    assert JoinTree(e, Cleared(r.next)) == Cleared(r);
    JoinArgs(g, e);
    assert TopArgs(e) == {r.args};
  }

  lemma {:induction false} JoinArgs(a: Tree, b: Tree)
    ensures TopArgs(JoinTree(a, b)) == TopArgs(a) + TopArgs(b)
    decreases a
  {
    if a.Node? {
      JoinArgs(a.next, b);
    }
  }

  lemma {:induction false} ClearedArgs(t: Tree)
    ensures TopArgs(Cleared(t)) == TopArgs(t)
  {
    if t.Node? {
      ClearedArgs(t.next);
    }
  }

  lemma NotesStart(h: Heap, s: Shape, blocks: map<Ptr, Block>)
    ensures JoinTree(ValueOf(h, Leaf), Cleared(ValueOf(h, s))) == Cleared(ValueOf(h, s)) && Joined(Leaf, s) == s
    ensures Unmarked(blocks, blocks, TopArgs(ValueOf(h, Leaf)))
  {
  }

  lemma NotesEnd(g: Tree)
    ensures JoinTree(g, Cleared(Nil)) == g
  {
    JoinNil(g);
  }

  lemma UnmarkedMore(a: map<Ptr, Block>, b: map<Ptr, Block>, c: map<Ptr, Block>, ps: set<Ptr>, qs: set<Ptr>)
    requires Unmarked(a, b, ps) && Unmarked(b, c, qs)
    ensures Unmarked(a, c, ps + qs)
  {
  }

  lemma KeptOutside(h0: Heap, h: Heap, h': Heap, ps: set<Ptr>, p: Ptr)
    requires Kept(h0, h, h0.Keys - ps) && p in ps && forall q :: q in h && q != p ==> q in h' && h'[q] == h[q]
    ensures Kept(h0, h', h0.Keys - ps)
  {
  }

  /** The last loop of `update_all_widget_values`. */
  method ClearChanges(lib: Lwlib, head: Ptr, ghost s: Shape)
    requires lib.Valid() && Rep(lib.nodes, head, s) && Distinct(s) && Ptrs(s) <= lib.live
    modifies lib
    ensures lib.Valid() && lib.live == old(lib.live)
    ensures Rep(lib.nodes, head, s) && ValueOf(lib.nodes, s) == Cleared(ValueOf(old(lib.nodes), s))
    ensures Kept(old(lib.nodes), lib.nodes, old(lib.nodes).Keys - Ptrs(s))
    ensures Unmarked(old(lib.blocks), lib.blocks, TopArgs(ValueOf(old(lib.nodes), s)))
  {
    hide Rep, ValueOf, Linked, Joined, Ptrs, Memory, Counts, Distinct, Kept, JoinTree, Cleared, TopArgs, Unmarked;
    ghost var h0, blocks0 := lib.nodes, lib.blocks;
    ghost var a := ValueOf(h0, s);
    ghost var g, r := Leaf, s;
    var val := head;
    StartOfList(h0, head);
    NotesStart(h0, s, blocks0);
    KeptAll(h0, h0.Keys - Ptrs(s));
    RepTop(lib.nodes, val, r);
    while val != 0
      invariant lib.Valid() && lib.live == old(lib.live)
      invariant val != 0 <==> r.Branch?
      invariant s == Joined(g, r) && Linked(lib.nodes, head, g, val) && Rep(lib.nodes, val, r)
      invariant JoinTree(ValueOf(lib.nodes, g), Cleared(ValueOf(lib.nodes, r))) == Cleared(a)
      invariant Kept(h0, lib.nodes, h0.Keys - Ptrs(s))
      invariant Unmarked(blocks0, lib.blocks, TopArgs(ValueOf(lib.nodes, g)))
      decreases r
    {
      ghost var h, blocks, cur := lib.nodes, lib.blocks, val;
      PartOf(g, r);
      Apart(r);
      RepTop(h, val, r);
      ValueAlone(h, val, r.contents);
      NoteValues(ValueOf(h, g), ValueOf(h, r));
      TakeNote(lib, val);
      UnmarkedMore(blocks0, blocks, lib.blocks, TopArgs(ValueOf(h, g)), {h[val].args});
      val := lib.nodes[val].next;
      KeptOutside(h0, h, lib.nodes, Ptrs(s), cur);
      OneStored(h, lib.nodes, cur, Ptrs(g));
      OneStored(h, lib.nodes, cur, Ptrs(r.contents));
      OneStored(h, lib.nodes, cur, Ptrs(r.next));
      LinkedKept(h, lib.nodes, head, g, cur, Ptrs(g));
      TreeKept(h, lib.nodes, h[cur].contents, r.contents, Ptrs(r.contents));
      TreeKept(h, lib.nodes, val, r.next, Ptrs(r.next));
      ValueAlone(lib.nodes, cur, r.contents);
      OneTurned(lib.nodes, head, g, cur, r);
      g, r := Joined(g, Branch(cur, r.contents, Leaf)), r.next;
      RepTop(lib.nodes, val, r);
    }
    RepTop(lib.nodes, 0, r);
    NotesEnd(ValueOf(lib.nodes, g));
    ClearedArgs(a);
    JoinedPtrs(g, Leaf);
    LinkedJoin(lib.nodes, head, g, 0, Leaf);
  }

  lemma Apart(r: Shape)
    requires Distinct(r) && r.Branch?
    ensures r.at in Ptrs(r) && r.at !in Ptrs(r.contents) && r.at !in Ptrs(r.next)
    ensures r.at in Ptrs(Branch(r.at, r.contents, Leaf))
  {
  }

  /**
   * `lw_modify_all_widgets`, apart from showing the changes: each new entry is merged into the first entry of its
   * name or copied to the end, the list of new ones is what it was, and at the top no change is left to show.
   */
  method ModifyAllWidgets(lib: Lwlib, info: Ptr, val: Ptr, deep: bool, ghost s: Shape, ghost v: Shape)
    returns (head: Ptr, ghost s': Shape)
    requires lib.Valid()
    requires Rep(lib.nodes, info, s) && Distinct(s) && Ptrs(s) <= lib.live
    requires Rep(lib.nodes, val, v) && Distinct(v) && Ptrs(v) <= lib.live && Ptrs(s) !! Ptrs(v)
    modifies lib
    ensures lib.Valid()
    ensures Rep(lib.nodes, head, s') && Rep(lib.nodes, val, v)
    ensures ListChanged(old(lib.nodes), lib.nodes, old(lib.live), lib.live, s, s', v)
    ensures var a, b := ValueOf(old(lib.nodes), s), ValueOf(old(lib.nodes), v);
            var level, flagged := if deep then 1000 else 1, Marked(old(lib.blocks));
            && ValueOf(lib.nodes, s') == Cleared(ModifyAll(a, b, level, flagged))
            && ValueOf(lib.nodes, v) == FilledAll(a, b, level, flagged)
            && Marked(lib.blocks) == flagged * lib.blocks.Keys - TopArgs(ValueOf(lib.nodes, s'))
  {
    hide Rep, ValueOf, Ptrs, Memory, Counts, Distinct, BlocksKept, Marks, Cleared, TopArgs, Unmarked, ModifyAll, FilledAll;
    hide ListChanged, Kept;
    ghost var h, live := lib.nodes, lib.live;
    ghost var flagged := Marked(lib.blocks);
    MarksOf(lib.blocks);
    head, s' := ModifyList(lib, info, val, if deep then 1000 else 1, s, v, flagged);
    ghost var h1, blocks, list := lib.nodes, lib.blocks, ValueOf(lib.nodes, s');
    CellsThere(lib, h, live, s, s', v);
    ClearChanges(lib, head, s');
    ClearedArgs(list);
    TreeKept(h1, lib.nodes, val, v, h1.Keys - Ptrs(s'));
    NotedChanged(h, h1, lib.nodes, live, lib.live, s, s', v);
    MarksLeft(old(lib.blocks), blocks, lib.blocks, TopArgs(list));
  }

  /** The blocks that are marked as changed. */
  ghost function Marked(blocks: map<Ptr, Block>): (ps: set<Ptr>) {
    set b | b in blocks && blocks[b].changed
  }

  lemma MarksOf(blocks: map<Ptr, Block>)
    ensures Marks(blocks, Marked(blocks))
  {
  }

  lemma MarksLeft(a: map<Ptr, Block>, b: map<Ptr, Block>, c: map<Ptr, Block>, ps: set<Ptr>)
    requires BlocksKept(a, b) && Unmarked(b, c, ps)
    ensures Marked(c) == Marked(a) * c.Keys - ps
  {
  }

  lemma CellsThere(lib: Lwlib, h: Heap, live: set<Ptr>, s: Shape, s': Shape, v: Shape)
    requires lib.Valid() && ListChanged(h, lib.nodes, live, lib.live, s, s', v)
    requires Ptrs(v) <= live && Ptrs(s) !! Ptrs(v)
    ensures Distinct(s') && Ptrs(s') <= lib.live && Ptrs(v) <= lib.nodes.Keys - Ptrs(s')
  {
    hide Ptrs, Distinct, Counts;
  }

  lemma NotedChanged(h: Heap, h1: Heap, h2: Heap, live: set<Ptr>, live': set<Ptr>, s: Shape, s': Shape, v: Shape)
    requires ListChanged(h, h1, live, live', s, s', v) && Kept(h1, h2, h1.Keys - Ptrs(s')) && Ptrs(v) <= live && Ptrs(s) !! Ptrs(v)
    ensures ListChanged(h, h2, live, live', s, s', v)
  {
    hide Ptrs, Distinct;
  }
}
