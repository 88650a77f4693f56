/**
 * `lw_modify_all_widgets` of lwlib/lwlib.c on plain values: the entries of one list are merged, each by its name,
 * into the entries of another.
 */
module WidgetModifySpec {
  import opened Options
  import opened WidgetSpec

  /** The list `a` with the list `b` behind it. */
  function JoinTree(a: Tree, b: Tree): (t: Tree) {
    if a.Nil? then b else a.(next := JoinTree(a.next, b))
  }

  function TopNames(t: Tree): (s: seq<Option<string>>) {
    if t.Nil? then [] else [t.item.name] + TopNames(t.next)
  }

  /** One new entry: it is merged into the first entry of its name, alone, or copied to the end. */
  function ModifyOne(list: Tree, e: Tree, level: int, flagged: set<Ptr>): (m: Tree)
    requires e.Node?
    ensures m.Node?
  {
    if list.Nil? then Copy(e, StructuralChange)
    else if list.item.name == e.item.name then
      var m := Merge(list.(next := Nil), e, level, flagged);
      assert m.Node?;
      m.(next := list.next)
    else list.(next := ModifyOne(list.next, e, level, flagged))
  }

  /** What becomes of the new entry: it takes over argument blocks. */
  function FilledOne(list: Tree, e: Tree, level: int): (f: Tree)
    requires e.Node?
    ensures f.Node?
  {
    if list.Nil? then e
    else if list.item.name == e.item.name then Filled(list.(next := Nil), e, level)
    else FilledOne(list.next, e, level)
  }

  function ModifyAll(list: Tree, val: Tree, level: int, flagged: set<Ptr>): (m: Tree)
    decreases val
  {
    if val.Nil? then list
    else ModifyAll(ModifyOne(list, val.(next := Nil), level, flagged), val.next, level, flagged)
  }

  function FilledAll(list: Tree, val: Tree, level: int, flagged: set<Ptr>): (f: Tree)
    decreases val
  {
    if val.Nil? then Nil
    else
      var e := val.(next := Nil);
      FilledOne(list, e, level).(next := FilledAll(ModifyOne(list, e, level, flagged), val.next, level, flagged))
  }

  /** The list with its changes taken note of. */
  function Cleared(t: Tree): (c: Tree) {
    if t.Nil? then Nil else t.(change := NoChange, next := Cleared(t.next))
  }

  /** The argument slots of the entries themselves. */
  function TopArgs(t: Tree): (ps: set<Ptr>) {
    if t.Nil? then {} else {t.args} + TopArgs(t.next)
  }

  /** Behind entries of other names. */
  lemma {:induction false} ModifyBehind(a: Tree, b: Tree, e: Tree, level: int, flagged: set<Ptr>)
    requires e.Node? && e.item.name !in TopNames(a)
    ensures ModifyOne(JoinTree(a, b), e, level, flagged) == JoinTree(a, ModifyOne(b, e, level, flagged))
    ensures FilledOne(JoinTree(a, b), e, level) == FilledOne(b, e, level)
    decreases a
  {
    if a.Node? {
      ModifyBehind(a.next, b, e, level, flagged);
    }
  }

  lemma {:induction false} JoinNil(a: Tree)
    ensures JoinTree(a, Nil) == a
  {
    if a.Node? {
      JoinNil(a.next);
    }
  }

  lemma {:induction false} JoinAssoc(a: Tree, b: Tree, c: Tree)
    ensures JoinTree(JoinTree(a, b), c) == JoinTree(a, JoinTree(b, c))
    ensures TopNames(JoinTree(a, b)) == TopNames(a) + TopNames(b)
    decreases a
  {
    if a.Node? {
      JoinAssoc(a.next, b, c);
    }
  }

  // ----- Which entries there are -----

  /** The names that are not there yet, each once, in order. */
  function Unknown(names: seq<Option<string>>, more: seq<Option<string>>): (r: seq<Option<string>>)
    decreases |more|
  {
    if more == [] then []
    else if more[0] in names then Unknown(names, more[1..])
    else [more[0]] + Unknown(names + [more[0]], more[1..])
  }

  lemma {:induction false} OneName(list: Tree, e: Tree, level: int, flagged: set<Ptr>)
    requires e.Node? && e.next.Nil?
    ensures var names := TopNames(list);
            TopNames(ModifyOne(list, e, level, flagged)) == if e.item.name in names then names else names + [e.item.name]
    decreases list
  {
    if list.Nil? {
      assert TopNames(Copy(e, StructuralChange)) == [e.item.name];
    } else if list.item.name != e.item.name {
      OneName(list.next, e, level, flagged);
    }
  }

  /** No entry goes, and the unknown ones come to the end, in order. */
  lemma {:induction false} AllNames(list: Tree, val: Tree, level: int, flagged: set<Ptr>)
    ensures TopNames(ModifyAll(list, val, level, flagged)) == TopNames(list) + Unknown(TopNames(list), TopNames(val))
    decreases val
  {
    if val.Node? {
      var e := val.(next := Nil);
      OneName(list, e, level, flagged);
      AllNames(ModifyOne(list, e, level, flagged), val.next, level, flagged);
      assert TopNames(val)[1..] == TopNames(val.next);
    } else {
      assert TopNames(list) + [] == TopNames(list);
    }
  }

  // ----- What becomes of each entry -----

  /** The entry at place `i`, by itself. */
  function EntryAt(t: Tree, i: nat): (e: Tree)
    requires i < |TopNames(t)|
    ensures e.Node? && e.next.Nil? && e.item.name == TopNames(t)[i]
  {
    if i == 0 then t.(next := Nil) else EntryAt(t.next, i - 1)
  }

  /** The first entry of a name. */
  function PlaceOf(names: seq<Option<string>>, name: Option<string>): (i: nat)
    ensures i <= |names| && (i < |names| <==> name in names)
    ensures i < |names| ==> names[i] == name && name !in names[..i]
  {
    if names == [] then 0
    else if names[0] == name then 0
    else
      var i := PlaceOf(names[1..], name);
      assert names[..i + 1] == [names[0]] + names[1..][..i];
      i + 1
  }

  lemma {:induction false} OneEntry(list: Tree, e: Tree, level: int, flagged: set<Ptr>, i: nat)
    requires e.Node? && e.next.Nil? && i < |TopNames(ModifyOne(list, e, level, flagged))|
    ensures var m, k := ModifyOne(list, e, level, flagged), PlaceOf(TopNames(list), e.item.name);
            EntryAt(m, i) ==
            if i != k then (if i < |TopNames(list)| then EntryAt(list, i) else EntryAt(m, i))
            else if i < |TopNames(list)| then Merge(EntryAt(list, i), e, level, flagged)
            else Copy(e, StructuralChange)
    decreases list
  {
    var m := ModifyOne(list, e, level, flagged);
    if list.Nil? {
      assert TopNames(m) == [e.item.name];
    } else if list.item.name == e.item.name {
      assert TopNames(m)[1..] == TopNames(list.next);
    } else {
      assert TopNames(m)[1..] == TopNames(m.next) && TopNames(list)[1..] == TopNames(list.next);
      if i > 0 {
        OneEntry(list.next, e, level, flagged, i - 1);
      }
    }
  }

  /** An entry whose name is not among the new ones, or not the first of its name, is left alone. */
  lemma {:induction false} OthersLeft(list: Tree, val: Tree, level: int, flagged: set<Ptr>, i: nat)
    requires i < |TopNames(list)|
    requires TopNames(list)[i] !in TopNames(val) || TopNames(list)[i] in TopNames(list)[..i]
    ensures i < |TopNames(ModifyAll(list, val, level, flagged))|
    ensures EntryAt(ModifyAll(list, val, level, flagged), i) == EntryAt(list, i)
    decreases val
  {
    AllNames(list, val, level, flagged);
    if val.Node? {
      var e := val.(next := Nil);
      var m := ModifyOne(list, e, level, flagged);
      OneName(list, e, level, flagged);
      OneEntry(list, e, level, flagged, i);
      assert TopNames(m)[..i] == TopNames(list)[..i];
      OthersLeft(m, val.next, level, flagged, i);
    }
  }

  /** Every entry of the list is nested no deeper than `level`. */
  ghost predicate EachWithin(t: Tree, level: int) {
    t.Node? ==> Within(t.(next := Nil), level) && EachWithin(t.next, level)
  }

  lemma {:induction false} EntryWithin(t: Tree, level: int, i: nat)
    requires EachWithin(t, level) && i < |TopNames(t)|
    ensures Within(EntryAt(t, i), level)
  {
    if i > 0 {
      EntryWithin(t.next, level, i - 1);
    }
  }

  lemma {:induction false} CopyWithin(t: Tree, level: int, change: Change)
    requires Within(t, level)
    ensures Within(Copy(t, change), level)
    decreases t
  {
    if t.Node? {
      CopyWithin(t.contents, level - 1, change);
      CopyWithin(t.next, level, change);
    }
  }

  lemma {:induction false} MergeWithin(a: Tree, b: Tree, level: int, flagged: set<Ptr>)
    requires Within(a, level) && Within(b, level)
    ensures Within(Merge(a, b, level, flagged), level)
    decreases a, b
  {
    if a.Nil? {
      CopyWithin(b, level, StructuralChange);
    } else if b.Node? {
      MergeWithin(a.next, b.next, level, flagged);
      if level > 0 {
        MergeWithin(a.contents, b.contents, level - 1, flagged);
      }
    }
  }

  lemma {:induction false} OneWithin(list: Tree, e: Tree, level: int, flagged: set<Ptr>)
    requires EachWithin(list, level) && e.Node? && e.next.Nil? && Within(e, level)
    ensures EachWithin(ModifyOne(list, e, level, flagged), level)
    decreases list
  {
    if list.Nil? {
      CopyWithin(e, level, StructuralChange);
    } else if list.item.name == e.item.name {
      MergeWithin(list.(next := Nil), e, level, flagged);
    } else {
      OneWithin(list.next, e, level, flagged);
    }
  }

  /** The entries of a list have different names. */
  ghost predicate Unlike(t: Tree) {
    t.Node? ==> t.item.name !in TopNames(t.next) && Unlike(t.next)
  }

  /** Each new entry is then there, the first of its name, with all its data. */
  lemma {:induction false} NewOnesThere(list: Tree, val: Tree, level: int, flagged: set<Ptr>, j: nat)
    requires EachWithin(list, level) && EachWithin(val, level) && Unlike(val) && j < |TopNames(val)|
    ensures var m := ModifyAll(list, val, level, flagged);
            var i := PlaceOf(TopNames(m), TopNames(val)[j]);
            i < |TopNames(m)| && DataOf(EntryAt(m, i)) == DataOf(EntryAt(val, j))
    decreases val
  {
    hide ModifyOne, Merge, DataOf, Within, TopNames, EntryAt, PlaceOf;
    TopStep(val, j);
    var e := val.(next := Nil);
    var m := ModifyOne(list, e, level, flagged);
    assert ModifyAll(list, val, level, flagged) == ModifyAll(m, val.next, level, flagged);
    hide ModifyAll;
    if j > 0 {
      OneWithin(list, e, level, flagged);
      NewOnesThere(m, val.next, level, flagged, j - 1);
    } else {
      FirstThere(list, e, level, flagged);
      FirstStays(m, val.next, level, flagged, PlaceOf(TopNames(list), e.item.name));
    }
  }

  lemma TopStep(t: Tree, i: nat)
    requires i < |TopNames(t)|
    ensures t.Node? && |TopNames(t)| == 1 + |TopNames(t.next)| && t.item.name == TopNames(t)[0]
    ensures i == 0 ==> EntryAt(t, i) == t.(next := Nil)
    ensures i > 0 ==> EntryAt(t, i) == EntryAt(t.next, i - 1) && TopNames(t)[i] == TopNames(t.next)[i - 1]
  {
  }

  /** The first entry of a name that none of the new ones has stays what it is, and the first. */
  lemma FirstStays(list: Tree, val: Tree, level: int, flagged: set<Ptr>, i: nat)
    requires i < |TopNames(list)| && TopNames(list)[i] !in TopNames(val) && TopNames(list)[i] !in TopNames(list)[..i]
    ensures var m := ModifyAll(list, val, level, flagged);
            && PlaceOf(TopNames(m), TopNames(list)[i]) == i < |TopNames(m)|
            && EntryAt(m, i) == EntryAt(list, i)
  {
    hide ModifyAll, EntryAt, TopNames, PlaceOf, Unknown;
    AllNames(list, val, level, flagged);
    OthersLeft(list, val, level, flagged, i);
    var names := TopNames(ModifyAll(list, val, level, flagged));
    assert names[..i] == TopNames(list)[..i];
    PlaceIs(names, TopNames(list)[i], i);
  }

  lemma PlaceIs(names: seq<Option<string>>, name: Option<string>, i: nat)
    requires i < |names| && names[i] == name && name !in names[..i]
    ensures PlaceOf(names, name) == i
  {
    var k := PlaceOf(names, name);
    assert forall j :: 0 <= j < i ==> names[..i][j] == names[j];
    assert forall j :: 0 <= j < k ==> names[..k][j] == names[j];
  }

  lemma FirstThere(list: Tree, e: Tree, level: int, flagged: set<Ptr>)
    requires EachWithin(list, level) && e.Node? && e.next.Nil? && Within(e, level)
    ensures var m, i := ModifyOne(list, e, level, flagged), PlaceOf(TopNames(list), e.item.name);
            && i < |TopNames(m)| && TopNames(m)[i] == e.item.name && e.item.name !in TopNames(m)[..i]
            && DataOf(EntryAt(m, i)) == DataOf(e)
  {
    var m, i := ModifyOne(list, e, level, flagged), PlaceOf(TopNames(list), e.item.name);
    OneName(list, e, level, flagged);
    assert TopNames(m)[..i] == TopNames(list)[..i];
    OneEntry(list, e, level, flagged, i);
    if i < |TopNames(list)| {
      EntryWithin(list, level, i);
      MergeWithinConverges(EntryAt(list, i), e, level, flagged);
    } else {
      CopyData(e, StructuralChange);
    }
  }

  /** One step leaves the first entry of another name alone, and where it was among the old ones. */
  lemma FirstKept(list: Tree, e: Tree, level: int, flagged: set<Ptr>, name: Option<string>)
    requires e.Node? && e.next.Nil? && name != e.item.name
    ensures var m, i := ModifyOne(list, e, level, flagged), PlaceOf(TopNames(list), name);
            var i' := PlaceOf(TopNames(m), name);
            && (i < |TopNames(list)| <==> i' < |TopNames(m)|)
            && (i < |TopNames(list)| ==> i' == i && EntryAt(m, i) == EntryAt(list, i))
  {
    hide ModifyOne, EntryAt, PlaceOf;
    var m, i := ModifyOne(list, e, level, flagged), PlaceOf(TopNames(list), name);
    OneName(list, e, level, flagged);
    if i < |TopNames(list)| {
      assert TopNames(m)[..i] == TopNames(list)[..i];
      PlaceIs(TopNames(m), name, i);
      PlaceOther(TopNames(list), name, e.item.name);
      OneEntry(list, e, level, flagged, i);
    }
  }

  lemma PlaceOther(names: seq<Option<string>>, a: Option<string>, b: Option<string>)
    requires a != b && a in names
    ensures PlaceOf(names, a) != PlaceOf(names, b)
  {
  }

  /** The entry of a name before a modification; none if there is none. */
  function FirstOf(t: Tree, name: Option<string>): (e: Tree) {
    var i := PlaceOf(TopNames(t), name);
    if i < |TopNames(t)| then EntryAt(t, i) else Nil
  }

  /**
   * Each new entry, whatever its depth: the first entry of its name is then what merging makes of the entry that had this
   * name, or of none.  Above all its argument block is that of the new entry if it has one, and else the old one.
   */
  lemma {:induction false} NewOnesMerged(list: Tree, val: Tree, level: int, flagged: set<Ptr>, j: nat)
    requires Unlike(val) && j < |TopNames(val)|
    ensures var m, name := ModifyAll(list, val, level, flagged), TopNames(val)[j];
            FirstOf(m, name).Node? && Merged(FirstOf(list, name), EntryAt(val, j), FirstOf(m, name), level, flagged)
    decreases val
  {
    hide ModifyOne, Merge, Merged, TopNames, EntryAt, PlaceOf;
    TopStep(val, j);
    var e := val.(next := Nil);
    var m := ModifyOne(list, e, level, flagged);
    assert ModifyAll(list, val, level, flagged) == ModifyAll(m, val.next, level, flagged);
    hide ModifyAll;
    if j > 0 {
      NewOnesMerged(m, val.next, level, flagged, j - 1);
      FirstKept(list, e, level, flagged, TopNames(val)[j]);
    } else {
      FirstMerged(list, e, level, flagged);
      FirstStays(m, val.next, level, flagged, PlaceOf(TopNames(list), e.item.name));
    }
  }

  lemma FirstMerged(list: Tree, e: Tree, level: int, flagged: set<Ptr>)
    requires e.Node? && e.next.Nil?
    ensures var m, i := ModifyOne(list, e, level, flagged), PlaceOf(TopNames(list), e.item.name);
            && i < |TopNames(m)| && TopNames(m)[i] == e.item.name && e.item.name !in TopNames(m)[..i]
            && Merged(FirstOf(list, e.item.name), e, EntryAt(m, i), level, flagged)
  {
    hide Merged;
    var m, i := ModifyOne(list, e, level, flagged), PlaceOf(TopNames(list), e.item.name);
    OneName(list, e, level, flagged);
    assert TopNames(m)[..i] == TopNames(list)[..i];
    OneEntry(list, e, level, flagged, i);
    if i < |TopNames(list)| {
      MergeIsMerged(EntryAt(list, i), e, level, flagged);
    } else {
      CopyIsMerged(e, level, flagged);
    }
  }

  lemma {:induction false} FilledNames(list: Tree, val: Tree, level: int, flagged: set<Ptr>)
    ensures TopNames(FilledAll(list, val, level, flagged)) == TopNames(val)
    decreases val
  {
    if val.Node? {
      var e := val.(next := Nil);
      FilledName(list, e, level);
      FilledNames(ModifyOne(list, e, level, flagged), val.next, level, flagged);
    }
  }

  lemma {:induction false} FilledName(list: Tree, e: Tree, level: int)
    requires e.Node?
    ensures FilledOne(list, e, level).item == e.item
    decreases list
  {
    if list.Node? && list.item.name != e.item.name {
      FilledName(list.next, e, level);
    }
  }

  lemma {:induction false} FilledFirst(list: Tree, e: Tree, level: int)
    requires e.Node? && e.next.Nil?
    ensures TakenOver(FirstOf(list, e.item.name), e, FilledOne(list, e, level), level)
    ensures FilledOne(list, e, level).next.Nil?
    decreases list
  {
    var a := FirstOf(list, e.item.name);
    if list.Node? {
      if list.item.name == e.item.name {
        assert a == list.(next := Nil);
        FilledIsTakenOver(a, e, level);
      } else {
        FilledFirst(list.next, e, level);
        assert TopNames(list)[1..] == TopNames(list.next);
        assert a == FirstOf(list.next, e.item.name);
      }
    }
  }

  /** Each new entry is then what it was, but for argument blocks it has taken over from the entry of its name. */
  lemma {:induction false} NewOnesKept(list: Tree, val: Tree, level: int, flagged: set<Ptr>, j: nat)
    requires Unlike(val) && j < |TopNames(val)|
    ensures var f := FilledAll(list, val, level, flagged);
            && TopNames(f) == TopNames(val)
            && TakenOver(FirstOf(list, TopNames(val)[j]), EntryAt(val, j), EntryAt(f, j), level)
    decreases val
  {
    hide ModifyOne, FilledOne, TakenOver, EntryAt, PlaceOf;
    FilledNames(list, val, level, flagged);
    TopStep(val, j);
    var e, f := val.(next := Nil), FilledAll(list, val, level, flagged);
    var m := ModifyOne(list, e, level, flagged);
    TopStep(f, j);
    if j > 0 {
      NewOnesKept(m, val.next, level, flagged, j - 1);
      FirstKept(list, e, level, flagged, TopNames(val)[j]);
    } else {
      FilledFirst(list, e, level);
    }
  }

  /** Only the entries themselves are told that there is no change; what is below them is left as it is. */
  lemma {:induction false} OnlyTopCleared(t: Tree, i: nat)
    requires i < |TopNames(t)|
    ensures TopNames(Cleared(t)) == TopNames(t)
    ensures var e := EntryAt(t, i);
            e.Node? && EntryAt(Cleared(t), i) == e.(change := NoChange)
  {
    if i > 0 {
      OnlyTopCleared(t.next, i - 1);
    } else if t.next.Node? {
      OnlyTopCleared(t.next, 0);
    }
  }
}
