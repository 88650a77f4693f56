/**
 * Trees of widget values as lwlib/lwlib.c merges them, as plain values: what merging two trees
 * gives, what it reports in the `change` slots, and why that report can be relied on.
 */
module WidgetSpec {
  import opened Options

  /** An address; 0 is the null pointer. */
  type Ptr = nat

  datatype Change = NoChange | InvisibleChange | VisibleChange | StructuralChange {
    function Rank(): nat {
      match this
      case NoChange => 0
      case InvisibleChange => 1
      case VisibleChange => 2
      case StructuralChange => 3
    }

    function Max(that: Change): (m: Change)
      ensures m == this || m == that
      ensures m.Rank() >= this.Rank() && m.Rank() >= that.Rank()
    {
      if this.Rank() >= that.Rank() then this else that
    }
  }

  /** What of an entry can be seen on the screen. */
  datatype Looks = Looks(value: Option<string>, key: Option<string>, accel: int, enabled: bool, selected: bool)

  /** The data of one entry. */
  datatype Item = Item(kind: int, name: Option<string>, looks: Looks, callData: int)

  /** A list of siblings, each with the list of its contents. */
  datatype Tree =
    | Nil
    | Node(item: Item, args: Ptr, change: Change, toolkit: Option<int>, contents: Tree, next: Tree)

  // ----- Copying and merging -----

  /** `copy_widget_value_tree`. */
  function Copy(t: Tree, change: Change): (c: Tree)
    ensures c.Nil? <==> t.Nil?
  {
    if t.Nil? then Nil
    else Node(t.item, t.args, change, None, Copy(t.contents, change), Copy(t.next, change))
  }

  /** The tests on the slots of one entry, in the order of the code. */
  function ItemChange(a: Item, b: Item): (c: Change) {
    var c := NoChange;
    var c := if a.kind != b.kind then c.Max(StructuralChange) else c;
    var c := if a.name != b.name then c.Max(StructuralChange) else c;
    var c := if a.looks.value != b.looks.value then c.Max(VisibleChange) else c;
    var c := if a.looks.key != b.looks.key then c.Max(VisibleChange) else c;
    var c := if a.looks.accel != b.looks.accel then c.Max(VisibleChange) else c;
    var c := if a.looks.enabled != b.looks.enabled then c.Max(VisibleChange) else c;
    var c := if a.looks.selected != b.looks.selected then c.Max(VisibleChange) else c;
    if a.callData != b.callData then c.Max(InvisibleChange) else c
  }

  /** `merge_widget_value_args`: whether the argument blocks count as changed, `flagged` being those marked so. */
  predicate ArgsChange(a: Ptr, b: Ptr, flagged: set<Ptr>) {
    a != b || (a != 0 && a in flagged)
  }

  function MergedArgs(a: Ptr, b: Ptr): (r: Ptr) {
    if b != 0 then b else a
  }

  function OwnChange(a: Tree, b: Tree, flagged: set<Ptr>): (c: Change)
    requires a.Node? && b.Node?
  {
    var c := ItemChange(a.item, b.item);
    if ArgsChange(a.args, b.args, flagged) then c.Max(VisibleChange) else c
  }

  function ContentsChange(c: Change, was: Tree, merged: Tree): (r: Change) {
    if was.Node? && merged.Nil? then c.Max(InvisibleChange)
    else if merged.Node? && merged.change != NoChange then c.Max(InvisibleChange)
    else c
  }

  function NextChange(c: Change, was: Tree, merged: Tree): (r: Change) {
    if was.Node? && merged.Nil? then c.Max(StructuralChange)
    else if merged.Node? then c.Max(merged.change)
    else c
  }

  /** `merge_widget_value`. */
  function Merge(a: Tree, b: Tree, level: int, flagged: set<Ptr>): (m: Tree)
    ensures m.Nil? <==> b.Nil?
    decreases a, b
  {
    if a.Nil? then Copy(b, StructuralChange)
    else if b.Nil? then Nil
    else
      var contents := if level > 0 then Merge(a.contents, b.contents, level - 1, flagged) else a.contents;
      var next := Merge(a.next, b.next, level, flagged);
      var own := OwnChange(a, b, flagged);
      var withContents := if level > 0 then ContentsChange(own, a.contents, contents) else own;
      var change := NextChange(withContents, a.next, next);
      Node(b.item, MergedArgs(a.args, b.args), change, if change != NoChange then None else a.toolkit, contents, next)
  }

  /** What merging leaves in the argument slots of the second tree: blocks only the first one had. */
  function Filled(a: Tree, b: Tree, level: int): (f: Tree)
    decreases a, b
  {
    if a.Nil? || b.Nil? then b
    else
      b.(args := MergedArgs(a.args, b.args),
         contents := if level > 0 then Filled(a.contents, b.contents, level - 1) else b.contents,
         next := Filled(a.next, b.next, level))
  }

  // ----- Convergence -----

  /** The data of a tree: neither its argument blocks nor what the library keeps in it. */
  datatype Data = Empty | Entry(item: Item, contents: Data, next: Data)

  function DataOf(t: Tree): (d: Data) {
    if t.Nil? then Empty else Entry(t.item, DataOf(t.contents), DataOf(t.next))
  }

  /** Contents are nested no deeper than `level`. */
  ghost predicate Within(t: Tree, level: int) {
    t.Node? ==> (level <= 0 ==> t.contents.Nil?) && Within(t.contents, level - 1) && Within(t.next, level)
  }

  /** Where both trees have an entry at the deepest level that is merged, its contents agree already. */
  ghost predicate AgreeBelow(a: Tree, b: Tree, level: int)
    decreases a, b
  {
    a.Node? && b.Node? ==>
      && (if level > 0 then AgreeBelow(a.contents, b.contents, level - 1) else DataOf(a.contents) == DataOf(b.contents))
      && AgreeBelow(a.next, b.next, level)
  }

  lemma {:induction false} CopyData(t: Tree, change: Change)
    ensures DataOf(Copy(t, change)) == DataOf(t)
  {
    if t.Node? {
      CopyData(t.contents, change);
      CopyData(t.next, change);
    }
  }

  /** Merging makes the first tree equal to the second exactly when they agree below the level it goes down to. */
  lemma {:induction false} MergeConverges(a: Tree, b: Tree, level: int, flagged: set<Ptr>)
    ensures DataOf(Merge(a, b, level, flagged)) == DataOf(b) <==> AgreeBelow(a, b, level)
    decreases a, b
  {
    if a.Nil? {
      CopyData(b, StructuralChange);
    } else if b.Node? {
      MergeConverges(a.next, b.next, level, flagged);
      if level > 0 {
        MergeConverges(a.contents, b.contents, level - 1, flagged);
      }
    }
  }

  lemma {:induction false} WithinAgree(a: Tree, b: Tree, level: int)
    requires Within(a, level) && Within(b, level)
    ensures AgreeBelow(a, b, level)
    decreases a, b
  {
    if a.Node? && b.Node? {
      WithinAgree(a.next, b.next, level);
      if level > 0 {
        WithinAgree(a.contents, b.contents, level - 1);
      }
    }
  }

  /** For trees nested no deeper than `level`, merging always makes them equal. */
  lemma MergeWithinConverges(a: Tree, b: Tree, level: int, flagged: set<Ptr>)
    requires Within(a, level) && Within(b, level)
    ensures DataOf(Merge(a, b, level, flagged)) == DataOf(b)
  {
    WithinAgree(a, b, level);
    MergeConverges(a, b, level, flagged);
  }

  // ----- Honest reports -----

  /** What the merge of `level` levels can see of a tree. */
  datatype View = Blank | Seen(item: Item, args: Ptr, contents: View, next: View)

  function ViewOf(t: Tree, level: int): (v: View) {
    if t.Nil? then Blank
    else Seen(t.item, t.args, if level > 0 then ViewOf(t.contents, level - 1) else Blank, ViewOf(t.next, level))
  }

  /** Types and names of a list of siblings. */
  function Names(t: Tree): (s: seq<(int, Option<string>)>) {
    if t.Nil? then [] else [(t.item.kind, t.item.name)] + Names(t.next)
  }

  /** The looks of a list of siblings, and their argument blocks. */
  function Faces(t: Tree): (s: seq<(Looks, Ptr)>) {
    if t.Nil? then [] else [(t.item.looks, t.args)] + Faces(t.next)
  }

  /** Some sibling has an argument block that is marked as changed. */
  predicate TopFlagged(t: Tree, flagged: set<Ptr>) {
    t.Node? && ((t.args != 0 && t.args in flagged) || TopFlagged(t.next, flagged))
  }

  /** Some entry that can be seen has an argument block that is marked as changed. */
  predicate Flagged(t: Tree, level: int, flagged: set<Ptr>) {
    t.Node? &&
    (|| (t.args != 0 && t.args in flagged)
     || (level > 0 && Flagged(t.contents, level - 1, flagged))
     || Flagged(t.next, level, flagged))
  }

  /** The severity of what happened to a list of siblings, said without merging. */
  function Report(a: Tree, b: Tree, level: int, flagged: set<Ptr>): (c: Change) {
    if Names(a) != Names(b) then StructuralChange
    else if Faces(a) != Faces(b) || TopFlagged(b, flagged) then VisibleChange
    else if ViewOf(a, level) != ViewOf(b, level) || Flagged(b, level, flagged) then InvisibleChange
    else NoChange
  }

  lemma {:induction false} SameViewSameTop(a: Tree, b: Tree, level: int)
    requires ViewOf(a, level) == ViewOf(b, level)
    ensures Names(a) == Names(b) && Faces(a) == Faces(b)
    decreases a, b
  {
    if a.Node? && b.Node? {
      SameViewSameTop(a.next, b.next, level);
    }
  }

  lemma {:induction false} TopFlaggedIsFlagged(t: Tree, level: int, flagged: set<Ptr>)
    requires TopFlagged(t, flagged)
    ensures Flagged(t, level, flagged)
  {
    if !(t.args != 0 && t.args in flagged) {
      TopFlaggedIsFlagged(t.next, level, flagged);
    }
  }

  /** No change is reported exactly if nothing that can be seen differs or is marked. */
  lemma NoneReported(a: Tree, b: Tree, level: int, flagged: set<Ptr>)
    ensures Report(a, b, level, flagged) == NoChange <==>
            ViewOf(a, level) == ViewOf(b, level) && !Flagged(b, level, flagged)
  {
    if ViewOf(a, level) == ViewOf(b, level) {
      SameViewSameTop(a, b, level);
    }
    if TopFlagged(b, flagged) {
      TopFlaggedIsFlagged(b, level, flagged);
    }
  }

  lemma ItemChangeIs(a: Item, b: Item)
    ensures ItemChange(a, b) ==
            if (a.kind, a.name) != (b.kind, b.name) then StructuralChange
            else if a.looks != b.looks then VisibleChange
            else if a.callData != b.callData then InvisibleChange
            else NoChange
  {
  }

  lemma NamesStep(a: Tree, b: Tree)
    requires a.Node? && b.Node?
    ensures Names(a) == Names(b) <==> (a.item.kind, a.item.name) == (b.item.kind, b.item.name) && Names(a.next) == Names(b.next)
    ensures Faces(a) == Faces(b) <==> (a.item.looks, a.args) == (b.item.looks, b.args) && Faces(a.next) == Faces(b.next)
  {
    assert Names(a)[1..] == Names(a.next) && Names(b)[1..] == Names(b.next);
    assert Faces(a)[1..] == Faces(a.next) && Faces(b)[1..] == Faces(b.next);
    assert Names(a)[0] == (a.item.kind, a.item.name) && Names(b)[0] == (b.item.kind, b.item.name);
    assert Faces(a)[0] == (a.item.looks, a.args) && Faces(b)[0] == (b.item.looks, b.args);
  }

  /** The change reported at the head of a merged list is the severity of what happened to the list. */
  lemma {:induction false} ReportIsHonest(a: Tree, b: Tree, level: int, flagged: set<Ptr>)
    requires b.Node?
    ensures Merge(a, b, level, flagged).change == Report(a, b, level, flagged)
    decreases a, b
  {
    if a.Nil? {
      assert Names(b)[0] == (b.item.kind, b.item.name);
    } else {
      ItemChangeIs(a.item, b.item);
      NamesStep(a, b);
      NoneReported(a.next, b.next, level, flagged);
      if b.next.Node? {
        ReportIsHonest(a.next, b.next, level, flagged);
      } else if a.next.Node? {
        assert Names(a.next)[0] == (a.next.item.kind, a.next.item.name);
      }
      if level > 0 {
        NoneReported(a.contents, b.contents, level - 1, flagged);
        if b.contents.Node? {
          ReportIsHonest(a.contents, b.contents, level - 1, flagged);
        }
      }
      StepReport(a, b, level, flagged);
    }
  }

  /** How the report on a list is put together from the first entry, its contents and the other siblings. */
  lemma StepReport(a: Tree, b: Tree, level: int, flagged: set<Ptr>)
    requires a.Node? && b.Node?
    ensures var r := Report(a.next, b.next, level, flagged);
            var c := if level > 0 then Report(a.contents, b.contents, level - 1, flagged) else NoChange;
            Report(a, b, level, flagged) ==
            OwnChange(a, b, flagged).Max(if c != NoChange then InvisibleChange else NoChange).Max(r)
  {
    ItemChangeIs(a.item, b.item);
    NamesStep(a, b);
    NoneReported(a.next, b.next, level, flagged);
    NoneReported(a, b, level, flagged);
    if level > 0 {
      NoneReported(a.contents, b.contents, level - 1, flagged);
    }
  }

  lemma {:induction false} CopyView(t: Tree, change: Change, level: int)
    ensures ViewOf(Copy(t, change), level) == ViewOf(t, level)
  {
    if t.Node? {
      CopyView(t.contents, change, level - 1);
      CopyView(t.next, change, level);
    }
  }

  /** As far down as it goes, a merge leaves both trees alike, argument blocks included. */
  lemma {:induction false} MergeFillsArgs(a: Tree, b: Tree, level: int, flagged: set<Ptr>)
    ensures ViewOf(Merge(a, b, level, flagged), level) == ViewOf(Filled(a, b, level), level)
    decreases a, b
  {
    if a.Nil? {
      CopyView(b, StructuralChange, level);
    } else if b.Node? {
      MergeFillsArgs(a.next, b.next, level, flagged);
      if level > 0 {
        MergeFillsArgs(a.contents, b.contents, level - 1, flagged);
      }
    }
  }

  // ----- Entry by entry -----

  /** Whose argument block an entry ends with: that of the new one if it has one, and else its own. */
  ghost predicate BlockChosen(a: Tree, b: Tree, args: Ptr)
    requires b.Node?
  {
    && (b.args != 0 ==> args == b.args)
    && (b.args == 0 ==> args == if a.Node? then a.args else 0)
  }

  /** `m` is what the list `a` becomes when `b` is merged into it. */
  ghost predicate Merged(a: Tree, b: Tree, m: Tree, level: int, flagged: set<Ptr>)
    decreases b
  {
    if b.Nil? then m.Nil?
    else
      && m.Node? && m.item == b.item && BlockChosen(a, b, m.args)
      && m.change == Report(a, b, level, flagged)
      && m.toolkit == (if a.Node? && m.change == NoChange then a.toolkit else None)
      && (if a.Node? && level <= 0 then m.contents == a.contents
          else Merged(if a.Node? then a.contents else Nil, b.contents, m.contents, level - 1, flagged))
      && Merged(if a.Node? then a.next else Nil, b.next, m.next, level, flagged)
  }

  lemma {:induction false} CopyIsMerged(b: Tree, level: int, flagged: set<Ptr>)
    ensures Merged(Nil, b, Copy(b, StructuralChange), level, flagged)
  {
    if b.Node? {
      CopyIsMerged(b.contents, level - 1, flagged);
      CopyIsMerged(b.next, level, flagged);
      assert Names(b)[0] == (b.item.kind, b.item.name);
    }
  }

  /** At every level, data, blocks, changes and toolkit data of each entry are what they should be. */
  lemma {:induction false} MergeIsMerged(a: Tree, b: Tree, level: int, flagged: set<Ptr>)
    ensures Merged(a, b, Merge(a, b, level, flagged), level, flagged)
    decreases b
  {
    if b.Node? {
      hide Report;
      if a.Nil? {
        CopyIsMerged(b, level, flagged);
      } else {
        MergeIsMerged(a.next, b.next, level, flagged);
        if level > 0 {
          MergeIsMerged(a.contents, b.contents, level - 1, flagged);
        }
        ReportIsHonest(a, b, level, flagged);
      }
    }
  }

  /** What becomes of the new tree: it takes over the blocks of its partners, and nothing else. */
  ghost predicate TakenOver(a: Tree, b: Tree, f: Tree, level: int)
    decreases b
  {
    if a.Nil? || b.Nil? then f == b
    else
      && f.Node? && f == b.(args := f.args, contents := f.contents, next := f.next) && BlockChosen(a, b, f.args)
      && (if level <= 0 then f.contents == b.contents else TakenOver(a.contents, b.contents, f.contents, level - 1))
      && TakenOver(a.next, b.next, f.next, level)
  }

  lemma {:induction false} FilledIsTakenOver(a: Tree, b: Tree, level: int)
    ensures TakenOver(a, b, Filled(a, b, level), level)
    decreases b
  {
    if a.Node? && b.Node? {
      FilledIsTakenOver(a.next, b.next, level);
      if level > 0 {
        FilledIsTakenOver(a.contents, b.contents, level - 1);
      }
    }
  }

  /** Every entry that can be seen has an argument block. */
  ghost predicate AllBlocks(t: Tree, level: int) {
    t.Node? ==> t.args != 0 && (level > 0 ==> AllBlocks(t.contents, level - 1)) && AllBlocks(t.next, level)
  }

  lemma {:induction false} MergedView(a: Tree, b: Tree, m: Tree, level: int, flagged: set<Ptr>)
    requires Merged(a, b, m, level, flagged) && AllBlocks(b, level)
    ensures ViewOf(m, level) == ViewOf(b, level)
    decreases b
  {
    if b.Node? {
      hide Report;
      MergedView(if a.Node? then a.next else Nil, b.next, m.next, level, flagged);
      if level > 0 {
        MergedView(if a.Node? then a.contents else Nil, b.contents, m.contents, level - 1, flagged);
      }
    }
  }

  /** A tree of entries with arguments is all that can be seen afterwards: no old argument block is left in sight. */
  lemma NewBlocksWin(a: Tree, b: Tree, level: int, flagged: set<Ptr>)
    requires AllBlocks(b, level)
    ensures ViewOf(Merge(a, b, level, flagged), level) == ViewOf(b, level) == ViewOf(Filled(a, b, level), level)
  {
    MergeIsMerged(a, b, level, flagged);
    MergedView(a, b, Merge(a, b, level, flagged), level, flagged);
    MergeFillsArgs(a, b, level, flagged);
  }

  /** Merging the same tree a second time reports nothing, unless a block is marked as changed. */
  lemma SecondMergeIsQuiet(a: Tree, b: Tree, level: int, flagged: set<Ptr>)
    requires b.Node? && !Flagged(Filled(a, b, level), level, flagged)
    ensures Filled(a, b, level).Node?
    ensures Merge(Merge(a, b, level, flagged), Filled(a, b, level), level, flagged).change == NoChange
  {
    MergeFillsArgs(a, b, level, flagged);
    ReportIsHonest(Merge(a, b, level, flagged), Filled(a, b, level), level, flagged);
    NoneReported(Merge(a, b, level, flagged), Filled(a, b, level), level, flagged);
  }

  /**
   * Two entries that differ in the contents of their contents: merging down to one level, as a caller may ask, leaves
   * the first one what it had there.
   */
  lemma ContentsBelowLost(flagged: set<Ptr>)
    ensures var x := Item(0, None, Looks(None, None, 0, false, false), 0);
            var inner: Tree := Node(x, 0, NoChange, None, Nil, Nil);
            var a, b: Tree := Node(x, 0, NoChange, None, Node(x, 0, NoChange, None, inner, Nil), Nil),
                              Node(x, 0, NoChange, None, inner, Nil);
            !AgreeBelow(a, b, 1) && DataOf(Merge(a, b, 1, flagged)) == DataOf(a) != DataOf(b)
  {
    var x := Item(0, None, Looks(None, None, 0, false, false), 0);
    var inner := Node(x, 0, NoChange, None, Nil, Nil);
    var opens := Node(x, 0, NoChange, None, inner, Nil);
    var a, b := Node(x, 0, NoChange, None, opens, Nil), Node(x, 0, NoChange, None, inner, Nil);
    MergeConverges(a, b, 1, flagged);
    assert Merge(opens, inner, 0, flagged).contents == inner;
    assert Merge(a, b, 1, flagged).contents == Merge(opens, inner, 0, flagged);
  }
}
