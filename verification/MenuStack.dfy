/**
 * The stacks of open menus in lwlib/xlwmenu.c: the one that is shown, the one that is wanted, the
 * reconciler that maps and unmaps menu windows, and the pointer events and keyboard commands that call it.
 * Drawing is left out; the menu tree stays as it is.
 */
module MenuStack {
  /** An entry of the menu tree. */
  type Entry = nat

  /** The menu tree: the entries that each entry opens. */
  type Menu = map<Entry, set<Entry>>

  predicate HasContents(menu: Menu, e: Entry) {
    e in menu && menu[e] != {}
  }

  /** A way down the menu tree. */
  ghost predicate Path(menu: Menu, s: seq<Entry>) {
    forall i :: 0 <= i < |s| - 1 ==> s[i] in menu && s[i + 1] in menu[s[i]]
  }

  /**
   * What a full redraw would have mapped, the menu bar itself apart: a window for each entry that opens
   * something, though with accelerators on not for the last one.
   */
  ghost function Shown(menu: Menu, s: seq<Entry>, accelerate: bool): (w: set<int>) {
    set i: int | 1 <= i < |s| && HasContents(menu, s[i]) && !(accelerate && i == |s| - 1)
  }

  /** Turning accelerators off when the last menu was left closed by them, and is still wanted. */
  ghost predicate Stuck(menu: Menu, was: seq<Entry>, wanted: seq<Entry>, before: bool, accelerate: bool) {
    && before && !accelerate
    && |was| >= 2 && was <= wanted && HasContents(menu, was[|was| - 1])
  }

  /** The two stacks agree up to place `j`. */
  ghost predicate StaysAt(was: seq<Entry>, wanted: seq<Entry>, j: int) {
    0 <= j < |was| && j < |wanted| && was[..j + 1] == wanted[..j + 1]
  }

  /**
   * The windows that are missing after a remapping: the one that gets stuck, and those that were missing already, are
   * still wanted in their places, and are not opened again because accelerators had closed the last menu.
   */
  ghost function StillMissing(menu: Menu, was: seq<Entry>, wanted: seq<Entry>, before: bool, accelerate: bool, missing: set<int>): (w: set<int>) {
    (set j | j in missing && StaysAt(was, wanted, j) && j in Shown(menu, wanted, accelerate) && !(accelerate && j == |was| - 1))
    + if Stuck(menu, was, wanted, before, accelerate) then {|was| - 1} else {}
  }

  /** When a window goes missing, and when it comes back or is not wanted any more. */
  lemma MissingChanges(menu: Menu, was: seq<Entry>, wanted: seq<Entry>, before: bool, accelerate: bool, missing: set<int>, j: int)
    requires missing <= Shown(menu, was, before)
    ensures var still := StillMissing(menu, was, wanted, before, accelerate, missing);
            && still <= Shown(menu, wanted, accelerate)
            && (j !in missing ==> (j in still <==> j == |was| - 1 && Stuck(menu, was, wanted, before, accelerate)))
            && (j in missing ==>
                  (j in still <==> StaysAt(was, wanted, j) && j in Shown(menu, wanted, accelerate) && !(accelerate && j == |was| - 1)))
  {
  }

  /** Without accelerators no window ever goes missing. */
  lemma NoneMissing(menu: Menu, was: seq<Entry>, wanted: seq<Entry>)
    ensures StillMissing(menu, was, wanted, false, false, {}) == {}
  {
  }

  /** The windows after the loop that pops up menus from place `first` on. */
  ghost predicate PoppedUp(menu: Menu, wanted: seq<Entry>, first: int, accelerate: bool, m0: set<int>, m1: set<int>) {
    forall i :: i in m1 <==>
      i in m0 || (first <= i < |wanted| && !(accelerate && i == |wanted| - 1)
                  && forall j :: first <= j <= i && 0 <= j < |wanted| ==> HasContents(menu, wanted[j]))
  }

  /** The windows after the loop that unmaps those from place `last - 1` up to `depth`. */
  ghost predicate PoppedDown(menu: Menu, wanted: seq<Entry>, last: int, depth: int, m1: set<int>, m2: set<int>) {
    forall i :: i in m2 <==>
      i in m1 && !(last - 1 <= i < depth && (i >= last || (0 <= i < |wanted| && !HasContents(menu, wanted[i]))))
  }

  /** On a way down the tree, only the last entry can have no contents. */
  lemma PathHasContents(menu: Menu, s: seq<Entry>, i: int)
    requires Path(menu, s) && 0 <= i < |s| - 1
    ensures HasContents(menu, s[i])
  {
    assert s[i + 1] in menu[s[i]];
  }

  /** On a way down the tree, popping up stops only at the end. */
  lemma PoppedUpOnPath(menu: Menu, wanted: seq<Entry>, first: int, accelerate: bool, m0: set<int>, m1: set<int>, i: int)
    requires Path(menu, wanted) && PoppedUp(menu, wanted, first, accelerate, m0, m1) && first >= 1
    ensures i in m1 <==>
            i in m0 || (first <= i < |wanted| && !(accelerate && i == |wanted| - 1) && HasContents(menu, wanted[i]))
  {
    hide HasContents, Path;
    if first <= i < |wanted| && HasContents(menu, wanted[i]) {
      forall j | first <= j <= i && 0 <= j < |wanted| ensures HasContents(menu, wanted[j]) {
        if j < i {
          PathHasContents(menu, wanted, j);
        }
      }
    }
  }

  lemma ShownAt(menu: Menu, s: seq<Entry>, accelerate: bool, i: int)
    ensures i in Shown(menu, s, accelerate) <==>
            1 <= i < |s| && HasContents(menu, s[i]) && !(accelerate && i == |s| - 1)
  {
  }

  lemma PoppedDownAt(menu: Menu, wanted: seq<Entry>, last: int, depth: int, m1: set<int>, m2: set<int>, i: int)
    requires PoppedDown(menu, wanted, last, depth, m1, m2)
    ensures i in m2 <==>
            i in m1 && !(last - 1 <= i < depth && (i >= last || (0 <= i < |wanted| && !HasContents(menu, wanted[i]))))
  {
  }

  /** Popping up from where the stacks part and popping down from the end gives what a full redraw would. */
  lemma Reconciled(menu: Menu, was: seq<Entry>, wanted: seq<Entry>, k: int, first: int, last: int,
                   accelerate: bool, before: bool, missing: set<int>, m0: set<int>, m1: set<int>, m2: set<int>, i: int)
    requires Path(menu, was) && Path(menu, wanted)
    requires 0 <= k < |was| && k < |wanted| && was[..k + 1] == wanted[..k + 1]
    requires k + 1 < |was| && k + 1 < |wanted| ==> was[k + 1] != wanted[k + 1]
    requires first == if accelerate && k != 0 && k == |was| - 1 && HasContents(menu, was[k]) then k else k + 1
    requires last == if accelerate && |wanted| > 1 && HasContents(menu, wanted[|wanted| - 1]) then |wanted| - 1 else |wanted|
    requires m0 == Shown(menu, was, before) - missing && missing <= Shown(menu, was, before)
    requires PoppedUp(menu, wanted, first, accelerate, m0, m1)
    requires PoppedDown(menu, wanted, last, |was|, m1, m2)
    ensures i in m2 <==>
            i in Shown(menu, wanted, accelerate) && i !in StillMissing(menu, was, wanted, before, accelerate, missing)
  {
    hide HasContents, Path, PoppedUp, PoppedDown, Shown, StillMissing;
    MissingChanges(menu, was, wanted, before, accelerate, missing, i);
    StaysUpTo(was, wanted, k, i);
    if 0 <= i <= k {
      assert was[i] == was[..k + 1][i] == wanted[..k + 1][i] == wanted[i];
    }
    PrefixAt(was, wanted, k);
    PoppedUpOnPath(menu, wanted, first, accelerate, m0, m1, i);
    PoppedDownAt(menu, wanted, last, |was|, m1, m2, i);
    ShownAt(menu, was, before, i);
    ShownAt(menu, wanted, accelerate, i);
    if 0 <= i < |wanted| - 1 {
      PathHasContents(menu, wanted, i);
    }
    if 0 <= i < |was| - 1 {
      PathHasContents(menu, was, i);
    }
  }

  lemma StaysUpTo(was: seq<Entry>, wanted: seq<Entry>, k: int, j: int)
    requires 0 <= k < |was| && k < |wanted| && was[..k + 1] == wanted[..k + 1]
    requires k + 1 < |was| && k + 1 < |wanted| ==> was[k + 1] != wanted[k + 1]
    ensures 0 <= j ==> (StaysAt(was, wanted, j) <==> j <= k)
  {
    if 0 <= j <= k {
      assert was[..j + 1] == was[..k + 1][..j + 1] && wanted[..j + 1] == wanted[..k + 1][..j + 1];
    }
    assert forall i :: 0 <= i <= j && j < |was| ==> was[..j + 1][i] == was[i];
    assert forall i :: 0 <= i <= j && j < |wanted| ==> wanted[..j + 1][i] == wanted[i];
  }

  /** Where the stacks part, as `remap_menubar` takes it: with accelerators on, a closed last menu counts as new. */
  ghost predicate Parts(menu: Menu, was: seq<Entry>, wanted: seq<Entry>, accelerate: bool, k: int, first: int) {
    && 0 <= k < |was| && k < |wanted| && was[..k + 1] == wanted[..k + 1]
    && (k + 1 < |was| && k + 1 < |wanted| ==> was[k + 1] != wanted[k + 1])
    && first == if accelerate && k != 0 && k == |was| - 1 && HasContents(menu, was[k]) then k else k + 1
  }

  /** The same, from the arrays that hold the two stacks. */
  lemma PartsAt(menu: Menu, a: seq<Entry>, b: seq<Entry>, was: seq<Entry>, wanted: seq<Entry>, accelerate: bool, k: int, first: int)
    requires was <= a && wanted <= b
    requires 0 <= k < |was| && k < |wanted| && a[..k + 1] == b[..k + 1]
    requires k + 1 < |was| && k + 1 < |wanted| ==> a[k + 1] != b[k + 1]
    requires first == if accelerate && k != 0 && k == |was| - 1 && HasContents(menu, was[k]) then k else k + 1
    ensures Parts(menu, was, wanted, accelerate, k, first)
    ensures 1 <= first <= k + 1 && a[..first] == b[..first]
  {
    assert a[..k + 1] == was[..k + 1] && b[..k + 1] == wanted[..k + 1];
    assert a[..first] == a[..k + 1][..first] && b[..first] == b[..k + 1][..first];
  }

  lemma Redrawn(menu: Menu, was: seq<Entry>, wanted: seq<Entry>, k: int, first: int, last: int,
                accelerate: bool, before: bool, missing: set<int>, m0: set<int>, m1: set<int>, m2: set<int>)
    requires Path(menu, was) && Path(menu, wanted) && Parts(menu, was, wanted, accelerate, k, first)
    requires last == if accelerate && |wanted| > 1 && HasContents(menu, wanted[|wanted| - 1]) then |wanted| - 1 else |wanted|
    requires m0 == Shown(menu, was, before) - missing && missing <= Shown(menu, was, before)
    requires PoppedUp(menu, wanted, first, accelerate, m0, m1)
    requires PoppedDown(menu, wanted, last, |was|, m1, m2)
    ensures m2 == Shown(menu, wanted, accelerate) - StillMissing(menu, was, wanted, before, accelerate, missing)
    ensures StillMissing(menu, was, wanted, before, accelerate, missing) <= Shown(menu, wanted, accelerate)
  {
    hide HasContents, Path, PoppedUp, PoppedDown, Shown, StillMissing;
    MissingChanges(menu, was, wanted, before, accelerate, missing, 0);
    forall i ensures i in m2 <==>
                     i in Shown(menu, wanted, accelerate) && i !in StillMissing(menu, was, wanted, before, accelerate, missing)
    {
      Reconciled(menu, was, wanted, k, first, last, accelerate, before, missing, m0, m1, m2, i);
    }
  }

  /** The stack shown is a front of the one wanted exactly if they agree up to its last entry. */
  lemma PrefixAt(was: seq<Entry>, wanted: seq<Entry>, k: int)
    requires 0 <= k < |was| && k < |wanted| && was[..k + 1] == wanted[..k + 1]
    requires k + 1 < |was| && k + 1 < |wanted| ==> was[k + 1] != wanted[k + 1]
    ensures was <= wanted <==> k == |was| - 1
  {
    if was <= wanted && k < |was| - 1 {
      assert false;
    }
    assert was[..|was|] == was;
  }

  /** The part of an `XlwMenuWidget` that keeps track of open menus. */
  class MenuWidget {
    const menu: Menu
    var oldStack: array<Entry>
    var oldDepth: int
    var newStack: array<Entry>  // of length 0 for the null pointer
    var newDepth: int
    var windowsLength: int
    var accelerate: bool        // `lw_menu_accelerate`, a global variable
    ghost var mapped: set<int>  // the windows above the menu bar that are on the screen
    ghost var drawn: bool       // `accelerate` at the last remapping
    ghost var missing: set<int> // the windows that a full redraw would show and that are not there

    ghost predicate Valid()
      reads this, oldStack
    {
      && 1 <= oldDepth <= oldStack.Length
      && 0 <= newDepth <= newStack.Length
      && oldStack != newStack
      && oldDepth <= windowsLength
      && Path(menu, oldStack[..oldDepth])
    }

    /** All windows are there that a full redraw would show, but for the missing ones. */
    ghost predicate Tracked()
      requires Valid()
      reads this, oldStack
    {
      && mapped == Shown(menu, oldStack[..oldDepth], drawn) - missing
      && missing <= Shown(menu, oldStack[..oldDepth], drawn)
    }

    /** What is wanted is a way down from the menu bar that is shown. */
    ghost predicate Wanting()
      requires Valid()
      reads this, oldStack, newStack
    {
      && HasContents(menu, oldStack[0])
      && newDepth >= 1 && newStack[0] == oldStack[0]
      && Path(menu, newStack[..newDepth])
    }

    /** Between events. */
    ghost predicate Consistent()
      reads this, oldStack, newStack
    {
      Valid() && Wanting() && Tracked()
    }

    /** `XlwMenuInitialize`: the menu bar alone, shown and wanted. */
    constructor (menu: Menu, contents: Entry)
      ensures Valid() && fresh(oldStack) && fresh(newStack) && this.menu == menu
      ensures oldStack[..oldDepth] == newStack[..newDepth] == [contents]
      ensures !accelerate && !drawn && mapped == missing == {} && Tracked()
      ensures HasContents(menu, contents) ==> Consistent()
    {
      this.menu := menu;
      oldDepth := 1;
      oldStack := new Entry[1](_ => contents);
      newDepth := 0;
      newStack := new Entry[0];
      windowsLength := 1;
      accelerate, drawn := false, false;
      mapped, missing := {}, {};
      new;
      PushNewStack(contents);
    }

    /** `push_new_stack`. */
    method PushNewStack(val: Entry)
      requires Valid()
      modifies this`newStack, this`newDepth, newStack
      ensures Valid() && (newStack == old(newStack) || fresh(newStack))
      ensures newStack[..newDepth] == old(newStack[..newDepth]) + [val]
    {
      ghost var s := newStack[..newDepth];
      if newStack.Length == 0 {
        newStack := new Entry[10](_ => 0);
      } else if newDepth == newStack.Length {
        var bigger := new Entry[newStack.Length * 2](_ => 0);
        forall k | 0 <= k < newStack.Length {
          bigger[k] := newStack[k];
        }
        newStack := bigger;
      }
      assert newStack[..newDepth] == s;
      newStack[newDepth] := val;
      newDepth := newDepth + 1;
    }

    /** `pop_new_stack_if_no_contents`. */
    method PopNewStackIfNoContents()
      requires Valid()
      modifies this`newDepth
      ensures Valid()
      ensures var s := old(newStack[..newDepth]);
              newStack[..newDepth] == if s != [] && !HasContents(menu, s[|s| - 1]) then s[..|s| - 1] else s
    {
      if newDepth != 0 && !HasContents(menu, newStack[newDepth - 1]) {
        newDepth := newDepth - 1;
      }
    }

    /** `set_new_state`: the first `level` menus shown, and then `val` if there is one. */
    method SetNewState(some: bool, val: Entry, level: int)
      requires Valid() && 0 <= level <= oldDepth
      modifies this`newStack, this`newDepth, newStack
      ensures Valid() && (newStack == old(newStack) || fresh(newStack))
      ensures newStack[..newDepth] == oldStack[..level] + if some then [val] else []
    {
      newDepth := 0;
      var i := 0;
      while i < level
        invariant 0 <= i <= level
        invariant Valid() && (newStack == old(newStack) || fresh(newStack))
        invariant newStack[..newDepth] == oldStack[..i]
      {
        PushNewStack(oldStack[i]);
        i := i + 1;
      }
      if some {
        PushNewStack(val);
      }
    }

    /** `make_old_stack_space`. */
    method MakeOldStackSpace(n: int)
      requires Valid()
      modifies this`oldStack
      ensures Valid() && (oldStack == old(oldStack) || fresh(oldStack))
      ensures n <= oldStack.Length && oldStack[..oldDepth] == old(oldStack[..oldDepth])
    {
      ghost var s := oldStack[..oldDepth];
      if oldStack.Length < n {
        var length := oldStack.Length;
        while length < n
          invariant length >= oldStack.Length
        {
          length := length * 2;
        }
        var bigger := new Entry[length](_ => 0);
        forall k | 0 <= k < oldStack.Length {
          bigger[k] := oldStack[k];
        }
        oldStack := bigger;
        assert oldStack[..oldDepth] == s;
      }
    }

    /** `make_windows_if_needed` and room in the stack shown. */
    method MakeSpace()
      requires Valid()
      modifies this`oldStack, this`windowsLength
      ensures Valid() && (oldStack == old(oldStack) || fresh(oldStack))
      ensures newDepth <= windowsLength && old(windowsLength) <= windowsLength
      ensures newDepth <= oldStack.Length && oldStack[..oldDepth] == old(oldStack[..oldDepth])
    {
      if windowsLength < newDepth {
        windowsLength := newDepth;
      }
      MakeOldStackSpace(newDepth);
    }

    /** The first loop of `remap_menubar`: the last place up to which the two stacks agree behind the menu bar. */
    method LastSame() returns (k: int)
      requires Valid() && newDepth >= 1 && newStack[0] == oldStack[0]
      ensures 0 <= k < oldDepth && k < newDepth && oldStack[..k + 1] == newStack[..k + 1]
      ensures k + 1 < oldDepth && k + 1 < newDepth ==> oldStack[k + 1] != newStack[k + 1]
    {
      var i := 1;
      while i < oldDepth && i < newDepth
        invariant 1 <= i <= oldDepth && i <= newDepth
        invariant oldStack[..i] == newStack[..i]
      {
        if oldStack[i] != newStack[i] {
          break;
        }
        assert oldStack[..i + 1] == oldStack[..i] + [oldStack[i]] && newStack[..i + 1] == newStack[..i] + [newStack[i]];
        i := i + 1;
      }
      k := i - 1;
    }

    /** The loop that pops up menus, from place `first` on. */
    method PopUp(first: int)
      requires 1 <= first && 0 <= newDepth <= newStack.Length && newDepth <= windowsLength
      modifies this`mapped
      ensures PoppedUp(menu, newStack[..newDepth], first, accelerate, old(mapped), mapped)
    {
      var i := first;
      while i < newDepth && HasContents(menu, newStack[i])
        invariant first <= i
        invariant forall j :: first <= j < i && j < newDepth ==> HasContents(menu, newStack[j])
        invariant forall k :: k in mapped <==>
                    k in old(mapped) || (first <= k < i && k < newDepth && !(accelerate && k == newDepth - 1))
      {
        if accelerate && i == newDepth - 1 {
          break;
        }
        mapped := mapped + {i};  // XMapRaised
        i := i + 1;
      }
    }

    /** The loop that unmaps the menus that popped down; a window that is unmapped twice stays unmapped. */
    method PopDown(lastSame: int, oldDepth0: int)
      requires 1 <= lastSame <= newDepth <= newStack.Length && oldDepth0 <= windowsLength
      modifies this`mapped
      ensures PoppedDown(menu, newStack[..newDepth], lastSame, oldDepth0, old(mapped), mapped)
    {
      var i := lastSame - 1;
      while i < oldDepth0
        invariant lastSame - 1 <= i
        invariant forall k :: k in mapped <==>
                    k in old(mapped) && !(lastSame - 1 <= k < i && k < oldDepth0 && (k >= lastSame || !HasContents(menu, newStack[k])))
      {
        if i >= lastSame || !HasContents(menu, newStack[i]) {
          mapped := mapped - {i};  // XUnmapWindow
        }
        i := i + 1;
      }
    }

    /** The loop that updates the stack shown from place `first` on. */
    method UpdateOldStack(first: int)
      requires Valid() && 1 <= first <= newDepth <= oldStack.Length
      requires first <= oldDepth && oldStack[..first] == newStack[..first] && Path(menu, newStack[..newDepth])
      requires newDepth <= windowsLength
      modifies oldStack, this`oldDepth
      ensures Valid() && oldDepth == newDepth
      ensures oldStack[..oldDepth] == newStack[..newDepth] == old(newStack[..newDepth])
    {
      ghost var wanted := newStack[..newDepth];
      var i := first;
      while i < newDepth
        invariant first <= i <= newDepth <= oldStack.Length && newStack[..newDepth] == wanted
        invariant oldStack[..i] == newStack[..i]
      {
        oldStack[i] := newStack[i];
        assert oldStack[..i + 1] == oldStack[..i] + [oldStack[i]] && newStack[..i + 1] == newStack[..i] + [newStack[i]];
        i := i + 1;
      }
      oldDepth := newDepth;
    }

    /** The first half of `remap_menubar`: the stack shown becomes the one wanted. */
    method Restack() returns (first: int, ghost k: int)
      requires Valid() && newDepth >= 1 && newStack[0] == oldStack[0]
      requires Path(menu, newStack[..newDepth])
      modifies this`oldStack, this`oldDepth, this`windowsLength, oldStack
      ensures Valid() && (oldStack == old(oldStack) || fresh(oldStack))
      ensures newDepth <= windowsLength && old(windowsLength) <= windowsLength
      ensures oldStack[..oldDepth] == newStack[..newDepth] == old(newStack[..newDepth])
      ensures Parts(menu, old(oldStack[..oldDepth]), newStack[..newDepth], accelerate, k, first)
    {
      hide Path, HasContents;
      ghost var was, wanted := oldStack[..oldDepth], newStack[..newDepth];
      assert oldStack[0] == was[0] && newStack[0] == wanted[0];
      MakeSpace();
      assert newStack[..newDepth] == wanted;
      assert oldStack[0] == was[0] && newStack[0] == wanted[0];
      var lastSame := LastSame();
      k := lastSame;
      assert was[k] == oldStack[k];
      if accelerate && lastSame != 0 && lastSame == oldDepth - 1 && HasContents(menu, oldStack[lastSame]) {
        lastSame := lastSame - 1;
      }
      first := lastSame + 1;
      PartsAt(menu, oldStack[..], newStack[..], was, wanted, accelerate, k, first);
      UpdateOldStack(first);
    }

    /**
     * `remap_menubar`: the stack shown becomes the one wanted, and the windows are those a full redraw would show,
     * but for those still missing.
     */
    method RemapMenubar()
      requires Valid() && newDepth >= 1 && newStack[0] == oldStack[0]
      requires Path(menu, newStack[..newDepth]) && Tracked()
      modifies this`oldStack, this`oldDepth, this`windowsLength, this`mapped, this`drawn, this`missing, oldStack
      ensures Valid() && (oldStack == old(oldStack) || fresh(oldStack))
      ensures oldStack[..oldDepth] == newStack[..newDepth] == old(newStack[..newDepth])
      ensures Tracked() && drawn == accelerate
      ensures missing == StillMissing(menu, old(oldStack[..oldDepth]), newStack[..newDepth], old(drawn), accelerate, old(missing))
    {
      hide PoppedUp, PoppedDown, Shown, StillMissing, Path, Parts, HasContents;
      ghost var was, wanted, m0 := oldStack[..oldDepth], newStack[..newDepth], mapped;
      ghost var k;
      var oldDepth0 := oldDepth;
      var first;
      first, k := Restack();
      PartsInside(menu, was, wanted, accelerate, k, first);
      PopUp(first);
      ghost var m1 := mapped;
      var lastSame := newDepth;
      if accelerate && lastSame > 1 && HasContents(menu, newStack[lastSame - 1]) {
        lastSame := lastSame - 1;
      }
      PopDown(lastSame, oldDepth0);
      Redrawn(menu, was, wanted, k, first, lastSame, accelerate, drawn, missing, m0, m1, mapped);
      missing := StillMissing(menu, was, wanted, drawn, accelerate, missing);
      drawn := accelerate;
    }

    // ----- Pointer events -----

    /**
     * `handle_motion_event` and `handle_single_motion_event`: the pointer is over an enabled entry of the menu at
     * `level - 1`, or (with `some` false) over one that bounces down; otherwise it is elsewhere, and may be leaving for good.
     */
    method HandleMotion(hit: bool, level: int, some: bool, val: Entry, leave: bool)
      requires Consistent()
      requires hit ==> 1 <= level <= oldDepth
      requires hit && some ==> oldStack[level - 1] in menu && val in menu[oldStack[level - 1]]
      modifies this, oldStack, newStack
      ensures Consistent() && !accelerate && !drawn && oldStack[..oldDepth] == newStack[..newDepth]
      ensures (oldStack == old(oldStack) || fresh(oldStack)) && (newStack == old(newStack) || fresh(newStack))
      ensures missing == StillMissing(menu, old(oldStack[..oldDepth]), oldStack[..oldDepth], old(drawn), false, old(missing))
      ensures hit ==> oldStack[..oldDepth] == old(oldStack[..level]) + if some then [val] else []
      ensures !hit && leave ==> oldStack[..oldDepth] == old(oldStack[..1])
      ensures !hit && !leave ==>
                var wanted := old(newStack[..newDepth]);
                oldStack[..oldDepth] == if HasContents(menu, wanted[|wanted| - 1]) then wanted else wanted[..|wanted| - 1]
    {
      hide Shown, StillMissing, Path;
      ghost var was, pending := oldStack[..oldDepth], newStack[..newDepth];
      accelerate := false;
      if !hit {
        PopNewStackIfNoContents();
        if leave {
          SetNewState(false, 0, 1);
        }
      } else {
        SetNewState(some, val, level);
      }
      ghost var wanted := newStack[..newDepth];
      assert oldStack[..oldDepth] == was;
      WantedIsPath(menu, was, pending, wanted, hit, level, some, val, leave);
      Rewanted(wanted);
      RemapMenubar();
      Rewanted(wanted);
    }

    lemma Rewanted(wanted: seq<Entry>)
      requires Valid() && wanted == newStack[..newDepth] && |wanted| >= 1
      requires HasContents(menu, wanted[0]) && Path(menu, wanted) && (wanted[0] == oldStack[0] || wanted == oldStack[..oldDepth])
      ensures Wanting()
    {
      assert newStack[0] == wanted[0];
      assert oldStack[0] == oldStack[..oldDepth][0];
    }

    /** `Select`: the button is released; `exit` if an entry is selected or the menus are to go away. */
    method Select(exit: bool)
      requires Consistent()
      modifies this, oldStack
      ensures Consistent() && !accelerate && newStack == old(newStack) && (oldStack == old(oldStack) || fresh(oldStack))
      ensures exit ==> oldStack[..oldDepth] == newStack[..newDepth] == old(oldStack[..1]) && mapped == missing == {} && !drawn
      ensures !exit ==> oldStack == old(oldStack) && oldDepth == old(oldDepth) && newDepth == old(newDepth)
      ensures !exit ==> missing == old(missing) && drawn == old(drawn)
    {
      accelerate := false;
      if exit {
        CloseAll();
      }
    }

    /** The menu bar alone is wanted and shown. */
    method CloseAll()
      requires Consistent()
      modifies this`newDepth, this`oldStack, this`oldDepth, this`windowsLength, this`mapped, this`drawn, this`missing, oldStack
      ensures Consistent() && drawn == accelerate && (oldStack == old(oldStack) || fresh(oldStack))
      ensures oldStack[..oldDepth] == newStack[..newDepth] == old(oldStack[..1])
      ensures mapped == missing == {}
    {
      hide Shown, StillMissing, Path;
      ghost var was, wanted := oldStack[..oldDepth], newStack[..1];
      assert wanted == was[..1];
      newDepth := 1;
      BarAlone(menu, was, drawn, accelerate, missing);
      Rewanted(wanted);
      RemapMenubar();
      Rewanted(wanted);
    }

    /** `XlwMenuRedisplay`: what is shown is wanted. */
    method Redisplay()
      requires Consistent()
      modifies this, oldStack, newStack
      ensures Consistent() && accelerate == drawn == old(accelerate)
      ensures (oldStack == old(oldStack) || fresh(oldStack)) && (newStack == old(newStack) || fresh(newStack))
      ensures oldStack[..oldDepth] == newStack[..newDepth] == old(oldStack[..oldDepth])
      ensures missing == StillMissing(menu, old(oldStack[..oldDepth]), oldStack[..oldDepth], old(drawn), accelerate, old(missing))
    {
      hide Shown, StillMissing, Path;
      ghost var was := oldStack[..oldDepth];
      SetNewState(false, 0, oldDepth);
      assert newStack[..newDepth] == was;
      Rewanted(was);
      RemapMenubar();
      Rewanted(was);
    }

    // ----- Keyboard commands -----

    /** `xlw_set_menu`: an entry of the menu bar is wanted. */
    method SetMenu(val: Entry)
      requires Consistent() && val in menu[oldStack[0]]
      modifies this`newStack, this`newDepth, newStack
      ensures Consistent() && (newStack == old(newStack) || fresh(newStack))
      ensures newStack[..newDepth] == [oldStack[0], val]
    {
      hide Shown;
      SetNewState(true, val, 1);
      assert newStack[..newDepth] == [oldStack[0], val];
      Rewanted([oldStack[0], val]);
    }

    /** `xlw_map_menu`, as far as the stacks go. */
    method MapMenu()
      requires Consistent()
      modifies this`accelerate
      ensures Consistent() && accelerate
    {
      accelerate := true;
    }

    /** `xlw_display_menu`. */
    method DisplayMenu()
      requires Consistent()
      modifies this, oldStack
      ensures Consistent() && accelerate && drawn && newStack == old(newStack) && (oldStack == old(oldStack) || fresh(oldStack))
      ensures oldStack[..oldDepth] == newStack[..newDepth] == old(newStack[..newDepth])
      ensures missing == StillMissing(menu, old(oldStack[..oldDepth]), oldStack[..oldDepth], old(drawn), true, old(missing))
    {
      hide Shown, StillMissing, Path;
      ghost var wanted := newStack[..newDepth];
      accelerate := true;
      assert wanted[0] == newStack[0];
      RemapMenubar();
      Rewanted(wanted);
    }

    /** `xlw_push_menu`: an entry of the last menu that is wanted. */
    method PushMenu(val: Entry)
      requires Consistent() && newStack[newDepth - 1] in menu && val in menu[newStack[newDepth - 1]]
      modifies this`newStack, this`newDepth, newStack
      ensures Consistent() && (newStack == old(newStack) || fresh(newStack))
      ensures newStack[..newDepth] == old(newStack[..newDepth]) + [val]
    {
      hide Shown;
      ghost var s := newStack[..newDepth];
      PushNewStack(val);
      PathFront(menu, s, |s|, true, val);
      assert s[..|s|] == s && s[0] == oldStack[0];
      Rewanted(s + [val]);
    }

    /** `xlw_pop_menu`. */
    method PopMenu() returns (popped: bool)
      requires Valid()
      modifies this`newDepth
      ensures Valid() && popped == (old(newDepth) > 0)
      ensures newStack[..newDepth] == if popped then old(newStack[..newDepth - 1]) else []
      ensures old(Consistent() && newDepth >= 2) ==> Consistent()
    {
      hide Shown, Path;
      ghost var s := newStack[..newDepth];
      if newDepth > 0 {
        newDepth := newDepth - 1;
      } else {
        return false;
      }
      assert newStack[..newDepth] == s[..newDepth];
      if old(Consistent()) && newDepth >= 1 {
        PathFront(menu, s, newDepth, false, 0);
        Rewanted(s[..newDepth]);
      }
      return true;
    }

    /** `xlw_set_item`: another entry of the last menu, or the menu bar again. */
    method SetItem(val: Entry)
      requires Consistent()
      requires if newDepth == 1 then val == newStack[0]
               else newStack[newDepth - 2] in menu && val in menu[newStack[newDepth - 2]]
      modifies this`newStack, this`newDepth, newStack
      ensures Consistent() && (newStack == old(newStack) || fresh(newStack))
      ensures newStack[..newDepth] == old(newStack[..newDepth - 1]) + [val]
    {
      hide Shown;
      ghost var all, s := newStack[..newDepth], newStack[..newDepth - 1];
      if newDepth > 0 {
        newDepth := newDepth - 1;
      }
      PushNewStack(val);
      assert s == all[..|all| - 1];
      if s != [] {
        PathFront(menu, all, |s|, true, val);
        assert s[0] == oldStack[0];
      }
      Rewanted(s + [val]);
    }

    /** `xlw_kill_menus`. */
    method KillMenus()
      requires Consistent()
      modifies this, oldStack
      ensures Consistent() && !accelerate && !drawn && newStack == old(newStack) && (oldStack == old(oldStack) || fresh(oldStack))
      ensures oldStack[..oldDepth] == newStack[..newDepth] == old(oldStack[..1]) && mapped == missing == {}
    {
      accelerate := false;
      CloseAll();
    }
  }

  /** The menu bar has no window of its own that could be missing. */
  lemma BarAlone(menu: Menu, was: seq<Entry>, before: bool, accelerate: bool, missing: set<int>)
    requires |was| >= 1
    ensures Path(menu, was[..1])
    ensures Shown(menu, was[..1], accelerate) == StillMissing(menu, was, was[..1], before, accelerate, missing) == {}
  {
  }

  /** A front of a way down the tree, and one step further. */
  lemma PathFront(menu: Menu, s: seq<Entry>, level: int, some: bool, val: Entry)
    requires Path(menu, s) && 0 <= level <= |s|
    requires some ==> level >= 1 && s[level - 1] in menu && val in menu[s[level - 1]]
    ensures Path(menu, s[..level] + if some then [val] else [])
    ensures Path(menu, s[..level])
    ensures level >= 1 ==> (s[..level] + if some then [val] else [])[0] == s[0]
  {
  }

  /** What a pointer event asks for is a way down the tree from the same menu bar. */
  lemma WantedIsPath(menu: Menu, was: seq<Entry>, pending: seq<Entry>, wanted: seq<Entry>,
                     hit: bool, level: int, some: bool, val: Entry, leave: bool)
    requires |was| >= 1 && Path(menu, was) && HasContents(menu, was[0])
    requires |pending| >= 1 && Path(menu, pending) && pending[0] == was[0]
    requires hit ==> 1 <= level <= |was| && wanted == was[..level] + if some then [val] else []
    requires hit && some ==> was[level - 1] in menu && val in menu[was[level - 1]]
    requires !hit && leave ==> wanted == was[..1]
    requires !hit && !leave ==> wanted == if !HasContents(menu, pending[|pending| - 1]) then pending[..|pending| - 1] else pending
    ensures Path(menu, wanted) && |wanted| >= 1 && wanted[0] == was[0]
  {
    if hit {
      PathFront(menu, was, level, some, val);
    }
  }

  /**
   * Any run of pointer events and keyboard commands, in any order: the windows are those that a full redraw would
   * show but for the missing ones, and there are none unless the keyboard was used.
   */
  method AnyEvents(mw: MenuWidget, n: nat) returns (keys: bool)
    requires mw.Consistent() && !mw.accelerate && !mw.drawn && mw.missing == {}
    modifies mw, mw.oldStack, mw.newStack
    ensures mw.Consistent()
    ensures !keys ==> mw.missing == {}
  {
    hide Shown, Path, StillMissing, HasContents;
    keys := false;
    for i := 0 to n
      invariant mw.Consistent() && (!keys ==> !mw.accelerate && !mw.drawn && mw.missing == {})
      invariant mw.oldStack == old(mw.oldStack) || fresh(mw.oldStack)
      invariant mw.newStack == old(mw.newStack) || fresh(mw.newStack)
    {
      var key: bool := *;
      if key {
        keys := true;
        OneCommand(mw);
      } else {
        ghost var was := mw.oldStack[..mw.oldDepth];
        OneEvent(mw);
        NoneMissing(mw.menu, was, mw.oldStack[..mw.oldDepth]);
      }
    }
  }

  method OneEvent(mw: MenuWidget)
    requires mw.Consistent()
    modifies mw, mw.oldStack, mw.newStack
    ensures mw.Consistent()
    ensures (mw.oldStack == old(mw.oldStack) || fresh(mw.oldStack)) && (mw.newStack == old(mw.newStack) || fresh(mw.newStack))
    ensures old(!mw.accelerate && !mw.drawn && mw.missing == {}) ==> !mw.accelerate && !mw.drawn && mw.missing == {}
  {
    hide Shown, Path, StillMissing, HasContents;
    ghost var was := mw.oldStack[..mw.oldDepth];
    var kind: int, level: int, hit: bool, some: bool, leave: bool, val: Entry := *, *, *, *, *, *;
    if kind == 0 {
      mw.Redisplay();
    } else if kind == 1 {
      mw.Select(leave);
    } else {
      if hit {
        level :| 1 <= level <= mw.oldDepth;
        if some {
          some := mw.oldStack[level - 1] in mw.menu && val in mw.menu[mw.oldStack[level - 1]];
        }
      }
      mw.HandleMotion(hit, level, some, val, leave);
    }
    NoneMissing(mw.menu, was, mw.oldStack[..mw.oldDepth]);
  }

  method OneCommand(mw: MenuWidget)
    requires mw.Consistent()
    modifies mw, mw.oldStack, mw.newStack
    ensures mw.Consistent()
    ensures (mw.oldStack == old(mw.oldStack) || fresh(mw.oldStack)) && (mw.newStack == old(mw.newStack) || fresh(mw.newStack))
  {
    hide Shown, Path, StillMissing;
    var val: Entry := *;
    var last := mw.newStack[mw.newDepth - 1];
    if
    case val in mw.menu[mw.oldStack[0]] =>
      mw.SetMenu(val);
    case true =>
      mw.MapMenu();
    case true =>
      mw.DisplayMenu();
    case last in mw.menu && val in mw.menu[last] =>
      mw.PushMenu(val);
    case mw.newDepth >= 2 =>
      var popped := mw.PopMenu();
    case mw.newDepth >= 2 && mw.newStack[mw.newDepth - 2] in mw.menu && val in mw.menu[mw.newStack[mw.newDepth - 2]] =>
      mw.SetItem(val);
    case mw.newDepth == 1 =>
      mw.SetItem(mw.newStack[0]);
    case true =>
      mw.KillMenus();
  }

  /**
   * A menu opened by the keyboard, closed as accelerators leave it, and then pointed at: its window is wanted and
   * missing.
   */
  method LeftUnmapped() returns (mw: MenuWidget)
    ensures fresh(mw) && mw.Consistent()
    ensures mw.oldStack[..mw.oldDepth] == [0, 1] && mw.missing == {1}
    ensures 1 in Shown(mw.menu, [0, 1], mw.drawn) && 1 !in mw.mapped
  {
    hide Path;
    var menu: Menu := map[0 := {1}, 1 := {2}];
    mw := new MenuWidget(menu, 0);
    mw.SetMenu(1);
    mw.MapMenu();
    mw.DisplayMenu();
    assert mw.missing == {};
    mw.HandleMotion(true, 1, true, 1, false);
    assert [0, 1][..1] + [1] == [0, 1];
    assert Stuck(menu, [0, 1], [0, 1], true, false);
  }

  lemma PartsInside(menu: Menu, was: seq<Entry>, wanted: seq<Entry>, accelerate: bool, k: int, first: int)
    requires Parts(menu, was, wanted, accelerate, k, first)
    ensures 1 <= first <= |wanted|
  {
  }
}
