/**
 * The sort of lib-src/qsort.c: a non-recursive quicksort with median-of-three pivots,
 * unguarded scans and an explicit stack, which leaves partitions of up to five items alone,
 * followed by one insertion pass whose inner scan is stopped by the minimum at the base.
 */
module QSort {
  import opened Bytes
  import opened QSortItems

  const MAX_THRESH := 4

  /** BYTES_PER_WORD * sizeof (long), with the smallest `long` there is. */
  const STACK_SIZE := 32

  /** The largest `int`. */
  const INT_MAX := 0x7fff_ffff

  type Comparator = (Item, Item) -> int

  // ----- Orders -----

  /** Names the three items of one use of transitivity; it is what that axiom is instantiated on. */
  ghost predicate Chain(x: Item, y: Item, z: Item) { true }

  /** What the comparator owes: it orders the items of `size` bytes as a total preorder. */
  ghost predicate TotalPreorder(cmp: Comparator, size: nat) {
    && (forall x: Item, y: Item :: |x| == size && |y| == size ==> (cmp(x, y) < 0 <==> cmp(y, x) > 0))
    && (forall x: Item, y: Item, z: Item {:trigger Chain(x, y, z)} ::
          |x| == size && |y| == size && |z| == size && cmp(x, y) <= 0 && cmp(y, z) <= 0 ==> cmp(x, z) <= 0)
  }

  ghost predicate Le(cmp: Comparator, x: Item, y: Item) {
    cmp(x, y) <= 0
  }

  lemma Flip(cmp: Comparator, size: nat, x: Item, y: Item)
    requires TotalPreorder(cmp, size) && |x| == size && |y| == size
    ensures cmp(x, y) < 0 || Le(cmp, y, x)
    ensures !(cmp(x, y) < 0 && Le(cmp, y, x))
  {
  }

  ghost predicate Sorted(cmp: Comparator, s: seq<Item>) {
    forall i, j :: 0 <= i < j < |s| ==> Le(cmp, s[i], s[j])
  }

  /** Any two items more than MAX_THRESH places apart are in order. */
  ghost predicate NearlySorted(cmp: Comparator, s: seq<Item>) {
    forall i, j :: 0 <= i && i + MAX_THRESH < j < |s| ==> Le(cmp, s[i], s[j])
  }

  /** Nothing before place `c` is larger than anything from `c` on. */
  ghost predicate Cut(cmp: Comparator, s: seq<Item>, c: int) {
    forall i, j :: 0 <= i < c <= j < |s| ==> Le(cmp, s[i], s[j])
  }

  /** `t` is `s` with the items at places `lo..hi` rearranged among themselves. */
  ghost predicate Rearranged(s: seq<Item>, t: seq<Item>, lo: int, hi: int)
    requires 0 <= lo <= hi + 1 <= |s|
  {
    && |t| == |s|
    && t[..lo] == s[..lo]
    && t[hi + 1..] == s[hi + 1..]
    && multiset(t[lo..hi + 1]) == multiset(s[lo..hi + 1])
  }

  lemma RearrangedFrom(s: seq<Item>, t: seq<Item>, lo: nat, hi: nat, k: nat) returns (k': nat)
    requires lo <= hi < |s| && Rearranged(s, t, lo, hi) && k < |s|
    ensures k' < |s| && t[k] == s[k']
    ensures if lo <= k <= hi then lo <= k' <= hi else k' == k
  {
    if lo <= k <= hi {
      var part := t[lo..hi + 1];
      assert part[k - lo] in multiset(part);
      assert t[k] in multiset(s[lo..hi + 1]);
      assert t[k] in s[lo..hi + 1];
      var m :| 0 <= m < hi + 1 - lo && s[lo..hi + 1][m] == t[k];
      k' := lo + m;
    } else {
      k' := k;
      if k < lo {
        assert t[..lo][k] == s[..lo][k];
      } else {
        assert t[hi + 1..][k - hi - 1] == s[hi + 1..][k - hi - 1];
      }
    }
  }

  lemma RearrangedMultiset(s: seq<Item>, t: seq<Item>, lo: nat, hi: nat)
    requires lo <= hi < |s| && Rearranged(s, t, lo, hi)
    ensures multiset(t) == multiset(s)
  {
    assert s == s[..lo] + s[lo..hi + 1] + s[hi + 1..];
    assert t == t[..lo] + t[lo..hi + 1] + t[hi + 1..];
  }

  lemma RearrangedTrans(s: seq<Item>, t: seq<Item>, u: seq<Item>, lo: nat, hi: nat)
    requires lo <= hi < |s| && Rearranged(s, t, lo, hi) && Rearranged(t, u, lo, hi)
    ensures Rearranged(s, u, lo, hi)
  {
  }

  lemma RearrangedRefl(s: seq<Item>, lo: nat, hi: nat)
    requires lo <= hi < |s|
    ensures Rearranged(s, s, lo, hi)
  {
  }

  /** A swap inside `lo..hi` rearranges `lo..hi`. */
  lemma SwapRearranges(s: seq<Item>, lo: nat, hi: nat, i: nat, j: nat)
    requires lo <= i <= hi && lo <= j <= hi < |s|
    ensures Rearranged(s, s[i := s[j]][j := s[i]], lo, hi)
  {
    var t := s[i := s[j]][j := s[i]];
    var p := s[lo..hi + 1];
    assert t[lo..hi + 1] == p[i - lo := p[j - lo]][j - lo := p[i - lo]];
  }

  /** A cut outside the rearranged places stays a cut. */
  lemma RearrangedCut(cmp: Comparator, s: seq<Item>, t: seq<Item>, lo: nat, hi: nat, c: int)
    requires lo <= hi < |s| && Rearranged(s, t, lo, hi)
    requires Cut(cmp, s, c) && (c <= lo || hi < c)
    ensures Cut(cmp, t, c)
  {
    forall i, j | 0 <= i < c <= j < |t| ensures Le(cmp, t[i], t[j]) {
      var i' := RearrangedFrom(s, t, lo, hi, i);
      var j' := RearrangedFrom(s, t, lo, hi, j);
      assert Le(cmp, s[i'], s[j']);
    }
  }

  // ----- Partition -----

  /** What the collapsing walls leave in `lo..hi`: two parts, with at most one item between them. */
  ghost predicate Parted(cmp: Comparator, t: seq<Item>, lo: int, hi: int, left: int, right: int) {
    && 0 <= lo <= right < left <= right + 2 && left <= hi < |t|
    && (forall i, j :: lo <= i <= right < j <= hi ==> Le(cmp, t[i], t[j]))
    && (forall i, j :: lo <= i < left <= j <= hi ==> Le(cmp, t[i], t[j]))
  }

  /** The items at places `from..to` (without `to`) are at most `x`. */
  ghost predicate Below(cmp: Comparator, s: seq<Item>, from: int, to: int, x: Item) {
    forall k :: 0 <= from <= k < to <= |s| ==> Le(cmp, s[k], x)
  }

  /** The items at places `from..to` (without `to`) are at least `x`. */
  ghost predicate Above(cmp: Comparator, s: seq<Item>, from: int, to: int, x: Item) {
    forall k :: 0 <= from <= k < to <= |s| ==> Le(cmp, x, s[k])
  }

  /** SWAP of two items among the places `lo..hi`, which `s0` fills in another order. */
  method SwapWithin(a: array<byte>, size: nat, n: nat, i: nat, j: nat, ghost s0: seq<Item>, ghost lo: nat, ghost hi: nat)
    requires a.Length == n * size && size >= 1
    requires lo <= i <= hi && lo <= j <= hi < n && i != j
    requires |s0| == n && Rearranged(s0, Items(a[..], size, n), lo, hi)
    modifies a
    ensures Items(a[..], size, n) == old(Items(a[..], size, n))[i := old(Items(a[..], size, n)[j])][j := old(Items(a[..], size, n)[i])]
    ensures Rearranged(s0, Items(a[..], size, n), lo, hi)
  {
    ghost var s := Items(a[..], size, n);
    SwapItems(a, size, n, i, j);
    SwapRearranges(s, lo, hi, i, j);
    RearrangedTrans(s0, s, Items(a[..], size, n), lo, hi);
  }

  /** CMP on the items at two places. */
  method Compare(a: array<byte>, size: nat, n: nat, cmp: Comparator, i: nat, j: nat) returns (c: int)
    requires a.Length == n * size && size >= 1 && i < n && j < n
    ensures c == cmp(Items(a[..], size, n)[i], Items(a[..], size, n)[j])
  {
    var x := GetItem(a, size, n, i);
    var y := GetItem(a, size, n, j);
    c := cmp(x, y);
  }

  /** `if (CMP (j, i) < 0) SWAP (j, i, size);` */
  method OrderTwo(a: array<byte>, size: nat, n: nat, cmp: Comparator, i: nat, j: nat, ghost s0: seq<Item>, ghost lo: nat, ghost hi: nat)
    returns (swapped: bool)
    requires a.Length == n * size && size >= 1 && TotalPreorder(cmp, size)
    requires lo <= i < j <= hi < n
    requires |s0| == n && Rearranged(s0, Items(a[..], size, n), lo, hi)
    modifies a
    ensures Rearranged(s0, Items(a[..], size, n), lo, hi)
    ensures Items(a[..], size, n) ==
            if swapped then old(Items(a[..], size, n))[i := old(Items(a[..], size, n)[j])][j := old(Items(a[..], size, n)[i])]
            else old(Items(a[..], size, n))
    ensures Le(cmp, Items(a[..], size, n)[i], Items(a[..], size, n)[j])
  {
    hide Items, Rearranged, TotalPreorder;
    ghost var s := Items(a[..], size, n);
    var c := Compare(a, size, n, cmp, j, i);
    Flip(cmp, size, s[j], s[i]);
    swapped := c < 0;
    if swapped {
      SwapWithin(a, size, n, j, i, s0, lo, hi);
    }
  }

  /** The median-of-three step: sorts the items at `lo`, the middle and `hi` and copies the middle one. */
  method MedianOfThree(a: array<byte>, size: nat, n: nat, cmp: Comparator, lo: nat, hi: nat) returns (pivot: Item)
    requires a.Length == n * size && size >= 1 && TotalPreorder(cmp, size)
    requires hi < n && lo + MAX_THRESH <= hi
    modifies a
    ensures Rearranged(old(Items(a[..], size, n)), Items(a[..], size, n), lo, hi)
    ensures |pivot| == size
    ensures Below(cmp, Items(a[..], size, n), lo, lo + 1, pivot) && Above(cmp, Items(a[..], size, n), hi, hi + 1, pivot)
  {
    hide Items, Rearranged, TotalPreorder, Le;
    ghost var s0 := Items(a[..], size, n);
    RearrangedRefl(s0, lo, hi);
    var mid := lo + (hi - lo) / 2;
    var swapped := OrderTwo(a, size, n, cmp, lo, mid, s0, lo, hi);
    ghost var s1 := Items(a[..], size, n);
    swapped := OrderTwo(a, size, n, cmp, mid, hi, s0, lo, hi);
    ghost var s2 := Items(a[..], size, n);
    if swapped {
      // The old middle item is now at `hi`, so the new one only has to be put in order with `lo`.
      assert s2[lo] == s1[lo] && s2[hi] == s1[mid];
      swapped := OrderTwo(a, size, n, cmp, lo, mid, s0, lo, hi);
    }
    pivot := GetItem(a, size, n, mid);
  }

  /** `while (CMP (left_ptr, pivot) < 0) left_ptr += size;` */
  method ScanUp(a: array<byte>, size: nat, n: nat, cmp: Comparator, from: nat, pivot: Item, ghost sentinel: nat, ghost hi: nat) returns (left: nat)
    requires a.Length == n * size && size >= 1 && TotalPreorder(cmp, size) && |pivot| == size
    requires from <= sentinel <= hi < n && Above(cmp, Items(a[..], size, n), sentinel, hi + 1, pivot)
    ensures from <= left <= sentinel
    ensures Below(cmp, Items(a[..], size, n), from, left, pivot)
    ensures Le(cmp, pivot, Items(a[..], size, n)[left])
  {
    hide Items, TotalPreorder;
    left := from;
    var x := GetItem(a, size, n, left);
    Flip(cmp, size, x, pivot);
    while cmp(x, pivot) < 0
      invariant from <= left <= sentinel
      invariant x == Items(a[..], size, n)[left] && (cmp(x, pivot) < 0 || Le(cmp, pivot, x))
      invariant left == sentinel ==> !(cmp(x, pivot) < 0)
      invariant Below(cmp, Items(a[..], size, n), from, left, pivot)
      decreases sentinel - left
    {
      left := left + 1;
      x := GetItem(a, size, n, left);
      Flip(cmp, size, x, pivot);
    }
  }

  /** `while (CMP (pivot, right_ptr) < 0) right_ptr -= size;` */
  method ScanDown(a: array<byte>, size: nat, n: nat, cmp: Comparator, from: nat, pivot: Item, ghost sentinel: nat, ghost lo: nat) returns (right: nat)
    requires a.Length == n * size && size >= 1 && TotalPreorder(cmp, size) && |pivot| == size
    requires lo <= sentinel <= from < n && Below(cmp, Items(a[..], size, n), lo, sentinel + 1, pivot)
    ensures sentinel <= right <= from
    ensures Above(cmp, Items(a[..], size, n), right + 1, from + 1, pivot)
    ensures Le(cmp, Items(a[..], size, n)[right], pivot)
  {
    hide Items, TotalPreorder;
    right := from;
    var y := GetItem(a, size, n, right);
    Flip(cmp, size, pivot, y);
    while cmp(pivot, y) < 0
      invariant sentinel <= right <= from
      invariant y == Items(a[..], size, n)[right] && (cmp(pivot, y) < 0 || Le(cmp, y, pivot))
      invariant right == sentinel ==> !(cmp(pivot, y) < 0)
      invariant Above(cmp, Items(a[..], size, n), right + 1, from + 1, pivot)
      decreases right
    {
      right := right - 1;
      y := GetItem(a, size, n, right);
      Flip(cmp, size, pivot, y);
    }
  }

  lemma BelowJoin(cmp: Comparator, s: seq<Item>, from: nat, mid: nat, to: nat, x: Item)
    requires from <= mid <= to <= |s|
    ensures Below(cmp, s, from, mid, x) && Below(cmp, s, mid, to, x) ==> Below(cmp, s, from, to, x)
    ensures Above(cmp, s, from, mid, x) && Above(cmp, s, mid, to, x) ==> Above(cmp, s, from, to, x)
  {
  }

  /** The walls close over one last item that stopped both scans. */
  lemma CloseWalls(cmp: Comparator, s: seq<Item>, lo: nat, hi: nat, k: nat, x: Item)
    requires lo <= k <= hi < |s|
    requires Below(cmp, s, lo, k, x) && Above(cmp, s, k + 1, hi + 1, x)
    requires Le(cmp, x, s[k]) && Le(cmp, s[k], x)
    ensures Below(cmp, s, lo, k + 1, x) && Above(cmp, s, k, hi + 1, x)
  {
  }

  /** Swapping the two items the scans stopped at, and stepping over them, keeps the walls. */
  lemma SwapWalls(cmp: Comparator, s: seq<Item>, lo: nat, hi: nat, left: nat, right: nat, pivot: Item)
    requires lo <= left < right <= hi < |s|
    requires Below(cmp, s, lo, left, pivot) && Above(cmp, s, right + 1, hi + 1, pivot)
    requires Le(cmp, pivot, s[left]) && Le(cmp, s[right], pivot)
    ensures Below(cmp, s[left := s[right]][right := s[left]], lo, left + 1, pivot)
    ensures Above(cmp, s[left := s[right]][right := s[left]], right, hi + 1, pivot)
  {
  }

  /** One partition of `lo..hi`; the scans have no bounds test and never need one. */
  method Partition(a: array<byte>, size: nat, n: nat, cmp: Comparator, lo: nat, hi: nat) returns (left: nat, right: nat)
    requires a.Length == n * size && size >= 1 && TotalPreorder(cmp, size)
    requires hi < n && lo + MAX_THRESH <= hi
    modifies a
    ensures Rearranged(old(Items(a[..], size, n)), Items(a[..], size, n), lo, hi)
    ensures Parted(cmp, Items(a[..], size, n), lo, hi, left, right)
  {
    hide Items, Rearranged, TotalPreorder, Parted, Below, Above, Le;
    ghost var s0 := Items(a[..], size, n);
    var pivot := MedianOfThree(a, size, n, cmp, lo, hi);
    left, right := lo + 1, hi - 1;
    var collapsed := false;
    while !collapsed && left <= right
      invariant lo < left <= hi && lo <= right < hi
      invariant if collapsed then left == right + 2 else left <= right + 1
      invariant Rearranged(s0, Items(a[..], size, n), lo, hi)
      invariant Below(cmp, Items(a[..], size, n), lo, left, pivot)
      invariant Above(cmp, Items(a[..], size, n), right + 1, hi + 1, pivot)
      decreases !collapsed, right - left + 1
    {
      ghost var s := Items(a[..], size, n);
      ghost var left0, right0 := left, right;
      left := ScanUp(a, size, n, cmp, left, pivot, right + 1, hi);
      BelowJoin(cmp, s, lo, left0, left, pivot);
      right := ScanDown(a, size, n, cmp, right, pivot, left - 1, lo);
      BelowJoin(cmp, s, right + 1, right0 + 1, hi + 1, pivot);
      if left < right {
        SwapWalls(cmp, s, lo, hi, left, right, pivot);
        SwapWithin(a, size, n, left, right, s0, lo, hi);
        left, right := left + 1, right - 1;
      } else if left == right {
        CloseWalls(cmp, s, lo, hi, left, pivot);
        left, right := left + 1, right - 1;
        collapsed := true;
      }
    }
    PartedByPivot(cmp, Items(a[..], size, n), size, lo, hi, left, right, pivot);
  }

  lemma PartedByPivot(cmp: Comparator, t: seq<Item>, size: nat, lo: nat, hi: nat, left: nat, right: nat, pivot: Item)
    requires TotalPreorder(cmp, size) && |pivot| == size && forall k :: 0 <= k < |t| ==> |t[k]| == size
    requires lo <= right < left <= right + 2 && left <= hi < |t|
    requires Below(cmp, t, lo, left, pivot) && Above(cmp, t, right + 1, hi + 1, pivot)
    ensures Parted(cmp, t, lo, hi, left, right)
  {
    forall i, j | lo <= i < left && right < j <= hi ensures Le(cmp, t[i], t[j]) {
      assert Chain(t[i], pivot, t[j]);
    }
  }

  // ----- The explicit stack -----

  /** A stack node: the first and the last place of a partition still to be sorted. */
  datatype Part = Part(lo: nat, hi: nat) {
    function Size(): int { hi - lo + 1 }
  }

  ghost predicate Pending(cmp: Comparator, s: seq<Item>, p: Part) {
    && p.lo + MAX_THRESH <= p.hi < |s|
    && Cut(cmp, s, p.lo)
    && Cut(cmp, s, p.hi + 1)
  }

  ghost predicate Apart(p: Part, q: Part) {
    p.hi < q.lo || q.hi < p.lo
  }

  ghost predicate Within(ps: seq<Part>, i: int, j: int) {
    exists k :: 0 <= k < |ps| && ps[k].lo <= i && j <= ps[k].hi
  }

  /** What every turn of the quicksort loop keeps: only pairs inside one pending part may still be out of order. */
  ghost predicate PhaseInv(cmp: Comparator, s: seq<Item>, ps: seq<Part>) {
    && (forall k :: 0 <= k < |ps| ==> Pending(cmp, s, ps[k]))
    && (forall k, m :: 0 <= k < m < |ps| ==> Apart(ps[k], ps[m]))
    && (forall i, j :: 0 <= i && i + MAX_THRESH < j < |s| ==> Le(cmp, s[i], s[j]) || Within(ps, i, j))
  }

  /** The parts of a partition that are worth sorting on: those of more than MAX_THRESH + 1 items. */
  ghost predicate KeptParts(parts: seq<Part>, l: Part, r: Part) {
    && (l.hi - l.lo > MAX_THRESH && r.hi - r.lo > MAX_THRESH ==> parts == [l, r] || parts == [r, l])
    && (l.hi - l.lo > MAX_THRESH && r.hi - r.lo <= MAX_THRESH ==> parts == [l])
    && (l.hi - l.lo <= MAX_THRESH && r.hi - r.lo > MAX_THRESH ==> parts == [r])
    && (l.hi - l.lo <= MAX_THRESH && r.hi - r.lo <= MAX_THRESH ==> parts == [])
  }

  /** A part's size, doubled once for each entry below it. */
  ghost function Weight(p: Part, k: nat): (w: int) {
    p.Size() * Pow2(k)
  }

  ghost predicate Halving(ps: seq<Part>, n: nat) {
    forall k :: 0 <= k < |ps| ==> Weight(ps[k], k) <= n
  }

  lemma WeightLe(p: Part, q: Part, k: nat)
    ensures p.Size() <= q.Size() ==> Weight(p, k) <= Weight(q, k)
    ensures 2 * p.Size() <= q.Size() ==> Weight(p, k + 1) <= Weight(q, k)
  {
    assert Weight(p, k + 1) == (2 * p.Size()) * Pow2(k);
    if 2 * p.Size() <= q.Size() {
      assert (q.Size() - 2 * p.Size()) * Pow2(k) >= 0;
    }
    if p.Size() <= q.Size() {
      assert (q.Size() - p.Size()) * Pow2(k) >= 0;
    }
  }

  lemma PartedCuts(cmp: Comparator, s: seq<Item>, t: seq<Item>, p: Part, left: nat, right: nat)
    requires Pending(cmp, s, p) && Rearranged(s, t, p.lo, p.hi) && Parted(cmp, t, p.lo, p.hi, left, right)
    ensures Cut(cmp, t, p.lo) && Cut(cmp, t, p.hi + 1) && Cut(cmp, t, left) && Cut(cmp, t, right + 1)
  {
    RearrangedCut(cmp, s, t, p.lo, p.hi, p.lo);
    RearrangedCut(cmp, s, t, p.lo, p.hi, p.hi + 1);
  }

  lemma OthersPending(cmp: Comparator, s: seq<Item>, t: seq<Item>, p: Part, q: Part)
    requires Pending(cmp, s, p) && Pending(cmp, s, q) && Apart(q, p) && Rearranged(s, t, p.lo, p.hi)
    ensures Pending(cmp, t, q)
  {
    RearrangedCut(cmp, s, t, p.lo, p.hi, q.lo);
    RearrangedCut(cmp, s, t, p.lo, p.hi, q.hi + 1);
  }

  /** Outside the part that was divided nothing changes. */
  lemma OutsideOrders(cmp: Comparator, s: seq<Item>, t: seq<Item>, ps: seq<Part>, parts: seq<Part>, i: nat, j: nat)
    requires |ps| > 0 && PhaseInv(cmp, s, ps)
    requires var p := ps[|ps| - 1];
             Rearranged(s, t, p.lo, p.hi) && (j < p.lo || p.hi < i)
    requires i + MAX_THRESH < j < |t|
    ensures Le(cmp, t[i], t[j]) || Within(ps[..|ps| - 1] + parts, i, j)
  {
    hide Le;
    var p, ps' := ps[|ps| - 1], ps[..|ps| - 1] + parts;
    var i' := RearrangedFrom(s, t, p.lo, p.hi, i);
    var j' := RearrangedFrom(s, t, p.lo, p.hi, j);
    if !Le(cmp, s[i], s[j]) {
      var k :| 0 <= k < |ps| && ps[k].lo <= i && j <= ps[k].hi;
      assert ps'[k].lo <= i && j <= ps'[k].hi;
    }
  }

  /** Two places of `t` more than MAX_THRESH apart are in order or lie in one part that is kept. */
  lemma StepOrders(cmp: Comparator, s: seq<Item>, t: seq<Item>, ps: seq<Part>, left: nat, right: nat, parts: seq<Part>, i: nat, j: nat)
    requires |ps| > 0 && PhaseInv(cmp, s, ps)
    requires var p := ps[|ps| - 1];
             && Rearranged(s, t, p.lo, p.hi) && Parted(cmp, t, p.lo, p.hi, left, right)
             && KeptParts(parts, Part(p.lo, right), Part(left, p.hi))
    requires i + MAX_THRESH < j < |t|
    ensures Le(cmp, t[i], t[j]) || Within(ps[..|ps| - 1] + parts, i, j)
  {
    var last := |ps| - 1;
    var p, ps' := ps[last], ps[..last] + parts;
    if p.lo <= i && j <= right {
      hide PhaseInv, Parted, Rearranged;
      var k :| 0 <= k < |parts| && parts[k] == Part(p.lo, right);
      assert ps'[last + k].lo <= i && j <= ps'[last + k].hi;
    } else if left <= i && j <= p.hi {
      hide PhaseInv, Parted, Rearranged;
      var k :| 0 <= k < |parts| && parts[k] == Part(left, p.hi);
      assert ps'[last + k].lo <= i && j <= ps'[last + k].hi;
    } else if j < p.lo || p.hi < i {
      hide KeptParts, Parted, Le;
      OutsideOrders(cmp, s, t, ps, parts, i, j);
    } else {
      PartedCuts(cmp, s, t, p, left, right);
      hide KeptParts, Rearranged, PhaseInv;
    }
  }

  lemma PhaseStep(cmp: Comparator, s: seq<Item>, t: seq<Item>, ps: seq<Part>, left: nat, right: nat, parts: seq<Part>)
    requires |ps| > 0 && PhaseInv(cmp, s, ps)
    requires var p := ps[|ps| - 1];
             && Rearranged(s, t, p.lo, p.hi) && Parted(cmp, t, p.lo, p.hi, left, right)
             && KeptParts(parts, Part(p.lo, right), Part(left, p.hi))
    ensures PhaseInv(cmp, t, ps[..|ps| - 1] + parts)
  {
    var last := |ps| - 1;
    var p, ps' := ps[last], ps[..last] + parts;
    PartedCuts(cmp, s, t, p, left, right);
    forall k | 0 <= k < |ps'| ensures Pending(cmp, t, ps'[k]) {
      if k < last {
        assert Apart(ps[k], ps[last]);
        OthersPending(cmp, s, t, p, ps[k]);
      }
    }
    forall k, m | 0 <= k < m < |ps'| ensures Apart(ps'[k], ps'[m]) {
      if k < last {
        assert Apart(ps[k], if m < last then ps[m] else ps[last]);
      }
    }
    forall i, j | 0 <= i && i + MAX_THRESH < j < |t| ensures Le(cmp, t[i], t[j]) || Within(ps', i, j) {
      StepOrders(cmp, s, t, ps, left, right, parts, i, j);
    }
  }

  /** Pushing the larger part keeps the halving, because the other is at most half of both. */
  lemma HalvingStep(ps: seq<Part>, n: nat, parts: seq<Part>)
    requires |ps| > 0 && Halving(ps, n) && |parts| <= 2
    requires forall q :: q in parts ==> 0 < q.Size() <= ps[|ps| - 1].Size()
    requires |parts| == 2 ==> 2 * parts[1].Size() <= ps[|ps| - 1].Size()
    ensures Halving(ps[..|ps| - 1] + parts, n)
  {
    hide Weight;
    var last := |ps| - 1;
    var ps' := ps[..last] + parts;
    forall k | 0 <= k < |ps'| ensures Weight(ps'[k], k) <= n {
      if k >= last {
        assert ps'[k] == parts[k - last] && parts[k - last] in parts;
        WeightLe(ps'[k], ps[last], last);
      }
    }
  }

  lemma Pow2Of31()
    ensures Pow2(31) > INT_MAX
  {
    assert Pow2(8) == 0x100;
    assert Pow2(16) == 0x1_0000;
    assert Pow2(24) == 0x100_0000;
  }

  /** With a part of at least MAX_THRESH + 1 items on top, the depth is less than log2 of the array's size. */
  lemma DepthBound(ps: seq<Part>, n: nat)
    requires |ps| > 0 && Halving(ps, n) && ps[|ps| - 1].Size() > MAX_THRESH
    ensures Pow2(|ps| + 1) <= n
    ensures n <= INT_MAX ==> |ps| + 1 < STACK_SIZE
  {
    var last := |ps| - 1;
    assert 4 * Pow2(last) <= Weight(ps[last], last);
    assert Pow2(|ps| + 1) == 2 * Pow2(|ps|) == 4 * Pow2(last);
    if n <= INT_MAX && |ps| + 1 >= 31 {
      Pow2Monotone(31, |ps| + 1);
      Pow2Of31();
    }
  }

  /** How much partitioning the pending parts can still cause. */
  ghost function Work(ps: seq<Part>): (w: int) {
    if ps == [] then 0 else 2 * ps[|ps| - 1].Size() - 1 + Work(ps[..|ps| - 1])
  }

  lemma {:induction false} WorkNonNegative(ps: seq<Part>)
    requires forall k :: 0 <= k < |ps| ==> ps[k].Size() > 0
    ensures Work(ps) >= 0
  {
    if ps != [] {
      WorkNonNegative(ps[..|ps| - 1]);
    }
  }

  lemma WorkOfOneMore(ps: seq<Part>, p: Part)
    ensures Work(ps + [p]) == Work(ps) + 2 * p.Size() - 1
  {
    assert (ps + [p])[..|ps|] == ps;
  }

  lemma WorkStep(ps: seq<Part>, parts: seq<Part>)
    requires |ps| > 0 && |parts| <= 2
    requires |parts| >= 1 ==> parts[0].Size() < ps[|ps| - 1].Size()
    requires |parts| == 2 ==> parts[0].Size() + parts[1].Size() <= ps[|ps| - 1].Size()
    requires ps[|ps| - 1].Size() > 0
    ensures Work(ps[..|ps| - 1] + parts) < Work(ps)
  {
    hide Work;
    var rest := ps[..|ps| - 1];
    assert rest + [ps[|ps| - 1]] == ps;
    WorkOfOneMore(rest, ps[|ps| - 1]);
    if |parts| == 0 {
      assert rest + parts == rest;
    } else {
      WorkOfOneMore(rest, parts[0]);
      if |parts| == 1 {
        assert rest + parts == rest + [parts[0]];
      } else {
        WorkOfOneMore(rest + [parts[0]], parts[1]);
        assert rest + parts == rest + [parts[0]] + [parts[1]];
      }
    }
  }

  /**
   * The quicksort loop.  `stack` has the fixed STACK_SIZE slots, of which slot 0 is never
   * filled, and `top` is the index PUSH writes to; the loop ends when a POP takes `top` back to 0.
   */
  method QuickSortPhase(a: array<byte>, size: nat, n: nat, cmp: Comparator) returns (ghost peak: nat)
    requires a.Length == n * size && size >= 1 && TotalPreorder(cmp, size)
    requires MAX_THRESH < n <= INT_MAX
    modifies a
    ensures NearlySorted(cmp, Items(a[..], size, n))
    ensures multiset(Items(a[..], size, n)) == multiset(old(Items(a[..], size, n)))
    ensures 1 <= peak && Pow2(peak + 1) <= n
  {
    hide Items, Rearranged, TotalPreorder, Parted, Halving, PhaseInv, Work, Pow2;
    var lo: nat, hi: nat := 0, n - 1;
    var stack := new Part[STACK_SIZE](_ => Part(0, 0));
    var top := 1;
    ghost var ps := [Part(lo, hi)];
    peak := 1;
    StartPhase(cmp, Items(a[..], size, n), n);
    while 0 < top
      invariant 0 <= top == |ps| < STACK_SIZE
      invariant top > 0 ==> ps[top - 1] == Part(lo, hi)
      invariant forall k :: 1 <= k < top ==> stack[k] == ps[k - 1]
      invariant PhaseInv(cmp, Items(a[..], size, n), ps) && Halving(ps, n)
      invariant multiset(Items(a[..], size, n)) == multiset(old(Items(a[..], size, n)))
      invariant top <= peak && Pow2(peak + 1) <= n
      invariant Work(ps) >= 0
      decreases Work(ps)
    {
      ghost var s := Items(a[..], size, n);
      ghost var ps0, parts := ps, [];
      PendingTop(cmp, s, ps);
      var left, right := Partition(a, size, n, cmp, lo, hi);
      RearrangedMultiset(s, Items(a[..], size, n), lo, hi);
      if right - lo <= MAX_THRESH {
        if hi - left <= MAX_THRESH {
          top := top - 1;
          lo, hi := stack[top].lo, stack[top].hi;
        } else {
          parts := [Part(left, hi)];
          lo := left;
        }
      } else if hi - left <= MAX_THRESH {
        parts := [Part(lo, right)];
        hi := right;
      } else if right - lo > hi - left {
        parts := [Part(lo, right), Part(left, hi)];
        stack[top] := Part(lo, right);
        top := top + 1;
        lo := left;
      } else {
        parts := [Part(left, hi), Part(lo, right)];
        stack[top] := Part(left, hi);
        top := top + 1;
        hi := right;
      }
      ps := ps0[..|ps0| - 1] + parts;
      TurnKeeps(cmp, s, Items(a[..], size, n), ps0, left, right, parts, n);
      if top > peak {
        peak := top;
      }
    }
    assert ps == [];
    PhaseDone(cmp, Items(a[..], size, n));
  }

  lemma StartPhase(cmp: Comparator, s: seq<Item>, n: nat)
    requires |s| == n > MAX_THRESH
    ensures PhaseInv(cmp, s, [Part(0, n - 1)]) && Halving([Part(0, n - 1)], n)
    ensures Work([Part(0, n - 1)]) >= 0 && Pow2(2) <= n
  {
    var ps := [Part(0, n - 1)];
    assert ps[..0] == [];
    forall i, j | 0 <= i && i + MAX_THRESH < j < |s| ensures Within(ps, i, j) {
      assert ps[0].lo <= i && j <= ps[0].hi;
    }
  }

  lemma PendingTop(cmp: Comparator, s: seq<Item>, ps: seq<Part>)
    requires |ps| > 0 && PhaseInv(cmp, s, ps)
    ensures ps[|ps| - 1].lo + MAX_THRESH <= ps[|ps| - 1].hi < |s|
  {
    assert Pending(cmp, s, ps[|ps| - 1]);
  }

  /** One turn of the loop: the invariant, the stack bound and the progress. */
  lemma TurnKeeps(cmp: Comparator, s: seq<Item>, t: seq<Item>, ps: seq<Part>, left: nat, right: nat, parts: seq<Part>, n: nat)
    requires |ps| > 0 && PhaseInv(cmp, s, ps) && Halving(ps, n) && n <= INT_MAX
    requires var p := ps[|ps| - 1];
             && Rearranged(s, t, p.lo, p.hi) && Parted(cmp, t, p.lo, p.hi, left, right)
             && KeptParts(parts, Part(p.lo, right), Part(left, p.hi))
    requires |parts| == 2 ==> parts[1].Size() <= parts[0].Size()
    ensures var ps' := ps[..|ps| - 1] + parts;
            && PhaseInv(cmp, t, ps') && Halving(ps', n)
            && (ps' != [] ==> Pow2(|ps'| + 1) <= n && |ps'| + 1 < STACK_SIZE)
            && 0 <= Work(ps') < Work(ps)
  {
    var ps' := ps[..|ps| - 1] + parts;
    PhaseStep(cmp, s, t, ps, left, right, parts);
    HalvingStep(ps, n, parts);
    WorkStep(ps, parts);
    forall k | 0 <= k < |ps'| ensures ps'[k].Size() > MAX_THRESH {
      assert Pending(cmp, t, ps'[k]);
    }
    WorkNonNegative(ps');
    if ps' != [] {
      DepthBound(ps', n);
    }
  }

  lemma PhaseDone(cmp: Comparator, s: seq<Item>)
    requires PhaseInv(cmp, s, [])
    ensures NearlySorted(cmp, s)
  {
    forall i, j | 0 <= i && i + MAX_THRESH < j < |s| ensures Le(cmp, s[i], s[j]) {
      assert Le(cmp, s[i], s[j]) || Within([], i, j);
    }
  }

  // ----- The insertion pass -----

  ghost predicate Least(cmp: Comparator, s: seq<Item>, k: nat) {
    k < |s| && forall i :: 0 <= i < |s| ==> Le(cmp, s[k], s[i])
  }

  ghost predicate SortedTo(cmp: Comparator, s: seq<Item>, to: nat) {
    forall i, j :: 0 <= i < j < to <= |s| ==> Le(cmp, s[i], s[j])
  }

  /** The least of the first MAX_THRESH + 1 items is the least of all. */
  lemma LeastIsNearTheFront(cmp: Comparator, s: seq<Item>, size: nat, k: nat, thresh: nat)
    requires TotalPreorder(cmp, size) && NearlySorted(cmp, s) && forall i :: 0 <= i < |s| ==> |s[i]| == size
    requires k <= thresh < |s| && (thresh == |s| - 1 || thresh == MAX_THRESH)
    requires forall i :: 0 <= i <= thresh ==> Le(cmp, s[k], s[i])
    ensures Least(cmp, s, k)
  {
    forall i | 0 <= i < |s| ensures Le(cmp, s[k], s[i]) {
      if i > thresh {
        assert Chain(s[k], s[0], s[i]);
      }
    }
  }

  /** Finds the least of the first MAX_THRESH + 1 items and puts it at the base of the array. */
  method PlaceLeast(a: array<byte>, size: nat, n: nat, cmp: Comparator)
    requires a.Length == n * size && size >= 1 && TotalPreorder(cmp, size)
    requires n >= 1 && NearlySorted(cmp, Items(a[..], size, n))
    modifies a
    ensures Least(cmp, Items(a[..], size, n), 0)
    ensures multiset(Items(a[..], size, n)) == multiset(old(Items(a[..], size, n)))
  {
    hide Items, TotalPreorder;
    ghost var s := Items(a[..], size, n);
    var thresh := if n - 1 < MAX_THRESH then n - 1 else MAX_THRESH;
    var tmp, run := 0, 1;
    Flip(cmp, size, s[0], s[0]);
    while run <= thresh
      invariant 1 <= run <= thresh + 1 && 0 <= tmp < run && Items(a[..], size, n) == s
      invariant forall i :: 0 <= i < run ==> Le(cmp, s[tmp], s[i])
    {
      var c := Compare(a, size, n, cmp, run, tmp);
      Flip(cmp, size, s[run], s[tmp]);
      Flip(cmp, size, s[run], s[run]);
      if c < 0 {
        LessThanAll(cmp, size, s, run, tmp);
        tmp := run;
      }
      run := run + 1;
    }
    LeastIsNearTheFront(cmp, s, size, tmp, thresh);
    if tmp != 0 {
      SwapItems(a, size, n, tmp, 0);
    }
  }

  lemma LessThanAll(cmp: Comparator, size: nat, s: seq<Item>, run: nat, tmp: nat)
    requires TotalPreorder(cmp, size) && forall i :: 0 <= i < |s| ==> |s[i]| == size
    requires tmp < run < |s| && cmp(s[run], s[tmp]) < 0
    requires forall i :: 0 <= i < run ==> Le(cmp, s[tmp], s[i])
    ensures forall i :: 0 <= i <= run ==> Le(cmp, s[run], s[i])
  {
    forall i | 0 <= i <= run ensures Le(cmp, s[run], s[i]) {
      if i < run {
        assert Chain(s[run], s[tmp], s[i]);
      } else {
        Flip(cmp, size, s[run], s[run]);
      }
    }
  }

  /** Moving an item down to just above the first smaller-or-equal one extends the sorted front. */
  lemma InsertKeepsSorted(cmp: Comparator, size: nat, s: seq<Item>, tmp: nat, run: nat)
    requires TotalPreorder(cmp, size) && forall i :: 0 <= i < |s| ==> |s[i]| == size
    requires 0 < tmp <= run < |s| && SortedTo(cmp, s, run) && Least(cmp, s, 0)
    requires Le(cmp, s[tmp - 1], s[run])
    requires forall i :: tmp <= i < run ==> Le(cmp, s[run], s[i])
    ensures SortedTo(cmp, Rotated(s, tmp, run), run + 1) && Least(cmp, Rotated(s, tmp, run), 0)
  {
    var t := Rotated(s, tmp, run);
    forall i, j | 0 <= i < j < run + 1 ensures Le(cmp, t[i], t[j]) {
      if j == tmp && i < tmp - 1 {
        assert Chain(s[i], s[tmp - 1], s[run]);
      }
    }
  }

  lemma RotatedInPlace(s: seq<Item>, run: nat)
    requires run < |s|
    ensures Rotated(s, run, run) == s
  {
  }

  lemma SortedEnds(cmp: Comparator, s: seq<Item>)
    ensures Least(cmp, s, 0) ==> SortedTo(cmp, s, if |s| < 2 then |s| else 2)
    ensures SortedTo(cmp, s, |s|) ==> Sorted(cmp, s)
  {
  }

  /** `while (CMP (run_ptr, tmp_ptr -= size) < 0);` and the step back up. */
  method FindSlot(a: array<byte>, size: nat, n: nat, cmp: Comparator, run: nat) returns (tmp: nat)
    requires a.Length == n * size && size >= 1 && TotalPreorder(cmp, size)
    requires 1 <= run < n && Least(cmp, Items(a[..], size, n), 0)
    ensures 0 < tmp <= run
    ensures Le(cmp, Items(a[..], size, n)[tmp - 1], Items(a[..], size, n)[run])
    ensures forall i :: tmp <= i < run ==> Le(cmp, Items(a[..], size, n)[run], Items(a[..], size, n)[i])
  {
    hide Items, TotalPreorder;
    ghost var s := Items(a[..], size, n);
    tmp := run - 1;
    var c := Compare(a, size, n, cmp, run, tmp);
    Flip(cmp, size, s[run], s[tmp]);
    Flip(cmp, size, s[run], s[0]);
    assert Le(cmp, s[0], s[run]);
    while c < 0
      invariant 0 <= tmp < run && c == cmp(s[run], s[tmp])
      invariant c < 0 || Le(cmp, s[tmp], s[run])
      invariant forall i :: tmp < i < run ==> Le(cmp, s[run], s[i])
      decreases tmp
    {
      tmp := tmp - 1;
      c := Compare(a, size, n, cmp, run, tmp);
      Flip(cmp, size, s[run], s[tmp]);
    }
    tmp := tmp + 1;
  }

  /**
   * The insertion pass.  It starts at the third item, because the first two are in order once
   * the least item is at the base; the inner scan has no bounds test, the base stops it.
   */
  method InsertionPass(a: array<byte>, size: nat, n: nat, cmp: Comparator)
    requires a.Length == n * size && size >= 1 && TotalPreorder(cmp, size)
    requires n >= 1 && Least(cmp, Items(a[..], size, n), 0)
    modifies a
    ensures Sorted(cmp, Items(a[..], size, n))
    ensures multiset(Items(a[..], size, n)) == multiset(old(Items(a[..], size, n)))
  {
    hide Items, TotalPreorder, Least, SortedTo, Sorted, Le, Rotated;
    SortedEnds(cmp, Items(a[..], size, n));
    var run := 2;
    while run <= n - 1
      invariant 2 <= run && (n >= 2 ==> run <= n)
      invariant Least(cmp, Items(a[..], size, n), 0)
      invariant SortedTo(cmp, Items(a[..], size, n), if run <= n then run else n)
      invariant multiset(Items(a[..], size, n)) == multiset(old(Items(a[..], size, n)))
    {
      ghost var s := Items(a[..], size, n);
      var tmp := FindSlot(a, size, n, cmp, run);
      InsertKeepsSorted(cmp, size, s, tmp, run);
      if tmp != run {
        RotateItems(a, size, n, tmp, run);
      } else {
        RotatedInPlace(s, run);
      }
      run := run + 1;
    }
    SortedEnds(cmp, Items(a[..], size, n));
  }

  /**
   * `qsort`: for every array of `n` items of `size` bytes and every comparator that is a total
   * preorder, the items end sorted and are the items there were.
   */
  method QSort(a: array<byte>, size: nat, n: nat, cmp: Comparator)
    requires a.Length == n * size && size >= 1 && TotalPreorder(cmp, size)
    requires n <= INT_MAX
    modifies a
    ensures Sorted(cmp, Items(a[..], size, n))
    ensures multiset(Items(a[..], size, n)) == multiset(old(Items(a[..], size, n)))
  {
    hide Items, TotalPreorder;
    if n > MAX_THRESH {
      ghost var peak := QuickSortPhase(a, size, n, cmp);
    }
    if n >= 1 {
      PlaceLeast(a, size, n, cmp);
      InsertionPass(a, size, n, cmp);
    }
  }
}
