/**
 * The byte-level layer of lib-src/qsort.c: an array of bytes read as a row of
 * items of `size` bytes each, with the macros SWAP and COPY and the byte-wise rotation of
 * the insertion pass.  Positions are item indices: a C pointer `base_ptr + size * k`
 * is the index `k`.
 */
module QSortItems {
  import opened Bytes

  type Item = seq<byte>

  /** The address of byte `b` of item `k`. */
  function Off(size: nat, k: int, b: int): (p: int)
  {
    k * size + b
  }

  lemma OffBounds(size: nat, n: nat, k: nat, b: nat)
    requires k < n && b < size
    ensures 0 <= Off(size, k, b) < n * size
    ensures Off(size, k, 0) + size <= n * size
  {
    assert (k + 1) * size <= n * size;
    assert (k + 1) * size == k * size + size;
  }

  lemma OffInjective(size: nat, k: nat, b: nat, k': nat, b': nat)
    requires b < size && b' < size
    requires k != k' || b != b'
    ensures Off(size, k, b) != Off(size, k', b')
  {
    if k < k' {
      assert (k + 1) * size <= k' * size;
      assert (k + 1) * size == k * size + size;
    } else if k' < k {
      assert (k' + 1) * size <= k * size;
      assert (k' + 1) * size == k' * size + size;
    }
  }

  /** Byte `b` of item `k`. */
  function Cell(s: seq<byte>, size: nat, n: nat, k: nat, b: nat): (c: byte)
    requires |s| == n * size && k < n && b < size
  {
    OffBounds(size, n, k, b);
    s[Off(size, k, b)]
  }

  /** Item `k`, the bytes a comparator called with its address sees. */
  function ItemAt(s: seq<byte>, size: nat, n: nat, k: nat): (x: Item)
    requires |s| == n * size && k < n && size >= 1
    ensures |x| == size
    ensures forall b :: 0 <= b < size ==> x[b] == Cell(s, size, n, k, b)
  {
    OffBounds(size, n, k, 0);
    var x := s[Off(size, k, 0)..Off(size, k, 0) + size];
    assert forall b :: 0 <= b < size ==> x[b] == Cell(s, size, n, k, b);
    x
  }

  /** The whole array as a row of items. */
  function Items(s: seq<byte>, size: nat, n: nat): (r: seq<Item>)
    requires |s| == n * size && size >= 1
    ensures |r| == n
    ensures forall k :: 0 <= k < n ==> |r[k]| == size
  {
    seq(n, k requires 0 <= k < n => ItemAt(s, size, n, k))
  }

  /** Two rows of items agree once all their cells agree. */
  lemma ItemsFromCells(s: seq<byte>, size: nat, n: nat, want: seq<Item>)
    requires |s| == n * size && size >= 1 && |want| == n
    requires forall k :: 0 <= k < n ==> |want[k]| == size
    requires forall k, b :: 0 <= k < n && 0 <= b < size ==> Cell(s, size, n, k, b) == want[k][b]
    ensures Items(s, size, n) == want
  {
    forall k | 0 <= k < n ensures Items(s, size, n)[k] == want[k] {
      assert forall b :: 0 <= b < size ==> ItemAt(s, size, n, k)[b] == want[k][b];
    }
  }

  /** Writing one cell changes that cell and no other. */
  lemma CellAfterWrite(s: seq<byte>, t: seq<byte>, size: nat, n: nat, k: nat, b: nat, c: byte)
    requires |s| == n * size && k < n && b < size
    requires |t| == |s| && 0 <= Off(size, k, b) < |s| && t == s[Off(size, k, b) := c]
    ensures forall k', b' :: 0 <= k' < n && 0 <= b' < size ==>
                               Cell(t, size, n, k', b') ==
                               if k' == k && b' == b then c else Cell(s, size, n, k', b')
  {
    forall k', b' | 0 <= k' < n && 0 <= b' < size
      ensures Cell(t, size, n, k', b') == if k' == k && b' == b then c else Cell(s, size, n, k', b')
    {
      OffBounds(size, n, k', b');
      if k' != k || b' != b {
        OffInjective(size, k', b', k, b);
      }
    }
  }

  /** `*to = *from` on cells of two items. */
  method PutCell(a: array<byte>, size: nat, n: nat, k: nat, b: nat, c: byte)
    requires a.Length == n * size && k < n && b < size
    modifies a
    ensures forall k', b' :: 0 <= k' < n && 0 <= b' < size ==>
                               Cell(a[..], size, n, k', b') ==
                               if k' == k && b' == b then c else Cell(old(a[..]), size, n, k', b')
  {
    OffBounds(size, n, k, b);
    a[Off(size, k, b)] := c;
    CellAfterWrite(old(a[..]), a[..], size, n, k, b, c);
  }

  method GetCell(a: array<byte>, size: nat, n: nat, k: nat, b: nat) returns (c: byte)
    requires a.Length == n * size && k < n && b < size
    ensures c == Cell(a[..], size, n, k, b)
  {
    OffBounds(size, n, k, b);
    c := a[Off(size, k, b)];
  }

  /** The bytes at an item's address, as CMP and COPY read them. */
  method GetItem(a: array<byte>, size: nat, n: nat, k: nat) returns (x: Item)
    requires a.Length == n * size && size >= 1 && k < n
    ensures x == Items(a[..], size, n)[k]
  {
    OffBounds(size, n, k, 0);
    x := a[Off(size, k, 0)..Off(size, k, 0) + size];
  }

  /** SWAP: exchanges two items byte by byte. */
  method SwapItems(a: array<byte>, size: nat, n: nat, i: nat, j: nat)
    requires a.Length == n * size && size >= 1 && i < n && j < n && i != j
    modifies a
    ensures Items(a[..], size, n) == old(Items(a[..], size, n))[i := old(Items(a[..], size, n)[j])][j := old(Items(a[..], size, n)[i])]
  {
    ghost var was := Items(a[..], size, n);
    ghost var want := was[i := was[j]][j := was[i]];
    var sz := 0;
    while sz < size
      invariant 0 <= sz <= size
      invariant forall k, b :: 0 <= k < n && 0 <= b < size ==>
                                 Cell(a[..], size, n, k, b) == if b < sz then want[k][b] else was[k][b]
    {
      var temp := GetCell(a, size, n, i, sz);
      var other := GetCell(a, size, n, j, sz);
      PutCell(a, size, n, i, sz, other);
      PutCell(a, size, n, j, sz, temp);
      sz := sz + 1;
    }
    ItemsFromCells(a[..], size, n, want);
  }

  /** The row with item `run` moved down to position `tmp`, the items between moving up one. */
  function Rotated<T>(s: seq<T>, tmp: nat, run: nat): (r: seq<T>)
    requires tmp <= run < |s|
    ensures |r| == |s|
    ensures r[tmp] == s[run]
    ensures forall k :: 0 <= k < |s| && (k < tmp || run < k) ==> r[k] == s[k]
    ensures forall k :: tmp < k <= run ==> r[k] == s[k - 1]
    ensures multiset(r) == multiset(s)
  {
    assert s == s[..tmp] + s[tmp..run] + [s[run]] + s[run + 1..];
    s[..tmp] + [s[run]] + s[tmp..run] + s[run + 1..]
  }

  /** The cell that ends in row `k` when column `b` of the items `tmp..run` is rotated. */
  ghost function RotatedCell(was: seq<Item>, size: nat, tmp: nat, run: nat, k: nat, b: nat): (c: byte)
    requires tmp < run < |was| && k < |was| && b < size && forall j :: 0 <= j < |was| ==> |was[j]| == size
  {
    if k < tmp || run < k then was[k][b] else if k == tmp then was[run][b] else was[k - 1][b]
  }

  /** One column of the rotation: byte `b` of the items `tmp..run`. */
  method RotateColumn(a: array<byte>, size: nat, n: nat, tmp: nat, run: nat, b: nat, ghost was: seq<Item>)
    requires a.Length == n * size && size >= 1 && tmp < run < n && b < size
    requires |was| == n && forall j :: 0 <= j < |was| ==> |was[j]| == size
    requires forall k :: 0 <= k < n ==> Cell(a[..], size, n, k, b) == was[k][b]
    modifies a
    ensures forall k, b' :: 0 <= k < n && 0 <= b' < size ==>
                              Cell(a[..], size, n, k, b') ==
                              if b' != b then Cell(old(a[..]), size, n, k, b') else RotatedCell(was, size, tmp, run, k, b)
  {
    var c := GetCell(a, size, n, run, b);
    var hi := run;
    while hi - 1 >= tmp
      invariant tmp <= hi <= run
      invariant forall k, b' :: 0 <= k < n && 0 <= b' < size ==>
                                  Cell(a[..], size, n, k, b') ==
                                  if b' != b then Cell(old(a[..]), size, n, k, b')
                                  else if k <= hi then was[k][b]
                                  else RotatedCell(was, size, tmp, run, k, b)
    {
      var below := GetCell(a, size, n, hi - 1, b);
      PutCell(a, size, n, hi, b, below);
      hi := hi - 1;
    }
    PutCell(a, size, n, tmp, b, c);
  }

  /** The byte-wise rotation of the insertion pass, from the last byte of an item to the first. */
  method RotateItems(a: array<byte>, size: nat, n: nat, tmp: nat, run: nat)
    requires a.Length == n * size && size >= 1 && tmp < run < n
    modifies a
    ensures Items(a[..], size, n) == Rotated(old(Items(a[..], size, n)), tmp, run)
  {
    ghost var was := Items(a[..], size, n);
    var trav := size;
    while trav > 0
      invariant 0 <= trav <= size
      invariant forall k, b :: 0 <= k < n && 0 <= b < size ==>
                                 Cell(a[..], size, n, k, b) ==
                                 if b >= trav then RotatedCell(was, size, tmp, run, k, b) else was[k][b]
    {
      trav := trav - 1;
      RotateColumn(a, size, n, tmp, run, trav, was);
    }
    ItemsFromCells(a[..], size, n, Rotated(was, tmp, run));
  }
}
