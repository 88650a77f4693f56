/** The value types that the C utilities share: unsigned bytes and strings of them. */
module Bytes {
  /** An `unsigned char`. */
  type byte = b: int | 0 <= b < 256

  const EOF := -1

  const NUL: byte := 0
  const TAB: byte := 9
  const LF: byte := 10
  const CR: byte := 13
  const SPACE: byte := 32
  const DOT: byte := '.' as int
  const FROM_: seq<byte> := ['F' as int, 'r' as int, 'o' as int, 'm' as int, SPACE]

  /** The lines of `t`, the first of them with `cur` in front; the last one has no line break. */
  function Lines(cur: seq<byte>, t: seq<byte>): (ls: seq<seq<byte>>)
    ensures |ls| >= 1
    decreases |t|
  {
    if t == [] then [cur]
    else if t[0] == LF then [cur] + Lines([], t[1..])
    else Lines(cur + [t[0]], t[1..])
  }

  /** Characters without a line break among them belong to the current line. */
  lemma {:induction false} LinesOfText(cur: seq<byte>, p: seq<byte>, rest: seq<byte>)
    requires LF !in p
    ensures Lines(cur, p + rest) == Lines(cur + p, rest)
    decreases |p|
  {
    if p == [] {
      assert p + rest == rest && cur + p == cur;
    } else {
      assert (p + rest)[1..] == p[1..] + rest;
      LinesOfText(cur + [p[0]], p[1..], rest);
      assert cur + [p[0]] + p[1..] == cur + p;
    }
  }

  /** 2 to the power `k`. */
  function Pow2(k: nat): (p: nat)
    ensures p >= 1
  {
    if k == 0 then 1 else 2 * Pow2(k - 1)
  }

  lemma {:induction false} Pow2Monotone(j: nat, k: nat)
    requires j <= k
    ensures Pow2(j) <= Pow2(k)
    decreases k
  {
    if j < k {
      Pow2Monotone(j, k - 1);
    }
  }
}
