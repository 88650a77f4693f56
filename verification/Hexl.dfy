/**
 * lib-src/hexl.c: the loop of `main` that prints a file in hexadecimal, and the `-un` loop that
 * reads such a listing back.  The listing has an address, the bytes in hexadecimal in groups, and
 * the bytes as text; only the address and the hexadecimal part count when it is read back.
 */
module Hexl {
  import opened Bytes
  import opened Options

  const COLON: byte := ':' as int

  /** The rows whose addresses have eight digits are those below. */
  const EIGHT_DIGITS := 0x1_0000_0000
  const NINE_DIGITS := 0x10_0000_0000

  // ----- The listing -----

  function Digit(d: int): (c: byte)
    requires 0 <= d < 16
  {
    if d < 10 then '0' as int + d else 'a' as int + (d - 10)
  }

  /** `hexchar`, which takes anything that is no decimal digit for a letter; `EOF` is -1. */
  function HexChar(x: int): int {
    if '0' as int <= x <= '9' as int then x - '0' as int else x - 'a' as int + 10
  }

  /** The value of two digits, also when they are none. */
  function PairValue(c: int, d: int): int {
    HexChar(c) * 0x10 + HexChar(d)
  }

  /** What `putchar` writes of an `int`. */
  function LowByte(v: int): (b: byte)
    ensures 0 <= v < 256 ==> b == v
  {
    v % 256
  }

  /** `n` in hexadecimal, in at least `width` digits. */
  function Hex(n: nat, width: nat): (t: seq<byte>)
    decreases n + width
  {
    if n < 16 && width <= 1 then [Digit(n)]
    else Hex(n / 16, if width == 0 then 0 else width - 1) + [Digit(n % 16)]
  }

  /** The number that hexadecimal digits stand for. */
  function Number(t: seq<byte>): int {
    if t == [] then 0 else 16 * Number(t[..|t| - 1]) + HexChar(t[|t| - 1])
  }

  /** Whether a blank follows the byte at place `i` of a row; the four groupings have `groupBy` 0, 1, 3 and 7. */
  predicate Separated(i: nat, groupBy: bv8)
    requires i < 16
  {
    (i as bv8) & groupBy == groupBy
  }

  /** A byte as it stands in the text column. */
  function Text(c: byte, iso: bool): (t: byte) {
    if c < 0x20 || (if iso then 0x7F <= c < 0xA0 else c >= 0x7F) then DOT else c
  }

  function Texts(row: seq<byte>, iso: bool): (t: seq<byte>)
    ensures |t| == |row|
    ensures forall i :: 0 <= i < |row| ==> t[i] == Text(row[i], iso)
    ensures NUL !in t && LF !in t
  {
    seq(|row|, i requires 0 <= i < |row| => Text(row[i], iso))
  }

  /** What is printed at place `i` of a row, which is blank behind the end of the file. */
  function Cell(row: seq<byte>, i: nat, groupBy: bv8): (t: seq<byte>)
    requires i < 16
  {
    (if i < |row| then [Digit(row[i] / 16), Digit(row[i] % 16)] else [SPACE, SPACE]) +
    if Separated(i, groupBy) then [SPACE] else []
  }

  /** What is printed from place `i` of a row on. */
  function Cells(row: seq<byte>, i: nat, groupBy: bv8): (t: seq<byte>)
    requires i <= 16
    decreases 16 - i
  {
    if i == 16 then [] else Cell(row, i, groupBy) + Cells(row, i + 1, groupBy)
  }

  function Line(row: seq<byte>, address: nat, iso: bool, groupBy: bv8): (t: seq<byte>) {
    (Hex(address, 8) + [COLON, SPACE]) + Cells(row, 0, groupBy) + ([SPACE] + Texts(row, iso)) + [LF]
  }

  function FirstRow(s: seq<byte>): (row: seq<byte>)
    ensures row <= s && |row| <= 16 && (s != [] ==> row != [])
  {
    if |s| < 16 then s else s[..16]
  }

  /** The listing of `s`, whose first byte has the address `address`. */
  function Listing(s: seq<byte>, address: nat, iso: bool, groupBy: bv8): (t: seq<byte>)
    decreases |s|
  {
    if s == [] then []
    else Line(FirstRow(s), address, iso, groupBy) + Listing(s[|FirstRow(s)|..], address + 16, iso, groupBy)
  }

  // ----- Reading a listing -----

  /** What is left of `t` when `n` bytes are skipped, as far as there are so many. */
  function Drop(t: seq<byte>, n: nat): (r: seq<byte>)
    ensures |r| <= |t|
  {
    if n <= |t| then t[n..] else []
  }

  /** What the inner loop did: the bytes written, the input that is left, and the last values of `i` and `c`. */
  datatype Pairs = Pairs(bytes: seq<byte>, rest: seq<byte>, i: int, c: int)

  /** The inner loop from place `i` on. */
  function ReadPairs(t: seq<byte>, i: nat, c: int, groupBy: bv8): (p: Pairs)
    requires i <= 16
    ensures |p.rest| <= |t| && p.i <= 16
    ensures i < 16 && (p.c == SPACE || p.i == 16) ==> |p.rest| < |t|
    decreases 16 - i
  {
    hide Separated, PairValue, LowByte;
    if i == 16 then Pairs([], t, i, c)
    else if t == [] then Pairs([], t, i, EOF)
    else if t[0] == SPACE then Pairs([], t[1..], i, SPACE)
    else
      var v := PairValue(t[0], if |t| > 1 then t[1] else EOF);
      var p := ReadPairs(Drop(t, if Separated(i, groupBy) then 3 else 2), i + 1, v, groupBy);
      p.(bytes := [LowByte(v)] + p.bytes)
  }

  /** What is left of `t` behind the first line end; nothing if there is none. */
  function Behind(t: seq<byte>): (r: Option<seq<byte>>)
    ensures r.Some? ==> |r.value| < |t|
  {
    if t == [] then None else if t[0] == LF then Some(t[1..]) else Behind(t[1..])
  }

  /** What the `-un` loop writes for a listing, or for any other input. */
  function Unlisted(t: seq<byte>, groupBy: bv8): (s: seq<byte>)
    decreases |t|
  {
    var p := ReadPairs(Drop(t, 10), 0, 0, groupBy);
    p.bytes +
    if p.c == SPACE then
      match Behind(p.rest)
      case None => []
      case Some(rest) => Unlisted(rest, groupBy)
    else if p.i < 16 then []
    else Unlisted(Drop(p.rest, 18), groupBy)
  }

  // ----- The address column -----

  function Pow16(k: nat): (p: nat)
    ensures p >= 1
  {
    if k == 0 then 1 else 16 * Pow16(k - 1)
  }

  /** The address column shows the address. */
  lemma {:induction false} HexReads(n: nat, width: nat)
    ensures Number(Hex(n, width)) == n
    decreases n + width
  {
    if !(n < 16 && width <= 1) {
      var width' := if width == 0 then 0 else width - 1;
      HexReads(n / 16, width');
      assert Hex(n, width)[..|Hex(n, width)| - 1] == Hex(n / 16, width');
    }
  }

  /** A number that fits is printed in just `width` digits, and one sixteen times too big in one more. */
  lemma {:induction false} HexWidth(n: nat, width: nat)
    requires width >= 1 && n < Pow16(width + 1)
    ensures |Hex(n, width)| == if n < Pow16(width) then width else width + 1
    ensures SPACE !in Hex(n, width) && LF !in Hex(n, width)
    decreases width
  {
    assert Pow16(1) == 16 && Pow16(2) == 256;
    if width > 1 {
      HexWidth(n / 16, width - 1);
    } else if n >= 16 {
      assert Hex(n, 1) == Hex(n / 16, 0) + [Digit(n % 16)];
    }
  }

  lemma AddressWidth(address: nat)
    requires address < NINE_DIGITS
    ensures |Hex(address, 8)| == if address < EIGHT_DIGITS then 8 else 9
    ensures LF !in Hex(address, 8)
  {
    assert Pow16(4) == 0x1_0000;
    assert Pow16(8) == EIGHT_DIGITS && Pow16(9) == NINE_DIGITS;
    HexWidth(address, 8);
  }

  // ----- The hexadecimal column -----

  /** The text column starts at the same place in every row, whole or partial. */
  lemma {:induction false} CellsWidth(row: seq<byte>, other: seq<byte>, i: nat, groupBy: bv8)
    requires i <= 16
    ensures |Cells(row, i, groupBy)| == |Cells(other, i, groupBy)|
    decreases 16 - i
  {
    if i < 16 {
      CellsWidth(row, other, i + 1, groupBy);
    }
  }

  lemma {:induction false} NoLineEndInCells(row: seq<byte>, i: nat, groupBy: bv8)
    requires i <= 16
    ensures LF !in Cells(row, i, groupBy)
    decreases 16 - i
  {
    if i < 16 {
      NoLineEndInCells(row, i + 1, groupBy);
    }
  }

  lemma DigitReads(d: int)
    requires 0 <= d < 16
    ensures HexChar(Digit(d)) == d && Digit(d) != SPACE
  {
  }

  /** One turn of the inner loop, where a pair of digits is read. */
  lemma ReadPair(t: seq<byte>, i: nat, c: int, groupBy: bv8)
    requires i < 16 && |t| >= 2 && t[0] != SPACE
    ensures var v := PairValue(t[0], t[1]);
            var p := ReadPairs(Drop(t, if Separated(i, groupBy) then 3 else 2), i + 1, v, groupBy);
            ReadPairs(t, i, c, groupBy) == p.(bytes := [LowByte(v)] + p.bytes)
  {
    hide Separated, PairValue, LowByte, Drop;
  }

  /** One cell is read back as the byte it shows. */
  lemma ReadCell(row: seq<byte>, i: nat, c: int, groupBy: bv8, tail: seq<byte>)
    requires i < 16 && i < |row|
    ensures var p := ReadPairs(tail, i + 1, row[i], groupBy);
            ReadPairs(Cell(row, i, groupBy) + tail, i, c, groupBy) == p.(bytes := [row[i]] + p.bytes)
  {
    hide Separated, HexChar, Digit, ReadPairs, LowByte;
    var t := Cell(row, i, groupBy) + tail;
    DigitReads(row[i] / 16);
    DigitReads(row[i] % 16);
    assert t[0] == Digit(row[i] / 16) && t[1] == Digit(row[i] % 16);
    assert Drop(t, if Separated(i, groupBy) then 3 else 2) == tail;
    ReadPair(t, i, c, groupBy);
  }

  lemma CellInFront(row: seq<byte>, i: nat, groupBy: bv8, tail: seq<byte>)
    requires i < 16
    ensures Cells(row, i, groupBy) + tail == Cell(row, i, groupBy) + (Cells(row, i + 1, groupBy) + tail)
  {
    hide Cell;
  }

  /** The hexadecimal part is read back as the row; a partial row ends at its first blank cell. */
  lemma {:induction false} ReadCells(row: seq<byte>, i: nat, c: int, groupBy: bv8, tail: seq<byte>)
    requires i <= |row| <= 16
    ensures ReadPairs(Cells(row, i, groupBy) + tail, i, c, groupBy) ==
            if |row| == 16 then Pairs(row[i..], tail, 16, if i < 16 then row[15] else c)
            else Pairs(row[i..], (Cells(row, |row|, groupBy) + tail)[1..], |row|, SPACE)
    decreases 16 - i
  {
    hide Separated, Cell, Cells, ReadPairs;
    if i == |row| {
      StopReading(row, c, groupBy, tail);
    } else {
      var next := Cells(row, i + 1, groupBy) + tail;
      CellInFront(row, i, groupBy, tail);
      ReadCell(row, i, c, groupBy, next);
      ReadCells(row, i + 1, row[i], groupBy, tail);
      assert row[i..] == [row[i]] + row[i + 1..];
    }
  }

  /** Reading stops where a row ends. */
  lemma StopReading(row: seq<byte>, c: int, groupBy: bv8, tail: seq<byte>)
    requires |row| <= 16
    ensures ReadPairs(Cells(row, |row|, groupBy) + tail, |row|, c, groupBy) ==
            if |row| == 16 then Pairs([], tail, 16, c)
            else Pairs([], (Cells(row, |row|, groupBy) + tail)[1..], |row|, SPACE)
  {
    hide Separated;
    var t := Cells(row, |row|, groupBy) + tail;
    if |row| == 16 {
      assert t == tail;
    } else {
      assert Cell(row, |row|, groupBy)[0] == SPACE == t[0];
    }
  }

  /** Skipping to the line end, in a line without one. */
  lemma {:induction false} SkipLine(line: seq<byte>, tail: seq<byte>)
    requires LF !in line
    ensures Behind(line + [LF] + tail) == Some(tail)
  {
    var t := line + [LF] + tail;
    if line == [] {
      assert t[1..] == tail;
    } else {
      assert t[0] == line[0];
      assert t[1..] == line[1..] + [LF] + tail;
      SkipLine(line[1..], tail);
    }
  }

  // ----- Round trip -----

  /** A line whose address has eight digits is read back as its row. */
  lemma ReadLine(row: seq<byte>, address: nat, iso: bool, groupBy: bv8, tail: seq<byte>)
    requires 1 <= |row| <= 16 && address < EIGHT_DIGITS
    ensures Unlisted(Line(row, address, iso, groupBy) + tail, groupBy) == row + Unlisted(tail, groupBy)
  {
    hide Hex, Cell, Cells, ReadPairs, Behind;
    AddressWidth(address);
    var cells, column := Cells(row, 0, groupBy), [SPACE] + Texts(row, iso);
    var t := Line(row, address, iso, groupBy) + tail;
    assert Drop(t, 10) == cells + (column + [LF] + tail);
    ReadCells(row, 0, 0, groupBy, column + [LF] + tail);
    assert row[0..] == row;
    if |row| == 16 {
      if row[15] == SPACE {
        SkipLine(column, tail);
      } else {
        assert Drop(column + [LF] + tail, 18) == tail;
      }
    } else {
      var blank := Cells(row, |row|, groupBy);
      NoLineEndInCells(row, |row|, groupBy);
      BlankCell(row, groupBy);
      assert (blank + (column + [LF] + tail))[1..] == (blank[1..] + column) + [LF] + tail;
      SkipLine(blank[1..] + column, tail);
    }
  }

  lemma BlankCell(row: seq<byte>, groupBy: bv8)
    requires |row| < 16
    ensures Cells(row, |row|, groupBy) != []
  {
    hide Separated;
  }

  /** A line whose address has nine digits is passed over. */
  lemma PassLine(row: seq<byte>, address: nat, iso: bool, groupBy: bv8, tail: seq<byte>)
    requires 1 <= |row| <= 16 && EIGHT_DIGITS <= address < NINE_DIGITS
    ensures Unlisted(Line(row, address, iso, groupBy) + tail, groupBy) == Unlisted(tail, groupBy)
  {
    hide Hex, Cell, Cells, Behind, Separated;
    AddressWidth(address);
    var cells, column := Cells(row, 0, groupBy), [SPACE] + Texts(row, iso);
    var t := Line(row, address, iso, groupBy) + tail;
    NoLineEndInCells(row, 0, groupBy);
    assert Drop(t, 10) == [SPACE] + ((cells + column) + [LF] + tail);
    SkipLine(cells + column, tail);
  }

  /** What is read back of a listing: the rows below the address with nine digits. */
  lemma {:induction false} RowsRoundTrip(s: seq<byte>, address: nat, iso: bool, groupBy: bv8)
    requires address % 16 == 0 && address + |s| <= NINE_DIGITS
    ensures Unlisted(Listing(s, address, iso, groupBy), groupBy) ==
            if address + |s| <= EIGHT_DIGITS then s
            else if address < EIGHT_DIGITS then s[..EIGHT_DIGITS - address]
            else []
    decreases |s|
  {
    hide Line, ReadPairs, Behind, Unlisted;
    if s == [] {
      NothingRead(groupBy);
    } else {
      var row := FirstRow(s);
      var rest := s[|row|..];
      assert s == row + rest;
      if |s| >= 16 {
        RowsRoundTrip(rest, address + 16, iso, groupBy);
      } else {
        assert rest == [];
        NothingRead(groupBy);
      }
      var tail := Listing(rest, address + 16, iso, groupBy);
      if address < EIGHT_DIGITS {
        ReadLine(row, address, iso, groupBy, tail);
      } else {
        PassLine(row, address, iso, groupBy, tail);
      }
    }
  }

  lemma NothingRead(groupBy: bv8)
    ensures Unlisted([], groupBy) == []
  {
    hide Separated;
  }

  /**
   * Round trip, for any grouping, with or without `-iso`: a file is read back exactly if it has no more
   * than 2^32 bytes; of a longer one the first 2^32 bytes are.
   */
  lemma RoundTrip(s: seq<byte>, iso: bool, groupBy: bv8)
    requires |s| <= NINE_DIGITS
    ensures var back := Unlisted(Listing(s, 0, iso, groupBy), groupBy);
            && back == (if |s| <= EIGHT_DIGITS then s else s[..EIGHT_DIGITS])
            && (back == s <==> |s| <= EIGHT_DIGITS)
  {
    RowsRoundTrip(s, 0, iso, groupBy);
  }

  function Zeros(n: nat): (z: seq<byte>)
    ensures |z| == n && forall i :: 0 <= i < n ==> z[i] == 0
  {
    seq(n, i => 0)
  }

  /** One byte too many: 4 GB and one byte of zeros come back shorter. */
  lemma LastByteLost(iso: bool, groupBy: bv8)
    ensures var s := Zeros(EIGHT_DIGITS + 1);
            Unlisted(Listing(s, 0, iso, groupBy), groupBy) == s[..EIGHT_DIGITS] != s
  {
    RoundTrip(Zeros(EIGHT_DIGITS + 1), iso, groupBy);
  }
}
