/** What stands at which column of a listing that lib-src/hexl.c prints. */
module HexlColumns {
  import opened Bytes
  import opened Hexl

  const HEX_DIGITS: string := "0123456789abcdef"

  /** The four groupings: how many bytes stand between blanks. */
  function GroupSize(g: nat): (n: nat)
    requires g < 4
    ensures n > 0
  {
    if g == 0 then 1 else if g == 1 then 2 else if g == 2 then 4 else 8
  }

  /** The value of `group_by` for it. */
  function Mask(g: nat): (groupBy: bv8)
    requires g < 4
  {
    if g == 0 then 0 else if g == 1 then 1 else if g == 2 then 3 else 7
  }

  /** Whether a group ends at place `i`. */
  predicate GroupEnds(i: nat, g: nat)
    requires g < 4
  {
    (i + 1) % GroupSize(g) == 0
  }

  lemma SeparatedIs(i: nat, g: nat)
    requires i < 16 && g < 4
    ensures Separated(i, Mask(g)) <==> GroupEnds(i, g)
  {
  }

  /** Where the cell for place `i` starts, counted from the first one. */
  function Offset(i: nat, g: nat): (k: nat)
    requires g < 4
  {
    2 * i + i / GroupSize(g)
  }

  lemma CellWidth(row: seq<byte>, i: nat, g: nat)
    requires i < 16 && g < 4
    ensures Offset(0, g) == 0 && Offset(i + 1, g) == Offset(i, g) + |Cell(row, i, Mask(g))|
  {
    OffsetStep(i, g);
    SeparatedIs(i, g);
    hide Separated, Offset, GroupEnds;
  }

  lemma OffsetStep(i: nat, g: nat)
    requires g < 4
    ensures Offset(0, g) == 0 && Offset(i + 1, g) == Offset(i, g) + 2 + if GroupEnds(i, g) then 1 else 0
  {
  }

  lemma DigitIs(d: int)
    requires 0 <= d < 16
    ensures |HEX_DIGITS| == 16 && HEX_DIGITS[d] as int == Digit(d)
  {
  }

  /** The cell at `k` shows the byte at place `i`, or is blank, with a blank behind it at the end of a group. */
  ghost predicate ShowsCell(t: seq<byte>, k: int, row: seq<byte>, i: nat, g: nat)
    requires g < 4
  {
    && 0 <= k && k + 2 <= |t| && |HEX_DIGITS| == 16
    && (if i < |row| then t[k] == HEX_DIGITS[row[i] / 16] as int && t[k + 1] == HEX_DIGITS[row[i] % 16] as int
        else t[k] == t[k + 1] == 32)
    && (GroupEnds(i, g) ==> k + 2 < |t| && t[k + 2] == 32)
  }

  lemma CellShows(row: seq<byte>, i: nat, g: nat, tail: seq<byte>)
    requires i < 16 && g < 4
    ensures ShowsCell(Cell(row, i, Mask(g)) + tail, 0, row, i, g)
  {
    SeparatedIs(i, g);
    DigitIs(if i < |row| then row[i] / 16 else 0);
    DigitIs(if i < |row| then row[i] % 16 else 0);
    hide Separated, HEX_DIGITS, Digit, GroupEnds, Mask;
  }

  lemma CellBehind(front: seq<byte>, t: seq<byte>, k: int, row: seq<byte>, i: nat, g: nat)
    requires g < 4 && ShowsCell(t, k, row, i, g)
    ensures ShowsCell(front + t, |front| + k, row, i, g)
  {
    hide HEX_DIGITS, GroupEnds;
  }

  /** The cells from place `i` on: the one for place `j` is where the cells between are taken up. */
  lemma {:induction false} CellAt(row: seq<byte>, i: nat, j: nat, g: nat, tail: seq<byte>)
    requires i <= j < 16 && g < 4
    ensures ShowsCell(Cells(row, i, Mask(g)) + tail, Offset(j, g) - Offset(i, g), row, j, g)
    decreases 16 - i
  {
    hide *;
    var more := Cells(row, i + 1, Mask(g)) + tail;
    CellInFront(row, i, Mask(g), tail);
    if i == j {
      CellShows(row, i, g, more);
    } else {
      CellWidth(row, i, g);
      CellAt(row, i + 1, j, g, tail);
      CellBehind(Cell(row, i, Mask(g)), more, Offset(j, g) - Offset(i + 1, g), row, j, g);
    }
  }

  lemma {:induction false} WholeWidth(row: seq<byte>, i: nat, g: nat)
    requires i <= 16 && g < 4
    ensures Offset(0, g) == 0 && Offset(i, g) + |Cells(row, i, Mask(g))| == Offset(16, g)
    decreases 16 - i
  {
    hide Cell, Offset, Mask;
    if i < 16 {
      CellWidth(row, i, g);
      WholeWidth(row, i + 1, g);
    } else {
      CellWidth(row, 0, g);
    }
  }

  /** The character for a byte in the text column. */
  ghost predicate ShowsText(t: byte, c: byte, iso: bool) {
    if 32 <= c <= 126 || (iso && c >= 160) then t == c else t == 46
  }

  /**
   * A whole line: the address, ": ", for each place its byte in two digits or two blanks, a blank behind each
   * group, and from a column `w` that is the same in every line a blank and the bytes as text.
   */
  ghost predicate ShowsRow(t: seq<byte>, row: seq<byte>, address: nat, iso: bool, g: nat)
    requires g < 4
  {
    var w := 10 + Offset(16, g);
    && |t| == w + |row| + 1
    && Number(t[..8]) == address && t[8] == 58 && t[9] == 32 && t[w] == 32
    && (forall i :: 0 <= i < 16 ==> ShowsCell(t, 10 + Offset(i, g), row, i, g))
    && (forall i :: 0 <= i < |row| ==> ShowsText(t[w + 1 + i], row[i], iso))
  }

  lemma TextShows(row: seq<byte>, iso: bool)
    ensures forall i :: 0 <= i < |row| ==> ShowsText(Texts(row, iso)[i], row[i], iso)
  {
  }

  /** The front of a line, its cells and its text column, put together. */
  lemma RowJoined(front: seq<byte>, cells: seq<byte>, texts: seq<byte>, row: seq<byte>, address: nat, iso: bool, g: nat)
    requires g < 4 && |front| == 10 && Number(front[..8]) == address && front[8] == 58 && front[9] == 32
    requires |cells| == Offset(16, g) && |texts| == |row|
    requires forall i :: 0 <= i < 16 ==> ShowsCell(cells + ([SPACE] + texts), Offset(i, g), row, i, g)
    requires forall i :: 0 <= i < |row| ==> ShowsText(texts[i], row[i], iso)
    ensures ShowsRow(front + cells + ([SPACE] + texts), row, address, iso, g)
  {
    hide Offset, ShowsCell, ShowsText, Number, HEX_DIGITS;
    var column := [SPACE] + texts;
    var t := front + cells + column;
    assert t[..8] == front[..8] && t == front + (cells + column);
    forall i | 0 <= i < 16 ensures ShowsCell(t, 10 + Offset(i, g), row, i, g) {
      CellBehind(front, cells + column, Offset(i, g), row, i, g);
    }
    assert forall i :: 0 <= i < |row| ==> t[10 + |cells| + 1 + i] == texts[i];
  }

  lemma LineParts(row: seq<byte>, address: nat, iso: bool, groupBy: bv8)
    ensures Line(row, address, iso, groupBy) ==
            (Hex(address, 8) + [COLON, SPACE]) + Cells(row, 0, groupBy) + ([SPACE] + Texts(row, iso)) + [LF]
    ensures COLON == 58 && SPACE == 32 && LF == 10
  {
  }

  lemma FrontShows(address: nat)
    requires address < EIGHT_DIGITS
    ensures var front := Hex(address, 8) + [COLON, SPACE];
            |front| == 10 && Number(front[..8]) == address && front[8] == 58 && front[9] == 32 && LF !in front
  {
    AddressWidth(address);
    HexReads(address, 8);
    hide Hex, Number;
    var front := Hex(address, 8) + [COLON, SPACE];
    assert front[..8] == Hex(address, 8);
  }

  lemma CellsShow(row: seq<byte>, g: nat, column: seq<byte>)
    requires g < 4
    ensures var cells := Cells(row, 0, Mask(g));
            && |cells| == Offset(16, g) && LF !in cells
            && forall i :: 0 <= i < 16 ==> ShowsCell(cells + column, Offset(i, g), row, i, g)
  {
    hide *;
    WholeWidth(row, 0, g);
    NoLineEndInCells(row, 0, Mask(g));
    forall i | 0 <= i < 16 ensures ShowsCell(Cells(row, 0, Mask(g)) + column, Offset(i, g), row, i, g) {
      CellAt(row, 0, i, g, column);
    }
  }

  /** Each line of a listing shows its row, with nothing else in it. */
  lemma LineShows(row: seq<byte>, address: nat, iso: bool, g: nat) returns (line: seq<byte>)
    requires |row| <= 16 && address < EIGHT_DIGITS && g < 4
    ensures Line(row, address, iso, Mask(g)) == line + [LF] && LF !in line && ShowsRow(line, row, address, iso, g)
  {
    LineParts(row, address, iso, Mask(g));
    FrontShows(address);
    TextShows(row, iso);
    hide *;
    var front, cells, texts := Hex(address, 8) + [COLON, SPACE], Cells(row, 0, Mask(g)), Texts(row, iso);
    CellsShow(row, g, [SPACE] + texts);
    NoLineEnd(front, cells, [SPACE] + texts);
    RowJoined(front, cells, texts, row, address, iso, g);
    line := front + cells + ([SPACE] + texts);
  }

  lemma NoLineEnd(a: seq<byte>, b: seq<byte>, c: seq<byte>)
    requires LF !in a && LF !in b && LF !in c
    ensures LF !in a + b + c
  {
  }

  /** Row `k` of a file. */
  function RowAt(s: seq<byte>, k: nat): (row: seq<byte>)
    requires 16 * k < |s|
  {
    if 16 * k + 16 <= |s| then s[16 * k..16 * k + 16] else s[16 * k..]
  }

  lemma RowBehind(s: seq<byte>, k: nat)
    requires 16 * k < |s| && k > 0
    ensures |s| > 16 && 16 * (k - 1) < |s[16..]| && RowAt(s[16..], k - 1) == RowAt(s, k)
  {
  }

  lemma ListingStep(s: seq<byte>, address: nat, iso: bool, groupBy: bv8)
    requires s != []
    ensures Listing(s, address, iso, groupBy) ==
            Line(FirstRow(s), address, iso, groupBy) + Listing(s[|FirstRow(s)|..], address + 16, iso, groupBy)
  {
  }

  lemma LinesBehind(line: seq<byte>, more: seq<byte>)
    requires LF !in line
    ensures Lines([], line + [LF] + more) == [line] + Lines([], more)
  {
    hide Lines;
    assert line + [LF] + more == line + ([LF] + more);
    LinesOfText([], line, [LF] + more);
    assert [] + line == line;
    BreakBehind(line, more);
  }

  lemma FirstLine(s: seq<byte>, address: nat, iso: bool, g: nat)
    requires s != [] && address < EIGHT_DIGITS && g < 4
    ensures var row := FirstRow(s);
            var ls := Lines([], Listing(s, address, iso, Mask(g)));
            && ls[1..] == Lines([], Listing(s[|row|..], address + 16, iso, Mask(g)))
            && ShowsRow(ls[0], row, address, iso, g)
  {
    hide *;
    ListingStep(s, address, iso, Mask(g));
    var line := LineShows(FirstRow(s), address, iso, g);
    LinesBehind(line, Listing(s[|FirstRow(s)|..], address + 16, iso, Mask(g)));
  }

  /** Line `k` of the listing of a file shows the sixteen bytes from `16 * k` on, or those that are left. */
  lemma {:induction false} ListingShows(s: seq<byte>, address: nat, k: nat, iso: bool, g: nat)
    requires address + |s| <= EIGHT_DIGITS && g < 4 && 16 * k < |s|
    ensures var ls := Lines([], Listing(s, address, iso, Mask(g)));
            |ls| == (|s| + 15) / 16 + 1 && ls[|ls| - 1] == [] && ShowsRow(ls[k], RowAt(s, k), address + 16 * k, iso, g)
    decreases |s|
  {
    hide Listing, ShowsRow, Lines, RowAt, Mask;
    FirstLine(s, address, iso, g);
    var row, ls := FirstRow(s), Lines([], Listing(s, address, iso, Mask(g)));
    FirstAt(s);
    if |s| > 16 {
      if k > 0 {
        RowBehind(s, k);
      }
      ListingShows(s[16..], address + 16, if k == 0 then 0 else k - 1, iso, g);
      assert k > 0 ==> ls[k] == ls[1..][k - 1];
      assert ls[|ls| - 1] == ls[1..][|ls| - 2];
    } else {
      NoListing(address + 16, iso, Mask(g));
      assert s[|row|..] == [];
    }
  }

  lemma FirstAt(s: seq<byte>)
    requires s != []
    ensures RowAt(s, 0) == FirstRow(s)
  {
    assert s[0..] == s;
  }

  lemma NoListing(address: nat, iso: bool, groupBy: bv8)
    ensures Lines([], Listing([], address, iso, groupBy)) == [[]]
  {
  }

  lemma BreakBehind(line: seq<byte>, more: seq<byte>)
    ensures Lines(line, [LF] + more) == [line] + Lines([], more)
  {
    assert ([LF] + more)[1..] == more;
  }
}
