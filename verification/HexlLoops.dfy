/** The two loops of lib-src/hexl.c, proved against the listing and its reading. */
module HexlLoops {
  import opened Bytes
  import opened Options
  import opened Hexl

  /** The C string at the start of a buffer: up to the first NUL. */
  function UpToNul(a: seq<byte>): (s: seq<byte>)
    requires NUL in a
  {
    if a[0] == NUL then [] else [a[0]] + UpToNul(a[1..])
  }

  lemma {:induction false} UpToNulIs(a: seq<byte>, s: seq<byte>)
    requires NUL !in s && s + [NUL] <= a
    ensures NUL in a && UpToNul(a) == s
  {
    assert a[|s|] == NUL;
    if s != [] {
      assert a[1..][..|s|] == s[1..] + [NUL];
      UpToNulIs(a[1..], s[1..]);
    }
  }

  /** The text buffer holds the first `i` places of a row: a blank, the text, and a NUL where the row ends. */
  ghost predicate Buffered(a: seq<byte>, row: seq<byte>, i: nat, iso: bool) {
    && |a| == 18 && |row| <= 16 && a[0] == SPACE && a[17] == NUL
    && (forall k :: 0 <= k < i && k < |row| ==> a[k + 1] == Text(row[k], iso))
    && (|row| < i ==> a[|row| + 1] == NUL)
  }

  /** What `puts` writes of the text buffer when the row is complete. */
  lemma BufferedText(a: seq<byte>, row: seq<byte>, iso: bool)
    requires Buffered(a, row, 16, iso)
    ensures NUL in a && UpToNul(a) == [SPACE] + Texts(row, iso)
  {
    var s := [SPACE] + Texts(row, iso);
    assert a[..|row| + 2] == s + [NUL];
    UpToNulIs(a, s);
  }

  /** One more place of the row in the buffer. */
  lemma BufferOne(a: seq<byte>, row: seq<byte>, i: nat, iso: bool)
    requires i < 16 && Buffered(a, row, i, iso)
    ensures Buffered(a[i + 1 := if i < |row| then Text(row[i], iso) else NUL], row, i + 1, iso)
  {
    hide Text;
  }

  /** One turn of the inner loop of the dump. */
  method PrintCell(input: seq<byte>, start: nat, i: nat, address: nat, iso: bool, groupBy: bv8, text: array<byte>, out: seq<byte>)
    returns (c: int, out': seq<byte>)
    requires start < |input| && i < 16 && Buffered(text[..], FirstRow(input[start..]), i, iso)
    modifies text
    ensures Buffered(text[..], FirstRow(input[start..]), i + 1, iso)
    ensures c == if start + i < |input| then input[start + i] else EOF
    ensures out' == out + (if i == 0 then Hex(address, 8) + [COLON, SPACE] else []) + Cell(FirstRow(input[start..]), i, groupBy)
  {
    hide Separated, Hex, Text, Buffered, Digit;
    BufferOne(text[..], FirstRow(input[start..]), i, iso);
    ghost var row, b := FirstRow(input[start..]), text[..];
    ghost var put: byte := if i < |row| then Text(row[i], iso) else NUL;
    TextLength(b, row, i, iso);
    c := if start + i < |input| then input[start + i] else EOF;
    out' := out;
    if c == EOF {
      out' := out' + [SPACE, SPACE];
      text[i + 1] := NUL;
    } else {
      if i == 0 {
        out' := out' + Hex(address, 8) + [COLON, SPACE];
      }
      text[i + 1] := Text(c, iso);
      out' := out' + [Digit(c / 16), Digit(c % 16)];
    }
    assert text[..] == b[i + 1 := put];
    if Separated(i, groupBy) {
      out' := out' + [SPACE];
    }
  }

  lemma TextLength(a: seq<byte>, row: seq<byte>, i: nat, iso: bool)
    requires Buffered(a, row, i, iso)
    ensures |a| == 18 && a[0] == SPACE && a[17] == NUL
  {
  }

  /** What is printed next is the front of what is still to be printed. */
  lemma NextCell(row: seq<byte>, i: nat, groupBy: bv8, done: seq<byte>)
    requires i < 16
    ensures done + Cells(row, i, groupBy) == done + Cell(row, i, groupBy) + Cells(row, i + 1, groupBy)
  {
    hide Cell;
  }

  /** The inner loop of the dump, at a row that is not empty, and the `puts` that ends the line. */
  method PrintRow(input: seq<byte>, start: nat, address: nat, iso: bool, groupBy: bv8, text: array<byte>, out: seq<byte>)
    returns (c: int, out': seq<byte>)
    requires start < |input|
    requires text.Length == 18 && text[0] == SPACE && text[17] == NUL
    modifies text
    ensures text[0] == SPACE && text[17] == NUL
    ensures c == if start + 16 <= |input| then input[start + 15] else EOF
    ensures out' == out + Line(FirstRow(input[start..]), address, iso, groupBy)
  {
    hide Separated, Hex, Text, Cell, Cells, FirstRow, UpToNul, Line, Buffered;
    ghost var row := FirstRow(input[start..]);
    ghost var head := out + (Hex(address, 8) + [COLON, SPACE]);
    c, out' := 0, out;
    var i := 0;
    NothingBuffered(text[..], row, iso);
    while i < 16
      invariant 0 <= i <= 16 && Buffered(text[..], row, i, iso)
      invariant i > 0 ==> c == if start + i <= |input| then input[start + i - 1] else EOF
      invariant if i == 0 then out' == out else out' + Cells(row, i, groupBy) == head + Cells(row, 0, groupBy)
    {
      NextCell(row, i, groupBy, if i == 0 then head else out');
      c, out' := PrintCell(input, start, i, address, iso, groupBy, text, out');
      i := i + 1;
    }
    TextLength(text[..], row, 16, iso);
    BufferedText(text[..], row, iso);
    LineIs(row, address, iso, groupBy, out, out');
    out' := out' + UpToNul(text[..]) + [LF];
  }

  lemma NothingBuffered(a: seq<byte>, row: seq<byte>, iso: bool)
    requires |a| == 18 && |row| <= 16 && a[0] == SPACE && a[17] == NUL
    ensures Buffered(a, row, 0, iso)
  {
  }

  /** A line, as its cells and then its text are printed. */
  lemma LineIs(row: seq<byte>, address: nat, iso: bool, groupBy: bv8, out: seq<byte>, out': seq<byte>)
    requires out' + Cells(row, 16, groupBy) == out + (Hex(address, 8) + [COLON, SPACE]) + Cells(row, 0, groupBy)
    ensures out' + ([SPACE] + Texts(row, iso)) + [LF] == out + Line(row, address, iso, groupBy)
  {
    hide Hex, Cell;
    assert out' == out' + Cells(row, 16, groupBy);
    Appended(out, Hex(address, 8) + [COLON, SPACE], Cells(row, 0, groupBy), [SPACE] + Texts(row, iso), [LF]);
  }

  /** What is listed next is the front of what is still to be listed. */
  lemma NextLine(input: seq<byte>, pos: nat, address: nat, iso: bool, groupBy: bv8, done: seq<byte>)
    requires pos < |input|
    ensures var row := FirstRow(input[pos..]);
            && 1 <= |row| && pos + |row| == (if pos + 16 <= |input| then pos + 16 else |input|)
            && done + Listing(input[pos..], address, iso, groupBy) ==
               done + Line(row, address, iso, groupBy) + Listing(input[pos + |row|..], address + 16, iso, groupBy)
  {
    hide Line;
    var row := FirstRow(input[pos..]);
    assert input[pos..][|row|..] == input[pos + |row|..];
  }

  lemma NothingListed(address: nat, iso: bool, groupBy: bv8)
    ensures Listing([], address, iso, groupBy) == []
  {
  }

  lemma Appended(out: seq<byte>, a: seq<byte>, b: seq<byte>, c: seq<byte>, d: seq<byte>)
    ensures out + a + b + c + d == out + (a + b + c + d)
  {
  }

  /** The dump: the listing of the whole file. */
  method Dump(input: seq<byte>, iso: bool, groupBy: bv8) returns (out: seq<byte>)
    ensures out == Listing(input, 0, iso, groupBy)
  {
    hide Line, Listing, FirstRow;
    var text := new byte[18](_ => NUL);
    text[0] := SPACE;
    out := [];
    var address, pos, c := 0, 0, 0;
    assert input[pos..] == input;
    while pos < |input|  // at the end of the file the inner loop breaks at once
      invariant 0 <= pos <= |input| && text[0] == SPACE && text[17] == NUL
      invariant pos < |input| ==> address == pos
      invariant out + Listing(input[pos..], address, iso, groupBy) == Listing(input, 0, iso, groupBy)
      decreases |input| - pos
    {
      NextLine(input, pos, address, iso, groupBy, out);
      c, out := PrintRow(input, pos, address, iso, groupBy, text, out);
      pos := pos + |FirstRow(input[pos..])|;
      NothingListed(address + 16, iso, groupBy);
      if c == EOF {
        break;
      }
      address := address + 0x10;
    }
    assert input[pos..] == [];
    NothingListed(address, iso, groupBy);
  }

  /** The inner loop of `-un`, on what is left of the input from `start` on. */
  method ReadRow(input: seq<byte>, start: nat, groupBy: bv8, out: seq<byte>) returns (pos: nat, i: nat, c: int, out': seq<byte>)
    requires start <= |input|
    ensures start <= pos <= |input| && (c == SPACE || i == 16 ==> start < pos)
    ensures var p := ReadPairs(input[start..], 0, 0, groupBy);
            out' == out + p.bytes && i == p.i && c == p.c && input[pos..] == p.rest
  {
    hide Separated, PairValue, LowByte, ReadPairs;
    pos, i, c, out' := start, 0, 0, out;
    ghost var all := ReadPairs(input[start..], 0, 0, groupBy);
    while i < 16
      invariant 0 <= i <= 16 && start <= pos <= |input|
      invariant var p := ReadPairs(input[pos..], i, c, groupBy);
                out + all.bytes == out' + p.bytes && all.i == p.i && all.c == p.c && all.rest == p.rest
    {
      NextPair(input, pos, i, c, groupBy);
      if pos == |input| {
        c := EOF;
        return;
      }
      c := input[pos];
      pos := pos + 1;
      if c == SPACE {
        return;
      }
      var d := EOF;
      if pos < |input| {
        d := input[pos];
        pos := pos + 1;
      }
      c := PairValue(c, d);
      out' := out' + [LowByte(c)];
      if Separated(i, groupBy) && pos < |input| {
        pos := pos + 1;
      }
      i := i + 1;
    }
    NothingToRead(input[pos..], c, groupBy);
  }

  lemma NothingToRead(t: seq<byte>, c: int, groupBy: bv8)
    ensures ReadPairs(t, 16, c, groupBy) == Pairs([], t, 16, c)
  {
  }

  /** One turn of the loop, by the position in the input. */
  lemma NextPair(input: seq<byte>, pos: nat, i: nat, c: int, groupBy: bv8)
    requires pos <= |input| && i < 16
    ensures var p := ReadPairs(input[pos..], i, c, groupBy);
            if pos == |input| then p == Pairs([], input[pos..], i, EOF)
            else if input[pos] == SPACE then p == Pairs([], input[pos + 1..], i, SPACE)
            else
              var v := PairValue(input[pos], if pos + 1 < |input| then input[pos + 1] else EOF);
              var skip := pos + if Separated(i, groupBy) then 3 else 2;
              var q := ReadPairs(input[if skip <= |input| then skip else |input|..], i + 1, v, groupBy);
              p == q.(bytes := [LowByte(v)] + q.bytes)
  {
    hide Separated, PairValue, LowByte;
    var t := input[pos..];
    if t != [] {
      assert t[1..] == input[pos + 1..];
      var n := if Separated(i, groupBy) then 3 else 2;
      assert Drop(t, n) == input[if pos + n <= |input| then pos + n else |input|..];
    }
  }

  /** `while ((c = getc (fp)) != '\n' && c != EOF)`: whether there was a line end, and the position behind it. */
  method SkipToLineEnd(input: seq<byte>, start: nat) returns (pos: nat, c: int)
    requires start <= |input|
    ensures start <= pos <= |input|
    ensures c == LF || c == EOF
    ensures Behind(input[start..]) == if c == LF then Some(input[pos..]) else None
    ensures c == LF ==> start < pos
  {
    pos, c := start, 0;
    while true
      invariant start <= pos <= |input| && Behind(input[pos..]) == Behind(input[start..])
      decreases |input| - pos
    {
      if pos == |input| {
        c := EOF;
        return;
      }
      c := input[pos];
      assert input[pos..][1..] == input[pos + 1..];
      pos := pos + 1;
      if c == LF {
        return;
      }
    }
  }

  /** `fread` of `n` bytes that nobody looks at. */
  function Skipped(input: seq<byte>, pos: nat, n: nat): (p: nat)
    requires pos <= |input|
    ensures pos <= p <= |input| && input[p..] == Drop(input[pos..], n)
  {
    if pos + n <= |input| then pos + n else |input|
  }

  /** One turn of the `-un` loop. */
  lemma NextRow(t: seq<byte>, groupBy: bv8, done: seq<byte>)
    ensures var p := ReadPairs(Drop(t, 10), 0, 0, groupBy);
            done + Unlisted(t, groupBy) == (done + p.bytes) +
            if p.c == SPACE then
              match Behind(p.rest)
              case None => []
              case Some(rest) => Unlisted(rest, groupBy)
            else if p.i < 16 then []
            else Unlisted(Drop(p.rest, 18), groupBy)
  {
    hide ReadPairs, Behind, Drop;
  }

  /** The `-un` loop, on any input. */
  method Undump(input: seq<byte>, groupBy: bv8) returns (out: seq<byte>)
    ensures out == Unlisted(input, groupBy)
  {
    hide ReadPairs, Behind, Unlisted, Drop, Skipped;
    out := [];
    var pos := 0;
    assert input[pos..] == input;
    while true
      invariant 0 <= pos <= |input|
      invariant out + Unlisted(input[pos..], groupBy) == Unlisted(input, groupBy)
      decreases |input| - pos
    {
      var i, c;
      NextRow(input[pos..], groupBy, out);
      pos := Skipped(input, pos, 10);
      pos, i, c, out := ReadRow(input, pos, groupBy, out);
      if c == SPACE {
        pos, c := SkipToLineEnd(input, pos);
        if c == EOF {
          break;
        }
      } else {
        if i < 16 {
          break;
        }
        pos := Skipped(input, pos, 18);
      }
    }
  }

  /** The dump of a file of up to 64 GB, read back: the same file exactly if it has no more than 4 GB. */
  method DumpThenUndump(input: seq<byte>, iso: bool, groupBy: bv8) returns (back: seq<byte>)
    requires |input| <= NINE_DIGITS
    ensures back == if |input| <= EIGHT_DIGITS then input else input[..EIGHT_DIGITS]
    ensures back == input <==> |input| <= EIGHT_DIGITS
  {
    var listing := Dump(input, iso, groupBy);
    back := Undump(listing, groupBy);
    RoundTrip(input, iso, groupBy);
  }
}
