/**
 * What lib-src/pop.c reads off the wire: lines that end in CR LF, and multi-line responses whose
 * lines are dot-stuffed and closed by a line holding only "." (section 3 of RFC 1939).
 */
module PopSpec {
  import opened Bytes
  import opened Options

  const GREATER: byte := '>' as int

  predicate CrlfAt(s: seq<byte>, k: int) {
    0 <= k && k + 1 < |s| && s[k] == CR && s[k + 1] == LF
  }

  /** Place of the first CR LF in `s`, or -1. */
  function FirstCrlf(s: seq<byte>): (i: int)
    ensures i == -1 || CrlfAt(s, i)
    ensures forall k :: 0 <= k < (if i < 0 then |s| else i) ==> !CrlfAt(s, k)
  {
    if |s| < 2 then -1
    else if s[0] == CR && s[1] == LF then 0
    else
      var i := FirstCrlf(s[1..]);
      assert forall k :: CrlfAt(s[1..], k) <==> k >= 0 && CrlfAt(s, k + 1);
      assert forall k :: k >= 1 && CrlfAt(s, k) ==> CrlfAt(s[1..], k - 1);
      if i < 0 then -1 else i + 1
  }

  /** The first CR LF is the only one with none before it. */
  lemma FirstCrlfIs(s: seq<byte>, i: int)
    requires i == -1 || CrlfAt(s, i)
    requires forall k :: 0 <= k < (if i < 0 then |s| else i) ==> !CrlfAt(s, k)
    ensures FirstCrlf(s) == i
  {
    hide FirstCrlf;
  }

  /** The lines of `s` that are ended by CR LF, without it. */
  function CrlfLines(s: seq<byte>): (ls: seq<seq<byte>>)
    decreases |s|
  {
    var i := FirstCrlf(s);
    if i < 0 then [] else [s[..i]] + CrlfLines(s[i + 2..])
  }

  /** A line that can be sent: nothing in it ends it. */
  ghost predicate Sendable(line: seq<byte>) {
    forall k :: 0 <= k < |line| ==> !CrlfAt(line, k)
  }

  /** A sendable line in front of a CR LF is what the next line is, even if it ends in CR. */
  lemma LineInFront(line: seq<byte>, rest: seq<byte>)
    requires Sendable(line)
    ensures var s := line + [CR, LF] + rest;
            FirstCrlf(s) == |line| && s[..|line|] == line && s[|line| + 2..] == rest
  {
    var s := line + [CR, LF] + rest;
    assert CrlfAt(s, |line|);
    forall k | 0 <= k < |line| ensures !CrlfAt(s, k) {
      if CrlfAt(s, k) {
        assert k + 1 < |line|;
        assert CrlfAt(line, k);
      }
    }
    FirstCrlfIs(s, |line|);
  }

  /** The lines as they are sent. */
  function Sent(ls: seq<seq<byte>>): (s: seq<byte>) {
    if ls == [] then [] else ls[0] + [CR, LF] + Sent(ls[1..])
  }

  ghost predicate AllSendable(lines: seq<seq<byte>>) {
    forall i :: 0 <= i < |lines| ==> Sendable(lines[i])
  }

  /** Splitting undoes sending, whatever unfinished line follows. */
  lemma {:induction false} SplitSent(ls: seq<seq<byte>>, tail: seq<byte>)
    requires AllSendable(ls) && FirstCrlf(tail) < 0
    ensures CrlfLines(Sent(ls) + tail) == ls
    decreases |ls|
  {
    if ls == [] {
      assert Sent(ls) + tail == tail;
    } else {
      LineInFront(ls[0], Sent(ls[1..]) + tail);
      assert Sent(ls) + tail == ls[0] + [CR, LF] + (Sent(ls[1..]) + tail);
      SplitSent(ls[1..], tail);
    }
  }

  // ----- Multi-line responses -----

  /** Dot-stuffing of one line. */
  function Stuffed(line: seq<byte>): (w: seq<byte>) {
    if line != [] && line[0] == DOT then [DOT] + line else line
  }

  /** The line that ends a response: a dot with the end of the string behind it. */
  function Terminator(c: seq<byte>): (t: bool)
    ensures t <==> c == [46] || [46, 0] <= c
  {
    c != [] && c[0] == DOT && (|c| == 1 || c[1] == NUL)
  }

  /** A text without the blanks in front of it. */
  function WithoutBlanks(s: seq<byte>): (t: seq<byte>)
    ensures |t| <= |s| && t == s[|s| - |t|..] && (forall k :: 0 <= k < |s| - |t| ==> s[k] == 32) && (t != [] ==> t[0] != 32)
  {
    if s != [] && s[0] == SPACE then WithoutBlanks(s[1..]) else s
  }

  /** A received line without its stuffing. */
  function Unstuffed(c: seq<byte>): (line: seq<byte>)
    ensures c == if [46] <= c then [46] + line else line
  {
    if c != [] && c[0] == DOT then c[1..] else c
  }

  /** A multi-line response after its first line, with its terminator. */
  function Wire(lines: seq<seq<byte>>): (w: seq<byte>) {
    if lines == [] then [DOT, CR, LF] else Stuffed(lines[0]) + [CR, LF] + Wire(lines[1..])
  }

  lemma StuffedSendable(line: seq<byte>)
    requires Sendable(line)
    ensures Sendable(Stuffed(line))
  {
    var w := Stuffed(line);
    forall k | 0 <= k < |w| ensures !CrlfAt(w, k) {
      if w != line && CrlfAt(w, k) {
        assert k >= 1 && CrlfAt(line, k - 1);
      }
    }
  }

  /** A dot-stuffed line is received as it was, and is never taken for the end of the response. */
  lemma WireLine(lines: seq<seq<byte>>, more: seq<byte>)
    requires lines != [] && AllSendable(lines)
    ensures var p := Wire(lines) + more; var i := FirstCrlf(p);
            && i >= 0 && !Terminator(p[..i]) && Unstuffed(p[..i]) == lines[0]
            && p[i + 2..] == Wire(lines[1..]) + more
  {
    StuffedSendable(lines[0]);
    LineInFront(Stuffed(lines[0]), Wire(lines[1..]) + more);
    assert Wire(lines) + more == Stuffed(lines[0]) + [CR, LF] + (Wire(lines[1..]) + more);
  }

  lemma WireEnd(more: seq<byte>)
    ensures var p := Wire([]) + more; var i := FirstCrlf(p);
            i >= 0 && Terminator(p[..i]) && p[i + 2..] == more
  {
    LineInFront([DOT], more);
    assert Wire([]) + more == [DOT] + [CR, LF] + more;
  }

  /** The octets of a message as a server counts them: each line with its line end. */
  function Octets(lines: seq<seq<byte>>): (n: nat) {
    if lines == [] then 0 else |lines[0]| + 2 + Octets(lines[1..])
  }

  predicate MarkedFrom(line: seq<byte>, markfrom: bool) {
    markfrom && FROM_ <= line
  }

  /** One line as it stands in the message buffer. */
  function Stored(line: seq<byte>, markfrom: bool): (t: seq<byte>) {
    (if MarkedFrom(line, markfrom) then [GREATER] else []) + line + [LF]
  }

  /** The message a caller gets. */
  function Message(lines: seq<seq<byte>>, markfrom: bool): (t: seq<byte>) {
    if lines == [] then [] else Stored(lines[0], markfrom) + Message(lines[1..], markfrom)
  }

  /** How many lines get a '>' in front. */
  function Froms(lines: seq<seq<byte>>, markfrom: bool): (n: nat)
    ensures n <= |lines|
  {
    if lines == [] then 0 else (if MarkedFrom(lines[0], markfrom) then 1 else 0) + Froms(lines[1..], markfrom)
  }

  /** The size of the message buffer once `froms` lines have been marked. */
  function Capacity(size: int, markfrom: bool, froms: nat): int {
    size + if markfrom then 5 + froms / 5 * 5 else 0
  }

  lemma {:induction false} MessageLength(lines: seq<seq<byte>>, markfrom: bool)
    ensures |Message(lines, markfrom)| == Octets(lines) - |lines| + Froms(lines, markfrom)
  {
    if lines != [] {
      MessageLength(lines[1..], markfrom);
    }
  }

  lemma {:induction false} NoFroms(lines: seq<seq<byte>>)
    ensures Froms(lines, false) == 0
  {
    if lines != [] {
      NoFroms(lines[1..]);
    }
  }

  // ----- Which lines are marked -----

  /** The line begins with "From " and its blank. */
  predicate BeginsFrom(line: seq<byte>) {
    |line| >= 5 && line[0] == 70 && line[1] == 114 && line[2] == 111 && line[3] == 109 && line[4] == 32
  }

  /** The lines of a text are these, each that begins so behind a '>' if marks are asked for, and an empty one at its end. */
  ghost predicate MarkedText(text: seq<byte>, lines: seq<seq<byte>>, markfrom: bool) {
    var got := Lines([], text);
    && |got| == |lines| + 1 && got[|lines|] == []
    && (forall i :: 0 <= i < |lines| ==> got[i] == if markfrom && BeginsFrom(lines[i]) then [62] + lines[i] else lines[i])
    && (markfrom ==> forall i :: 0 <= i < |got| ==> !BeginsFrom(got[i]))
  }

  ghost predicate NoBreaks(lines: seq<seq<byte>>) {
    forall i :: 0 <= i < |lines| ==> LF !in lines[i]
  }

  lemma MarkedIs(line: seq<byte>, markfrom: bool)
    ensures MarkedFrom(line, markfrom) <==> markfrom && BeginsFrom(line)
  {
    assert FROM_ == [70, 114, 111, 109, 32];
    assert |line| >= 5 ==> line[..5] == [line[0], line[1], line[2], line[3], line[4]];
  }

  lemma FirstByte(line: seq<byte>, markfrom: bool)
    ensures var shown := if markfrom && BeginsFrom(line) then [62] + line else line;
            (markfrom ==> !BeginsFrom(shown)) && (LF !in line ==> LF !in shown) && !BeginsFrom([])
  {
  }

  lemma FirstLine(shown: seq<byte>, more: seq<byte>)
    requires LF !in shown
    ensures Lines([], shown + [LF] + more) == [shown] + Lines([], more)
  {
    LinesOfText([], shown, [LF] + more);
    assert shown + [LF] + more == shown + ([LF] + more);
    assert [] + shown == shown && ([LF] + more)[1..] == more;
  }

  lemma MarkedFirst(text: seq<byte>, more: seq<byte>, line: seq<byte>, lines: seq<seq<byte>>, markfrom: bool)
    requires MarkedText(more, lines, markfrom)
    requires var shown := if markfrom && BeginsFrom(line) then [62] + line else line;
             Lines([], text) == [shown] + Lines([], more) && (markfrom ==> !BeginsFrom(shown))
    ensures MarkedText(text, [line] + lines, markfrom)
  {
    hide Lines, BeginsFrom;
  }

  /** The message, read line by line: just the lines that need it are marked, and then none can be taken for another message. */
  lemma {:induction false} MessageIsMarked(lines: seq<seq<byte>>, markfrom: bool)
    requires NoBreaks(lines)
    ensures MarkedText(Message(lines, markfrom), lines, markfrom)
  {
    hide MarkedFrom, BeginsFrom;
    if lines == [] {
      FirstByte([], markfrom);
    } else {
      hide MarkedText, Lines;
      var line, more := lines[0], Message(lines[1..], markfrom);
      var shown := if markfrom && BeginsFrom(line) then [62] + line else line;
      MarkedIs(line, markfrom);
      FirstByte(line, markfrom);
      FirstLine(shown, more);
      assert Stored(line, markfrom) == shown + [LF];
      MessageIsMarked(lines[1..], markfrom);
      MarkedFirst(Message(lines, markfrom), more, line, lines[1..], markfrom);
      assert [line] + lines[1..] == lines;
    }
  }

  // ----- Taking a message one line further -----

  lemma {:induction false} MessageSnoc(lines: seq<seq<byte>>, line: seq<byte>, markfrom: bool)
    ensures Message(lines + [line], markfrom) == Message(lines, markfrom) + Stored(line, markfrom)
    ensures Froms(lines + [line], markfrom) == Froms(lines, markfrom) + if MarkedFrom(line, markfrom) then 1 else 0
    ensures Octets(lines + [line]) == Octets(lines) + |line| + 2
  {
    if lines == [] {
      assert lines + [line] == [line] && [line][1..] == [];
      assert Stored(line, markfrom) + [] == [] + Stored(line, markfrom);
    } else {
      MessageSnoc(lines[1..], line, markfrom);
      assert (lines + [line])[1..] == lines[1..] + [line];
      assert Stored(lines[0], markfrom) + (Message(lines[1..], markfrom) + Stored(line, markfrom)) ==
             Stored(lines[0], markfrom) + Message(lines[1..], markfrom) + Stored(line, markfrom);
    }
  }

  // ----- How large the server must say a message is -----

  /**
   * Every write of the retrieval is inside the buffer: each line with its mark and its LF, and the NUL that is put
   * behind them if the response has `ended`.
   */
  ghost predicate WritesFit(lines: seq<seq<byte>>, markfrom: bool, ended: bool, size: int) {
    && (forall k :: 0 <= k <= |lines| ==> |Message(lines[..k], markfrom)| <= Capacity(size, markfrom, Froms(lines[..k], markfrom)))
    && (ended ==> |Message(lines, markfrom)| < Capacity(size, markfrom, Froms(lines, markfrom)))
  }

  /** What a message needs of the buffer beyond the room that its marks bring along. */
  function Demand(lines: seq<seq<byte>>, markfrom: bool): (n: int) {
    Octets(lines) - |lines| + Froms(lines, markfrom) % 5
  }

  /** The least answer to LIST that is safe: it counts line ends once, and the marks not made room for. */
  function LeastSize(lines: seq<seq<byte>>, markfrom: bool, ended: bool): (n: int) {
    Demand(lines, markfrom) + (if ended then 1 else 0) - if markfrom then 5 else 0
  }

  /** The demand only grows: a line that brings five bytes of room along is itself longer. */
  lemma {:induction false} DemandGrows(lines: seq<seq<byte>>, k: nat, markfrom: bool)
    requires k <= |lines|
    ensures Demand(lines[..k], markfrom) <= Demand(lines, markfrom)
    decreases |lines|
  {
    if k == |lines| {
      assert lines[..k] == lines;
    } else {
      var front, line := lines[..|lines| - 1], lines[|lines| - 1];
      DemandGrows(front, k, markfrom);
      assert front[..k] == lines[..k] && front + [line] == lines;
      MessageSnoc(front, line, markfrom);
    }
  }

  lemma RoomLeft(lines: seq<seq<byte>>, markfrom: bool, size: int)
    ensures Capacity(size, markfrom, Froms(lines, markfrom)) - |Message(lines, markfrom)| ==
            size + (if markfrom then 5 else 0) - Demand(lines, markfrom)
  {
    MessageLength(lines, markfrom);
    if !markfrom {
      NoFroms(lines);
    }
  }

  /** For any answer to LIST, honest or not: every write is inside the buffer exactly if it is at least that. */
  lemma SafeSizes(lines: seq<seq<byte>>, markfrom: bool, ended: bool, size: int)
    ensures WritesFit(lines, markfrom, ended, size) <==> size >= LeastSize(lines, markfrom, ended)
  {
    hide Message, Froms, Octets, Capacity, Demand;
    RoomLeft(lines, markfrom, size);
    assert lines[..|lines|] == lines;
    forall k | 0 <= k <= |lines|
      ensures size >= LeastSize(lines, markfrom, ended) ==>
                |Message(lines[..k], markfrom)| <= Capacity(size, markfrom, Froms(lines[..k], markfrom))
    {
      RoomLeft(lines[..k], markfrom, size);
      DemandGrows(lines, k, markfrom);
    }
  }

  /** An honest server, which counts each line end as two octets, is safe unless there is no line and nothing to mark. */
  lemma HonestSize(lines: seq<seq<byte>>, markfrom: bool)
    ensures Octets(lines) >= LeastSize(lines, markfrom, true) <==> markfrom || lines != []
  {
    if !markfrom {
      NoFroms(lines);
    }
  }

  /** One octet less for a message of one letter, and the NUL lies behind the buffer. */
  lemma OneOctetShort()
    ensures var lines: seq<seq<byte>> := [['a' as int]];
            Octets(lines) == 3 && WritesFit(lines, false, true, 3) && !WritesFit(lines, false, true, 2)
  {
    var lines: seq<seq<byte>> := [['a' as int]];
    assert lines[1..] == [];
    SafeSizes(lines, false, true, 3);
    SafeSizes(lines, false, true, 2);
  }

  /** The five octets that marks bring along: "From " and its mark, LF and NUL fit behind a size of three. */
  lemma OneMarkedLine()
    ensures var lines: seq<seq<byte>> := [[70, 114, 111, 109, 32]];
            WritesFit(lines, true, true, 3) && !WritesFit(lines, true, true, 2)
  {
    var lines: seq<seq<byte>> := [[70, 114, 111, 109, 32]];
    assert lines[1..] == [];
    MarkedIs(lines[0], true);
    SafeSizes(lines, true, true, 3);
    SafeSizes(lines, true, true, 2);
  }

  /** An empty message without marks: a server counts no octet, and the NUL has no room. */
  lemma NoRoomForNul()
    ensures Octets([]) == 0 && !WritesFit([], false, true, 0)
  {
    SafeSizes([], false, true, 0);
  }

  // ----- Whatever the server sends -----

  /** The lines of a response without their stuffing, and what follows its terminator if there is one. */
  datatype Response = Response(lines: seq<seq<byte>>, end: Option<seq<byte>>)

  /** The response that these bytes begin with. */
  function Body(p: seq<byte>): (r: Response)
    decreases |p|
  {
    var i := FirstCrlf(p);
    if i < 0 then Response([], None)
    else if Terminator(p[..i]) then Response([], Some(p[i + 2..]))
    else
      var r := Body(p[i + 2..]);
      Response([Unstuffed(p[..i])] + r.lines, r.end)
  }

  /** The response of a server that sends these lines stuffed, and its terminator, is these lines. */
  lemma {:induction false} BodyOfWire(lines: seq<seq<byte>>, more: seq<byte>)
    requires AllSendable(lines)
    ensures Body(Wire(lines) + more) == Response(lines, Some(more))
    decreases |lines|
  {
    hide FirstCrlf, Wire, Terminator, Unstuffed;
    if lines == [] {
      WireEnd(more);
    } else {
      WireLine(lines, more);
      BodyOfWire(lines[1..], more);
    }
  }

  /** The next line of a response, or its end, or neither. */
  lemma BodyStep(p: seq<byte>, lines: seq<seq<byte>>, k: nat, end: Option<seq<byte>>)
    requires k <= |lines| && Body(p) == Response(lines[k..], end)
    ensures var i := FirstCrlf(p);
            && (i < 0 ==> k == |lines| && end == None)
            && (i >= 0 && Terminator(p[..i]) ==> k == |lines| && end == Some(p[i + 2..]))
            && (i >= 0 && !Terminator(p[..i]) ==>
                  k < |lines| && Unstuffed(p[..i]) == lines[k] && Body(p[i + 2..]) == Response(lines[k + 1..], end))
  {
    hide FirstCrlf, Terminator, Unstuffed;
    var i := FirstCrlf(p);
    if i >= 0 && !Terminator(p[..i]) {
      var r := Body(p[i + 2..]);
      assert ([Unstuffed(p[..i])] + r.lines)[0] == lines[k..][0];
      assert ([Unstuffed(p[..i])] + r.lines)[1..] == r.lines && lines[k..][1..] == lines[k + 1..];
    }
  }
}
