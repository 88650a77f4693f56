/** What quoted-printable is for: decoding undoes encoding, and the encoded lines are safe to mail. */
module QuotedPrintableProofs {
  import opened Bytes
  import opened QuotedPrintable

  // ----- Round trip -----

  /** `text` decodes to `s` whatever follows it. */
  ghost predicate StandsFor(text: seq<byte>, s: seq<byte>) {
    forall t :: Complete(t) ==> Complete(text + t) && Decode(text + t) == s + Decode(t)
  }

  lemma LiteralStands(c: byte)
    requires c != EQ
    ensures StandsFor([c], [c])
  {
    forall t | Complete(t) ensures Complete([c] + t) && Decode([c] + t) == [c] + Decode(t) {
      assert ([c] + t)[1..] == t;
    }
  }

  lemma HexStands(c: byte)
    ensures StandsFor([EQ, HexDigit(c / 16), HexDigit(c % 16)], [c])
  {
    HexRoundTrip(c);
    var x := [EQ, HexDigit(c / 16), HexDigit(c % 16)];
    forall t | Complete(t) ensures Complete(x + t) && Decode(x + t) == [c] + Decode(t) {
      assert (x + t)[3..] == t && (x + t)[1] != LF;
    }
  }

  lemma SoftBreakStands()
    ensures StandsFor([EQ, LF], [])
  {
    forall t | Complete(t) ensures Complete([EQ, LF] + t) && Decode([EQ, LF] + t) == [] + Decode(t) {
      assert ([EQ, LF] + t)[2..] == t;
    }
  }

  lemma StandsJoin(a: seq<byte>, x: seq<byte>, b: seq<byte>, y: seq<byte>)
    requires StandsFor(a, x) && StandsFor(b, y)
    ensures StandsFor(a + b, x + y)
  {
    forall t | Complete(t) ensures Complete(a + b + t) && Decode(a + b + t) == x + y + Decode(t) {
      assert a + b + t == a + (b + t);
      assert Complete(b + t) && Decode(b + t) == y + Decode(t);
      assert Complete(a + (b + t)) && Decode(a + (b + t)) == x + Decode(b + t);
    }
  }

  lemma {:induction false} LiteralsStand(s: seq<byte>)
    requires forall i :: 0 <= i < |s| ==> s[i] != EQ
    ensures StandsFor(s, s)
  {
    if s == [] {
      forall t | Complete(t) ensures Complete(s + t) && Decode(s + t) == s + Decode(t) {
        assert s + t == t;
      }
    } else {
      LiteralStands(s[0]);
      LiteralsStand(s[1..]);
      StandsJoin([s[0]], [s[0]], s[1..], s[1..]);
      assert [s[0]] + s[1..] == s;
    }
  }

  lemma QuotedFromStands()
    ensures StandsFor(QUOTED_FROM, FROM_[..4])
  {
    HexStands('F' as int);
    var x, rom: seq<byte> := [EQ, HexDigit('F' as int / 16), HexDigit('F' as int % 16)], ['r' as int, 'o' as int, 'm' as int];
    LiteralsStand(rom);
    StandsJoin(x, ['F' as int], rom, rom);
    assert x + rom == QUOTED_FROM;
    assert ['F' as int] + rom == FROM_[..4];
  }

  /** Every piece the encoder writes stands for the bytes it used. */
  lemma StepStands(s: seq<byte>, ct: nat, prevc: byte)
    requires s != []
    ensures var p := SoftBreak(Step(s, ct, prevc)); StandsFor(p.text, s[..p.used])
  {
    hide StandsFor;
    var c, p := s[0], Step(s, ct, prevc);
    assert [c] == s[..1];
    if Quoted(c, ct) {
      HexStands(c);
    } else if c == LF {
      LiteralStands(c);
      SoftBreakStands();
      StandsJoin([EQ, LF], [], [LF], [LF]);
      assert [] + [LF] == [LF];
      assert [] + [LF] == p.text || [EQ, LF] + [LF] == p.text;
    } else if c == FROM_[0] && prevc == LF {
      var k := Agree(s, FROM_);
      QuotedFromStands();
      LiteralsStand(FROM_[..k]);
      assert s[..k][..p.used] == s[..p.used];
      assert FROM_[..k][..p.used] == FROM_[..p.used];
    } else {
      LiteralStands(c);
    }
    if p.ct > SOFT_LIMIT {
      SoftBreakStands();
      StandsJoin(p.text, s[..p.used], [EQ, LF], []);
      assert s[..p.used] + [] == s[..p.used];
    }
  }

  lemma StandsApply(text: seq<byte>, s: seq<byte>, t: seq<byte>)
    requires StandsFor(text, s) && Complete(t)
    ensures Complete(text + t) && Decode(text + t) == s + Decode(t)
  {
  }

  lemma {:induction false} EncodeStands(s: seq<byte>, ct: nat, prevc: byte)
    ensures Complete(Encode(s, ct, prevc)) && Decode(Encode(s, ct, prevc)) == s
    decreases |s|
  {
    hide *;
    EncodeStep(s, ct, prevc);
    DecodeEmpty([]);
    if s == [] {
      SoftBreakStands();
      StandsApply([EQ, LF], [], []);
      assert [EQ, LF] + [] == [EQ, LF];
    } else {
      var p := SoftBreak(Step(s, ct, prevc));
      StepStands(s, ct, prevc);
      EncodeStands(s[p.used..], p.ct, p.prevc);
      StandsApply(p.text, s[..p.used], Encode(s[p.used..], p.ct, p.prevc));
      assert s[..p.used] + s[p.used..] == s;
    }
  }

  /** Decoding undoes encoding, for every file. */
  lemma RoundTrip(s: seq<byte>)
    ensures Complete(ToQuotedPrintable(s))
    ensures Decode(ToQuotedPrintable(s)) == s
  {
    EncodeStands(s, 0, 255);
  }

  /** The two programs one after the other. */
  method EncodeThenDecode(input: seq<byte>) returns (output: seq<byte>)
    ensures output == input
  {
    var t := ToQp(input);
    RoundTrip(input);
    output := FromQp(t);
  }

  // ----- Line discipline -----

  /** A line that survives mail: short, of printable characters and tabs, with no blank at its end and no dot or "From " at its start. */
  predicate Safe(line: seq<byte>, first: bool) {
    && |line| <= 76
    && (forall i :: 0 <= i < |line| ==> line[i] == TAB || 32 <= line[i] <= 126)
    && (line != [] ==> !Blank(line[|line| - 1]) && line[0] != DOT)
    && (first || !(FROM_ <= line))
  }

  predicate AllSafe(ls: seq<seq<byte>>, first: bool) {
    forall i :: 0 <= i < |ls| ==> Safe(ls[i], first && i == 0)
  }

  /** `cur` cannot grow into a line that starts with "From " when `next` is what is encoded next. */
  predicate NotFrom(cur: seq<byte>, next: seq<byte>) {
    || (exists i :: 0 <= i < |cur| && i < 5 && cur[i] != FROM_[i])
    || (|cur| < 5 && (next == [] || next[0] != FROM_[|cur|]))
  }

  /** The encoder's state fits the line it is writing, before its test for a soft break. */
  predicate Fits(cur: seq<byte>, first: bool, next: seq<byte>, ct: nat, prevc: byte) {
    && |cur| == ct <= SOFT_LIMIT + 3
    && (forall i :: 0 <= i < |cur| ==> cur[i] == TAB || 32 <= cur[i] <= 126)
    && (cur != [] ==> cur[0] != DOT && (Blank(cur[|cur| - 1]) ==> Blank(prevc)))
    && (prevc == LF ==> cur == [])
    && (cur == [] ==> !Blank(prevc))
    && (!first ==> if cur == [] then prevc == LF else NotFrom(cur, next))
  }

  lemma LinesAtBreak(cur: seq<byte>, text: seq<byte>, t: seq<byte>)
    requires LF !in text
    ensures Lines(cur, text + [LF] + t) == [cur + text] + Lines([], t)
  {
    LinesOfText(cur, text, [LF] + t);
    assert text + [LF] + t == text + ([LF] + t);
    assert ([LF] + t)[1..] == t;
  }

  /** A line that fits may be ended by a soft break, once it is long or nothing but a break follows. */
  lemma SoftEnd(cur: seq<byte>, first: bool, next: seq<byte>, ct: nat, prevc: byte)
    requires Fits(cur, first, next, ct, prevc) && cur != []
    requires next == [] || next[0] == LF || ct > SOFT_LIMIT
    ensures Safe(cur + [EQ], first)
  {
    if !first {
      if i :| 0 <= i < |cur| && i < 5 && cur[i] != FROM_[i] {
        assert (cur + [EQ])[i] != FROM_[i];
      } else {
        assert (cur + [EQ])[|cur|] != FROM_[|cur|];
      }
    }
  }

  /** A line that fits may be ended by a hard break, if the encoder saw no blank at its end. */
  lemma HardEnd(cur: seq<byte>, first: bool, next: seq<byte>, ct: nat, prevc: byte)
    requires Fits(cur, first, next, ct, prevc)
    requires next != [] && next[0] == LF && !Blank(prevc)
    ensures Safe(cur, first)
  {
  }

  /** A piece that ends no line: what it adds to the line. */
  lemma StepText(s: seq<byte>, ct: nat, prevc: byte)
    requires s != [] && s[0] != LF
    ensures var p := Step(s, ct, prevc);
            && p.text != [] && p.ct == ct + |p.text|
            && |p.text| <= (if ct > 0 && prevc != LF then 3 else 6)
            && (forall i :: 0 <= i < |p.text| ==> p.text[i] == TAB || 32 <= p.text[i] <= 126)
            && (ct == 0 ==> p.text[0] != DOT)
            && (Blank(p.prevc) <==> Blank(p.text[|p.text| - 1]))
            && p.prevc != LF
            && (p.text[0] == s[0] || p.text[0] == EQ)
            && (p.text[0] == FROM_[0] && prevc == LF ==> NotFrom(p.text, s[p.used..]))
  {
  }

  /** No piece completes a "From " that the line could not be already. */
  lemma StepNotFrom(cur: seq<byte>, s: seq<byte>, ct: nat, prevc: byte)
    requires s != [] && s[0] != LF
    requires if cur == [] then prevc == LF else NotFrom(cur, s)
    ensures var p := Step(s, ct, prevc); NotFrom(cur + p.text, s[p.used..])
  {
    hide Step;
    StepText(s, ct, prevc);
    var p := Step(s, ct, prevc);
    var cur' := cur + p.text;
    if cur == [] && p.text[0] == FROM_[0] {
      assert cur' == p.text;
    } else if i :| 0 <= i < |cur| && i < 5 && cur[i] != FROM_[i] {
      assert cur'[i] != FROM_[i];
    } else {
      assert cur'[|cur|] == p.text[0] != FROM_[|cur|];
    }
  }

  /** A piece that ends no line leaves a line that fits. */
  lemma StepFits(cur: seq<byte>, first: bool, s: seq<byte>, ct: nat, prevc: byte)
    requires Fits(cur, first, s, ct, prevc) && ct <= SOFT_LIMIT && s != [] && s[0] != LF
    ensures var p := Step(s, ct, prevc);
            LF !in p.text && Fits(cur + p.text, first, s[p.used..], p.ct, p.prevc)
  {
    hide Step, NotFrom;
    StepText(s, ct, prevc);
    if !first {
      StepNotFrom(cur, s, ct, prevc);
    }
  }

  lemma SafeBehind(line: seq<byte>, first: bool, ls: seq<seq<byte>>)
    requires Safe(line, first) && AllSafe(ls, false)
    ensures AllSafe([line] + ls, first)
  {
  }

  lemma {:induction false} EncodeIsSafe(cur: seq<byte>, first: bool, s: seq<byte>, ct: nat, prevc: byte)
    requires Fits(cur, first, s, ct, prevc) && ct <= SOFT_LIMIT
    ensures AllSafe(Lines(cur, Encode(s, ct, prevc)), first)
    decreases |s|
  {
    hide Fits, Safe, Lines, Encode, AllSafe;
    EncodeStep(s, ct, prevc);
    NewLine(first);
    FitsCount(cur, first, s, ct, prevc);
    if s == [] {
      if ct > 0 {
        SoftEnd(cur, first, s, ct, prevc);
        LinesAtBreak(cur, [EQ], []);
        assert [EQ] + [LF] + [] == [EQ, LF];
        SafeBehind(cur + [EQ], first, Lines([], []));
      }
    } else if s[0] == LF {
      BreakIsSafe(cur, first, s, ct, prevc);
    } else {
      StepFits(cur, first, s, ct, prevc);
      var p := Step(s, ct, prevc);
      var cur', next := cur + p.text, s[p.used..];
      if p.ct > SOFT_LIMIT {
        var rest := Encode(next, 0, LF);
        FitsCount(cur', first, next, p.ct, p.prevc);
        SoftEnd(cur', first, next, p.ct, p.prevc);
        AtLineStart(next);
        EncodeIsSafe([], false, next, 0, LF);
        LinesAtBreak(cur, p.text + [EQ], rest);
        assert p.text + [EQ] + [LF] + rest == p.text + [EQ, LF] + rest;
        assert cur + (p.text + [EQ]) == cur' + [EQ];
        SafeBehind(cur' + [EQ], first, Lines([], rest));
      } else {
        EncodeIsSafe(cur', first, next, p.ct, p.prevc);
        LinesOfText(cur, p.text, Encode(next, p.ct, p.prevc));
      }
    }
  }

  lemma NewLine(first: bool)
    ensures Lines([], []) == [[]] && AllSafe(Lines([], []), first) && AllSafe(Lines([], []), false)
  {
  }

  lemma AtLineStart(next: seq<byte>)
    ensures Fits([], false, next, 0, LF)
  {
  }

  lemma FitsCount(cur: seq<byte>, first: bool, s: seq<byte>, ct: nat, prevc: byte)
    requires Fits(cur, first, s, ct, prevc)
    ensures |cur| == ct && (Blank(prevc) ==> cur != []) && (cur == [] ==> Safe(cur, first))
  {
  }

  lemma BreakText(s: seq<byte>, ct: nat, prevc: byte)
    requires ct <= SOFT_LIMIT && s != [] && s[0] == LF
    ensures var none: seq<byte> := [];
            var rest := Encode(s[1..], 0, LF);
            Encode(s, ct, prevc) == if Blank(prevc) then [EQ] + [LF] + ([LF] + rest) else none + [LF] + rest
  {
    var rest := Encode(s[1..], 0, LF);
    assert [EQ, LF] + [LF] + rest == [EQ] + [LF] + ([LF] + rest);
  }

  /** A line break in the input: a hard break, with a soft one before it when the line ends in a blank. */
  lemma {:induction false} BreakIsSafe(cur: seq<byte>, first: bool, s: seq<byte>, ct: nat, prevc: byte)
    requires Fits(cur, first, s, ct, prevc) && ct <= SOFT_LIMIT && s != [] && s[0] == LF
    ensures AllSafe(Lines(cur, Encode(s, ct, prevc)), first)
    decreases |s|, 0
  {
    hide Fits, Safe, Lines, AllSafe;
    var rest := Encode(s[1..], 0, LF);
    AtLineStart(s[1..]);
    EncodeIsSafe([], false, s[1..], 0, LF);
    FitsCount(cur, first, s, ct, prevc);
    FitsCount([], false, s[1..], 0, LF);
    var none: seq<byte> := [];
    LinesAtBreak(none, none, rest);
    assert none + none == none && none + [LF] + rest == [LF] + rest;
    BreakText(s, ct, prevc);
    hide Encode;
    if Blank(prevc) {
      SoftEnd(cur, first, s, ct, prevc);
      SafeBehind([], false, Lines([], rest));
      LinesAtBreak(cur, [EQ], [LF] + rest);
      SafeBehind(cur + [EQ], first, Lines([], [LF] + rest));
    } else {
      HardEnd(cur, first, s, ct, prevc);
      LinesAtBreak(cur, none, rest);
      assert cur + none == cur;
      SafeBehind(cur, first, Lines([], rest));
    }
  }

  /** Every line the encoder writes is safe; only the first line of a file may start with "From ". */
  lemma LineDiscipline(s: seq<byte>)
    ensures AllSafe(Lines([], ToQuotedPrintable(s)), true)
  {
    EncodeIsSafe([], true, s, 0, 255);
  }

  // ----- Every escape -----

  const UPPER_DIGITS: string := "0123456789ABCDEF"
  const LOWER_DIGITS: string := "0123456789abcdef"

  lemma DigitIs(d: int)
    requires 0 <= d < 16
    ensures |UPPER_DIGITS| == |LOWER_DIGITS| == 16
    ensures UPPER_DIGITS[d] as int == HexDigit(d) && HexValue(HexDigit(d)) == d
    ensures 0 <= LOWER_DIGITS[d] as int < 256 && HexValue(LOWER_DIGITS[d] as int) == d
  {
  }

  /** `c` shows the digit `d`, in either case. */
  ghost predicate Shows(c: byte, d: int) {
    0 <= d < 16 && |UPPER_DIGITS| == |LOWER_DIGITS| == 16 && (c == UPPER_DIGITS[d] as int || c == LOWER_DIGITS[d] as int)
  }

  /** An escape with digits of any case stands for the byte that they show, wherever it is. */
  lemma EscapeStands(c1: byte, c2: byte, d1: int, d2: int)
    requires Shows(c1, d1) && Shows(c2, d2)
    ensures StandsFor([61, c1, c2], [d1 * 16 + d2])
  {
    DigitIs(d1);
    DigitIs(d2);
    hide UPPER_DIGITS, LOWER_DIGITS;
    assert c1 != LF;
    var x := [EQ, c1, c2];
    forall t | Complete(t) ensures Complete(x + t) && Decode(x + t) == [d1 * 16 + d2] + Decode(t) {
      assert (x + t)[3..] == t && (x + t)[0] == EQ && (x + t)[1] == c1 && (x + t)[2] == c2;
    }
  }

  // ----- Byte by byte -----

  /** A byte that cannot stand for itself behind `line`: a control character but the tab, '=', one outside ASCII, and at its start a dot. */
  predicate CannotStand(c: byte, line: seq<byte>) {
    (c < 32 && c != 9) || c == 61 || c >= 127 || (line == [] && c == 46)
  }

  /** The next bytes would make a line other than the first one look like the start of another message. */
  predicate LooksLikeFrom(s: seq<byte>, line: seq<byte>, first: bool) {
    line == [] && !first && [70, 114, 111, 109, 32] <= s
  }

  function Escape(c: byte): (t: seq<byte>) {
    DigitIs(c / 16);
    DigitIs(c % 16);
    [61, UPPER_DIGITS[c / 16] as int, UPPER_DIGITS[c % 16] as int]
  }

  /**
   * The encoding of `s` behind `line`, the text that the current line has: without lookahead, and without any record but
   * that line.  Every byte that can stand for itself does, and a soft break comes only on a line of more than 72
   * characters, behind a blank in front of a line break, or at the end.
   */
  function ByteByByte(s: seq<byte>, line: seq<byte>, first: bool): (t: seq<byte>)
    decreases |s|, |line|
  {
    if |line| > 72 then [61, 10] + ByteByByte(s, [], false)
    else if s == [] then (if line == [] then [] else [61, 10])
    else if s[0] == 10 then
      (if line != [] && line[|line| - 1] in {32, 9} then [61, 10] else []) + [10] + ByteByByte(s[1..], [], false)
    else if CannotStand(s[0], line) || LooksLikeFrom(s, line, first) then
      Escape(s[0]) + ByteByByte(s[1..], line + Escape(s[0]), first)
    else
      [s[0]] + ByteByByte(s[1..], line + [s[0]], first)
  }

  /** The encoder's record of the line. */
  ghost predicate Recorded(line: seq<byte>, first: bool, ct: nat, prevc: byte) {
    && |line| == ct
    && (Blank(prevc) <==> line != [] && Blank(line[|line| - 1]))
    && (prevc == LF <==> line == [] && !first)
  }

  lemma EscapeIs(c: byte)
    ensures Escape(c) == [EQ, HexDigit(c / 16), HexDigit(c % 16)] && !Blank(Escape(c)[2])
    ensures Escape(70) == [EQ, '4' as int, '6' as int]
  {
    DigitIs(c / 16);
    DigitIs(c % 16);
    DigitIs(4);
    DigitIs(6);
  }

  lemma Stands(s: seq<byte>, line: seq<byte>, first: bool)
    requires s != [] && |line| <= 72 && s[0] != 10 && !CannotStand(s[0], line) && !LooksLikeFrom(s, line, first)
    ensures ByteByByte(s, line, first) == [s[0]] + ByteByByte(s[1..], line + [s[0]], first)
  {
  }

  /** Letters in front of others that stand for themselves. */
  lemma {:induction false} LettersStand(text: seq<byte>, s: seq<byte>, line: seq<byte>, first: bool)
    requires forall i :: 0 <= i < |text| ==> 65 <= text[i] < 127
    requires |line| + |text| <= 73 && !LooksLikeFrom(text + s, line, first)
    ensures ByteByByte(text + s, line, first) == text + ByteByByte(s, line + text, first)
    decreases |text|
  {
    hide ByteByByte;
    if text == [] {
      assert text + s == s && line + text == line && text + ByteByByte(s, line, first) == ByteByByte(s, line, first);
    } else {
      Stands(text + s, line, first);
      assert (text + s)[1..] == text[1..] + s && line + [text[0]] + text[1..] == line + text;
      LettersStand(text[1..], s, line + [text[0]], first);
      var rest := ByteByByte(s, line + text, first);
      assert [text[0]] + (text[1..] + rest) == text + rest;
    }
  }

  lemma FrontIs(s: seq<byte>, pattern: seq<byte>, k: nat)
    requires k <= Agree(s, pattern)
    ensures k <= |s| && k <= |pattern| && s == pattern[..k] + s[k..]
  {
    var a := Agree(s, pattern);
    hide Agree;
    assert s[..k] == s[..a][..k] && pattern[..a][..k] == pattern[..k];
  }

  lemma FromPieces()
    ensures FROM_ == [70, 114, 111, 109, 32] && FROM_[..4] == [70] + FROM_[1..4]
    ensures Escape(70) + FROM_[1..4] == QUOTED_FROM
  {
    EscapeIs(70);
    assert FROM_[1..4] == ['r' as int, 'o' as int, 'm' as int];
  }

  /** "From " at the start of a line. */
  lemma FromEscaped(s: seq<byte>)
    requires Agree(s, FROM_) == 5
    ensures ByteByByte(s, [], false) == QUOTED_FROM + ByteByByte(s[4..], QUOTED_FROM, false)
  {
    hide ByteByByte, Agree, Escape;
    FrontIs(s, FROM_, 5);
    FromPieces();
    EscapeIs(70);
    FirstEscaped(s);
    assert s[1..] == FROM_[1..4] + s[4..];
    LettersStand(FROM_[1..4], s[4..], Escape(70), false);
    var rest := ByteByByte(s[4..], QUOTED_FROM, false);
    assert Escape(70) + (FROM_[1..4] + rest) == Escape(70) + FROM_[1..4] + rest;
  }

  /** What the lookahead at the start of a line writes. */
  lemma FromByByte(s: seq<byte>)
    requires s != [] && s[0] == FROM_[0]
    ensures var k := Agree(s, FROM_);
            var text, used := if k == 5 then QUOTED_FROM else FROM_[..k], if k == 5 then 4 else k;
            ByteByByte(s, [], false) == text + ByteByByte(s[used..], text, false)
  {
    hide ByteByByte;
    var k := Agree(s, FROM_);
    if k == 5 {
      FromEscaped(s);
    } else {
      FrontIs(s, FROM_, k);
      FromPieces();
      NotFromYet(s, k);
      LettersStand(FROM_[..k], s[k..], [], false);
      assert [] + FROM_[..k] == FROM_[..k];
    }
  }

  lemma AgreeWhole(s: seq<byte>, pattern: seq<byte>)
    ensures pattern <= s ==> Agree(s, pattern) == |pattern|
  {
    if pattern <= s {
      AgreeIs(s, pattern, |pattern|);
    }
  }

  lemma NotFromYet(s: seq<byte>, k: nat)
    requires k == Agree(s, FROM_) && k < 5
    ensures !LooksLikeFrom(s, [], false)
  {
    hide Agree;
    assert FROM_ == [70, 114, 111, 109, 32];
    AgreeWhole(s, FROM_);
  }

  lemma FirstEscaped(s: seq<byte>)
    requires LooksLikeFrom(s, [], false)
    ensures ByteByByte(s, [], false) == Escape(70) + ByteByByte(s[1..], Escape(70), false)
  {
    assert [] + Escape(70) == Escape(70);
  }

  /** The lookahead is taken just where a line could look like another message. */
  lemma TurnKind(s: seq<byte>, line: seq<byte>, first: bool, ct: nat, prevc: byte)
    requires s != [] && s[0] != LF && ct <= 72 && Recorded(line, first, ct, prevc)
    ensures Quoted(s[0], ct) <==> CannotStand(s[0], line)
    ensures s[0] == FROM_[0] && prevc == LF ==> line == [] && !first
    ensures !Quoted(s[0], ct) && !(s[0] == FROM_[0] && prevc == LF) ==> !LooksLikeFrom(s, line, first)
  {
  }

  lemma EscapedByByte(s: seq<byte>, line: seq<byte>, first: bool)
    requires s != [] && |line| <= 72 && s[0] != 10 && CannotStand(s[0], line)
    ensures ByteByByte(s, line, first) == Escape(s[0]) + ByteByByte(s[1..], line + Escape(s[0]), first)
  {
  }

  lemma LineGrows(line: seq<byte>, text: seq<byte>, first: bool, ct: nat, prevc: byte)
    requires |line| == ct && text != [] && prevc != LF && (Blank(prevc) <==> Blank(text[|text| - 1]))
    ensures Recorded(line + text, first, ct + |text|, prevc) && line + text != []
  {
  }

  /** One turn of the encoder's loop, but for its soft break, is as many bytes one by one. */
  lemma TurnByByte(s: seq<byte>, line: seq<byte>, first: bool, ct: nat, prevc: byte)
    requires s != [] && s[0] != LF && ct <= 72 && Recorded(line, first, ct, prevc)
    ensures var p := Step(s, ct, prevc);
            && ByteByByte(s, line, first) == p.text + ByteByByte(s[p.used..], line + p.text, first)
            && Recorded(line + p.text, first, p.ct, p.prevc) && line + p.text != []
  {
    TurnKind(s, line, first, ct, prevc);
    StepText(s, ct, prevc);
    LineGrows(line, Step(s, ct, prevc).text, first, ct, Step(s, ct, prevc).prevc);
    hide ByteByByte, LooksLikeFrom, CannotStand, Agree, Recorded;
    var c := s[0];
    if Quoted(c, ct) {
      EscapeIs(c);
      EscapedByByte(s, line, first);
    } else if c == FROM_[0] && prevc == LF {
      FromByByte(s);
      assert line + Step(s, ct, prevc).text == Step(s, ct, prevc).text;
    } else {
      Stands(s, line, first);
    }
  }

  lemma LineBreakByByte(s: seq<byte>, line: seq<byte>, first: bool)
    requires |line| <= 72 && s != [] && s[0] == LF
    ensures ByteByByte(s, line, first) ==
            (if line != [] && Blank(line[|line| - 1]) then [EQ, LF] else []) + [LF] + ByteByByte(s[1..], [], false)
  {
  }

  lemma EndByByte(s: seq<byte>, line: seq<byte>, first: bool)
    ensures |line| > 72 ==> ByteByByte(s, line, first) == [EQ, LF] + ByteByByte(s, [], false)
    ensures |line| <= 72 && s == [] ==> ByteByByte(s, line, first) == if line == [] then [] else [EQ, LF]
  {
  }

  lemma {:induction false} EncodeByByte(s: seq<byte>, line: seq<byte>, first: bool, ct: nat, prevc: byte)
    requires Recorded(line, first, ct, prevc) && ct <= SOFT_LIMIT
    ensures Encode(s, ct, prevc) == ByteByByte(s, line, first)
    decreases |s|
  {
    hide ByteByByte, Encode;
    EncodeStep(s, ct, prevc);
    EndByByte(s, line, first);
    if s != [] {
      var p, q := Step(s, ct, prevc), SoftBreak(Step(s, ct, prevc));
      if s[0] == LF {
        LineBreakByByte(s, line, first);
        EncodeByByte(s[1..], [], false, 0, LF);
      } else {
        TurnByByte(s, line, first, ct, prevc);
        hide Step, Recorded;
        var line', next := line + p.text, s[p.used..];
        Counted(line', first, p.ct, p.prevc);
        if p.ct > SOFT_LIMIT {
          EndByByte(next, line', first);
          EncodeByByte(next, [], false, 0, LF);
          assert p.text + [EQ, LF] + Encode(next, 0, LF) == p.text + ([EQ, LF] + Encode(next, 0, LF));
        } else {
          EncodeByByte(next, line', first, p.ct, p.prevc);
        }
      }
    }
  }

  lemma Counted(line: seq<byte>, first: bool, ct: nat, prevc: byte)
    requires Recorded(line, first, ct, prevc)
    ensures |line| == ct && Recorded([], false, 0, LF)
  {
  }

  /** The encoder, with its lookahead, its count and its `prevc`, writes what encoding byte by byte gives. */
  lemma NothingMoreQuoted(s: seq<byte>)
    ensures ToQuotedPrintable(s) == ByteByByte(s, [], true)
  {
    EncodeByByte(s, [], true, 0, 255);
  }
}
