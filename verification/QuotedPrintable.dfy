/**
 * The quoted-printable coder of lib-src/mmencode.c (section 6.7 of RFC 2045): `toqp`, and
 * `fromqp` as `main` calls it, with no boundaries.
 */
module QuotedPrintable {
  import opened Bytes

  const EQ: byte := '=' as int

  /** The longest line that goes without a soft break, counted before the '=' of the break. */
  const SOFT_LIMIT := 72

  const QUOTED_FROM: seq<byte> := [EQ, '4' as int, '6' as int, 'r' as int, 'o' as int, 'm' as int]

  // ----- Hexadecimal digits -----

  /** `basis_hex`. */
  function HexDigit(d: int): (c: byte)
    requires 0 <= d < 16
  {
    if d < 10 then '0' as int + d else 'A' as int + (d - 10)
  }

  /** `hexchar`: digits of both cases, -1 for anything else. */
  function HexValue(c: byte): (d: int)
    ensures -1 <= d < 16
  {
    if '0' as int <= c <= '9' as int then c - '0' as int
    else if 'A' as int <= c <= 'F' as int then c - 'A' as int + 10
    else if 'a' as int <= c <= 'f' as int then c - 'a' as int + 10
    else -1
  }

  /** The low byte of `c1<<4 | c2`. */
  function HexByte(c1: int, c2: int): (b: byte)
    requires -1 <= c1 < 16 && -1 <= c2 < 16
  {
    if c2 == -1 then 255 else (16 * c1 + c2) % 256
  }

  lemma HexRoundTrip(c: byte)
    ensures HexByte(HexValue(HexDigit(c / 16)), HexValue(HexDigit(c % 16))) == c
  {
    assert HexValue(HexDigit(c / 16)) == c / 16;
  }

  // ----- Decoding -----

  /** Every '=' has a line break or two more bytes behind it; on other input `fromqp` reads outside its table. */
  predicate Complete(t: seq<byte>)
  {
    if t == [] then true
    else if t[0] != EQ then Complete(t[1..])
    else if |t| >= 2 && t[1] == LF then Complete(t[2..])
    else |t| >= 3 && Complete(t[3..])
  }

  /** The decoding that RFC 2045 describes, a line break being written where it is read. */
  function Decode(t: seq<byte>): (s: seq<byte>)
    requires Complete(t)
  {
    if t == [] then []
    else if t[0] != EQ then [t[0]] + Decode(t[1..])
    else if t[1] == LF then Decode(t[2..])
    else [HexByte(HexValue(t[1]), HexValue(t[2]))] + Decode(t[3..])
  }

  /** One step of the decoding: the byte it writes, if any, and how much it reads. */
  lemma DecodeStep(t: seq<byte>)
    requires t != [] && Complete(t)
    ensures t[0] != EQ ==> Complete(t[1..]) && Decode(t) == [t[0]] + Decode(t[1..])
    ensures t[0] == EQ ==> |t| >= 2
    ensures t[0] == EQ && t[1] == LF ==> Complete(t[2..]) && Decode(t) == [] + Decode(t[2..])
    ensures t[0] == EQ && t[1] != LF ==>
              |t| >= 3 && Complete(t[3..]) && Decode(t) == [HexByte(HexValue(t[1]), HexValue(t[2]))] + Decode(t[3..])
  {
  }

  lemma Reassociate(a: seq<byte>, b: seq<byte>, c: seq<byte>)
    ensures (a + b) + c == a + (b + c)
  {
  }

  /** The line break `fromqp` still owes. */
  function Owed(neednewline: bool): (b: seq<byte>) {
    if neednewline then [LF] else []
  }

  /** `fromqp`: it holds each line break back until it reads the byte after it. */
  method FromQp(input: seq<byte>) returns (output: seq<byte>)
    requires Complete(input)
    ensures output == Decode(input)
  {
    hide Decode, Complete, HexByte, HexValue;
    output := [];
    var neednewline := false;
    var at := 0;
    assert input[0..] == input;
    while at < |input|
      invariant 0 <= at <= |input| && Complete(input[at..])
      invariant (output + Owed(neednewline)) + Decode(input[at..]) == Decode(input)
      decreases |input| - at
    {
      ghost var left, written := input[at..], output + Owed(neednewline);
      DecodeStep(left);
      var c1 := input[at];
      at := at + 1;
      if neednewline {
        output := output + [LF];
        neednewline := false;
      }
      assert output == written;
      ghost var text: seq<byte> := [c1];
      if c1 == EQ {
        c1 := input[at];
        at := at + 1;
        if c1 == LF {
          text := [];
          assert left[2..] == input[at..];
        } else {
          var c2 := input[at];
          at := at + 1;
          text := [HexByte(HexValue(c1), HexValue(c2))];
          output := output + [HexByte(HexValue(c1), HexValue(c2))];
          assert left[3..] == input[at..];
        }
      } else {
        assert left[1..] == input[at..];
        if c1 == LF {
          neednewline := true;
        } else {
          output := output + [c1];
        }
      }
      assert output + Owed(neednewline) == written + text;
      Reassociate(written, text, Decode(input[at..]));
    }
    if neednewline {
      output := output + [LF];
    }
    DecodeEmpty(input[at..]);
  }

  lemma DecodeEmpty(t: seq<byte>)
    requires t == []
    ensures Complete(t) && Decode(t) == []
  {
  }

  // ----- Encoding -----

  /** What the encoder writes for the next bytes, how many it uses, and its `ct` and `prevc` after them. */
  datatype Piece = Piece(text: seq<byte>, used: nat, ct: nat, prevc: byte)

  predicate Quoted(c: byte, ct: nat) {
    || (c < 32 && c != LF && c != TAB)
    || c == EQ
    || c >= 127
    || (ct == 0 && c == DOT)
  }

  predicate Blank(c: byte) {
    c == SPACE || c == TAB
  }

  /** How many bytes at the front of `s` agree with `pattern`. */
  function Agree(s: seq<byte>, pattern: seq<byte>): (k: nat)
    ensures k <= |s| && k <= |pattern| && s[..k] == pattern[..k]
    ensures k < |s| && k < |pattern| ==> s[k] != pattern[k]
  {
    if s != [] && pattern != [] && s[0] == pattern[0] then
      var k := Agree(s[1..], pattern[1..]);
      assert s[..k + 1] == [s[0]] + s[1..][..k];
      k + 1
    else 0
  }

  function Step(s: seq<byte>, ct: nat, prevc: byte): (p: Piece)
    requires s != []
    ensures 1 <= p.used <= |s|
  {
    var c := s[0];
    if Quoted(c, ct) then
      Piece([EQ, HexDigit(c / 16), HexDigit(c % 16)], 1, ct + 3, 'A' as int)
    else if c == LF then
      Piece((if Blank(prevc) then [EQ, LF] else []) + [LF], 1, 0, LF)
    else if c == FROM_[0] && prevc == LF then
      var k := Agree(s, FROM_);
      if k == 5 then Piece(QUOTED_FROM, 4, ct + 6, 'x' as int)
      else Piece(FROM_[..k], k, ct + k, 'x' as int)
    else
      Piece([c], 1, ct + 1, c)
  }

  function SoftBreak(p: Piece): (q: Piece)
    ensures q.used == p.used
  {
    if p.ct > SOFT_LIMIT then Piece(p.text + [EQ, LF], p.used, 0, LF) else p
  }

  /** The encoding of `s` with `ct` bytes on the current line, `prevc` being the last of them. */
  function Encode(s: seq<byte>, ct: nat, prevc: byte): (t: seq<byte>)
  {
    if s == [] then (if ct > 0 then [EQ, LF] else [])
    else
      var p := SoftBreak(Step(s, ct, prevc));
      p.text + Encode(s[p.used..], p.ct, p.prevc)
  }

  /** The quoted-printable form of a whole file. */
  function ToQuotedPrintable(s: seq<byte>): (t: seq<byte>)
  {
    Encode(s, 0, 255)
  }

  /** `getc`: the next byte, or -1 for EOF. */
  function Peek(input: seq<byte>, at: nat): (c: int)
  {
    if at < |input| then input[at] else -1
  }

  /** The lookahead after an 'F' that begins a line: what is written, and where the `ungetc` leaves the input. */
  method FromHack(input: seq<byte>, start: nat) returns (text: seq<byte>, at: nat)
    requires 0 < start <= |input| && input[start - 1] == FROM_[0]
    ensures start <= at <= |input|
    ensures var k := Agree(input[start - 1..], FROM_);
            && text == (if k == 5 then QUOTED_FROM else FROM_[..k])
            && at == start - 1 + (if k == 5 then 4 else k)
  {
    ghost var s := input[start - 1..];
    at := start;
    var c := Peek(input, at);
    at := at + 1;
    if c == 'r' as int {
      assert s[1] == FROM_[1];
      c := Peek(input, at);
      at := at + 1;
      if c == 'o' as int {
        assert s[2] == FROM_[2];
        c := Peek(input, at);
        at := at + 1;
        if c == 'm' as int {
          assert s[3] == FROM_[3];
          c := Peek(input, at);
          at := at + 1;
          if c == ' ' as int {
            assert s[4] == FROM_[4];
            text := QUOTED_FROM;
          } else {
            text := FROM_[..4];
          }
        } else {
          text := FROM_[..3];
        }
      } else {
        text := FROM_[..2];
      }
    } else {
      text := FROM_[..1];
    }
    at := at - 1;
    AgreeIs(s, FROM_, if |text| == 6 then 5 else |text|);
  }

  lemma AgreeIs(s: seq<byte>, pattern: seq<byte>, k: nat)
    requires k <= |s| && k <= |pattern| && (forall i :: 0 <= i < k ==> s[i] == pattern[i])
    requires k < |s| && k < |pattern| ==> s[k] != pattern[k]
    ensures Agree(s, pattern) == k
  {
    var a := Agree(s, pattern);
    assert forall i :: 0 <= i < a ==> s[..a][i] == s[i] && pattern[..a][i] == pattern[i];
  }

  /** One turn of the loop of `toqp`, from its `getc` to the test for a soft break. */
  method PutNext(input: seq<byte>, start: nat, ct0: nat, prevc0: byte) returns (text: seq<byte>, at: nat, ct: nat, prevc: byte)
    requires start < |input|
    ensures start < at <= |input|
    ensures Piece(text, at - start, ct, prevc) == SoftBreak(Step(input[start..], ct0, prevc0))
  {
    text, at, ct, prevc := [], start, ct0, prevc0;
    var c := input[at];
    at := at + 1;
    if (c < 32 && (c != LF && c != TAB)) || c == EQ || c >= 127 || (ct == 0 && c == DOT) {
      text := [EQ, HexDigit(c / 16), HexDigit(c % 16)];
      ct := ct + 3;
      prevc := 'A' as int;
    } else if c == LF {
      if prevc == SPACE || prevc == TAB {
        text := [EQ, c];
      }
      text := text + [c];
      ct := 0;
      prevc := c;
    } else {
      if c == 'F' as int && prevc == LF {
        text, at := FromHack(input, at);
        ct := ct + |text|;
        prevc := 'x' as int;
      } else {
        text := [c];
        ct := ct + 1;
        prevc := c;
      }
    }
    if ct > 72 {
      text := text + [EQ, LF];
      ct := 0;
      prevc := LF;
    }
  }

  lemma EncodeStep(s: seq<byte>, ct: nat, prevc: byte)
    ensures s != [] ==>
              var p := SoftBreak(Step(s, ct, prevc));
              Encode(s, ct, prevc) == p.text + Encode(s[p.used..], p.ct, p.prevc)
    ensures s == [] ==> Encode(s, ct, prevc) == if ct > 0 then [EQ, LF] else []
  {
  }

  /** `toqp`. */
  method ToQp(input: seq<byte>) returns (output: seq<byte>)
    ensures output == ToQuotedPrintable(input)
  {
    hide Encode, Step, SoftBreak;
    output := [];
    var ct: nat, prevc: byte := 0, 255;
    var at := 0;
    assert input[0..] == input;
    while at < |input|
      invariant 0 <= at <= |input|
      invariant output + Encode(input[at..], ct, prevc) == ToQuotedPrintable(input)
      decreases |input| - at
    {
      ghost var s, before := input[at..], at;
      EncodeStep(s, ct, prevc);
      var text;
      text, at, ct, prevc := PutNext(input, at, ct, prevc);
      assert s[at - before..] == input[at..];
      Reassociate(output, text, Encode(input[at..], ct, prevc));
      output := output + text;
    }
    EncodeStep(input[at..], ct, prevc);
    if ct > 0 {
      output := output + [EQ];
      output := output + [LF];
    }
  }
}
