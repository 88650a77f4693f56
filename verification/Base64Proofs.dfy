/** What base64 is for: decoding undoes encoding, with and without portable newlines. */
module Base64Proofs {
  import opened Bytes
  import opened Base64

  // ----- The characters -----

  lemma FirstByteBack(c1: byte, c2: byte)
    ensures 0 <= c1 % 4 * 16 + c2 / 16 < 64 && Out1(c1 / 4, c1 % 4 * 16 + c2 / 16) == c1
  {
    var x, y := c1 % 4, c2 / 16;
    assert (x * 16 + y) % 64 == x * 16 + y;
    assert (x * 16 + y) / 16 == x;
  }

  lemma SecondByteBack(c1: byte, c2: byte, c3: byte)
    ensures 0 <= c1 % 4 * 16 + c2 / 16 < 64 && 0 <= c2 % 16 * 4 + c3 / 64 < 64
    ensures Out2(c1 % 4 * 16 + c2 / 16, c2 % 16 * 4 + c3 / 64) == c2
  {
    var x, y, z, w := c1 % 4, c2 / 16, c2 % 16, c3 / 64;
    assert (x * 16 + y) % 16 == y;
    assert (z * 4 + w) % 64 == z * 4 + w;
    assert (z * 4 + w) / 4 == z;
  }

  lemma ThirdByteBack(c2: byte, c3: byte)
    ensures 0 <= c2 % 16 * 4 + c3 / 64 < 64
    ensures Out3(c2 % 16 * 4 + c3 / 64, c3 % 64) == c3
  {
    var z, w := c2 % 16, c3 / 64;
    assert (z * 4 + w) % 4 == w;
  }

  /** One chunk decodes to the bytes it was made of. */
  lemma ChunkDecodes(c1: byte, c2: byte, c3: byte)
    ensures var t := Chunk(c1, c2, c3, 0);
            Group(t[0], t[1], t[2], t[3]) == [c1, c2, c3] && !Last(t[0], t[1], t[2], t[3])
    ensures var t := Chunk(c1, c2, c3, 1);
            Group(t[0], t[1], t[2], t[3]) == [c1, c2] && Last(t[0], t[1], t[2], t[3])
    ensures var t := Chunk(c1, c2, c3, 2);
            Group(t[0], t[1], t[2], t[3]) == [c1] && Last(t[0], t[1], t[2], t[3])
  {
    hide Out1, Out2, Out3, Basis64, Char64;
    FirstByteBack(c1, c2);
    SecondByteBack(c1, c2, c3);
    ThirdByteBack(c2, c3);
    var d1, d2, d3, d4 := c1 / 4, c1 % 4 * 16 + c2 / 16, c2 % 16 * 4 + c3 / 64, c3 % 64;
    AlphabetRoundTrip(d1);
    AlphabetRoundTrip(d2);
    AlphabetRoundTrip(d3);
    AlphabetRoundTrip(d4);
  }

  lemma ChunkIsSignificant(b: seq<byte>)
    requires b != []
    ensures forall i :: 0 <= i < 4 ==> !IsSpace(FirstChunk(b)[i])
  {
  }

  lemma {:induction false} SignificantConcat(a: seq<byte>, b: seq<byte>)
    ensures Significant(a + b) == Significant(a) + Significant(b)
    decreases |a|
  {
    hide IsSpace;
    if a == [] {
      assert a + b == b;
    } else {
      SignificantConcat(a[1..], b);
      assert (a + b)[1..] == a[1..] + b && (a + b)[0] == a[0];
    }
  }

  lemma {:induction false} SignificantAll(a: seq<byte>)
    requires forall i :: 0 <= i < |a| ==> !IsSpace(a[i])
    ensures Significant(a) == a
    decreases |a|
  {
    if a != [] {
      SignificantAll(a[1..]);
    }
  }

  lemma LineFeedIsSpace()
    ensures Significant([LF]) == []
  {
    assert [LF][1..] == [];
  }

  /** The groups of an encoding put out the bytes that were encoded, whatever the line breaks. */
  lemma {:induction false} GroupsOfEncoding(b: seq<byte>, ct: nat)
    ensures Groups(Significant(Encode(b, ct))) == (b, true)
    decreases |b|
  {
    hide FirstChunk, Groups, Significant, Encode;
    EncodeStep(b, ct);
    LineFeedIsSpace();
    EmptyGroups();
    NoneSignificant();
    if b != [] {
      var chunk, breaks := FirstChunk(b), ct + 4 > 71;
      var rest := Encode(Rest(b), if breaks then 0 else ct + 4);
      GroupsOfEncoding(Rest(b), if breaks then 0 else ct + 4);
      ChunkIsSignificant(b);
      SignificantAll(chunk);
      SignificantConcat(chunk, rest);
      SignificantConcat(chunk, [LF]);
      SignificantConcat(chunk + [LF], rest);
      assert chunk + [] == chunk;
      assert Significant(Encode(b, ct)) == chunk + Significant(rest);
      EncodeStep(Rest(b), if breaks then 0 else ct + 4);
      GroupsOfLast(b, Significant(rest));
    }
  }

  lemma NoneSignificant()
    ensures Significant([]) == []
  {
  }

  /** A chunk in front of characters that put out the rest of `b`. */
  lemma GroupsOfLast(b: seq<byte>, rest: seq<byte>)
    requires b != [] && Groups(rest) == (Rest(b), true) && (|b| <= 3 ==> rest == [])
    ensures Groups(FirstChunk(b) + rest) == (b, true)
  {
    hide Groups, Group, Last, Chunk;
    var t := FirstChunk(b);
    ChunkDecodes(b[0], if |b| > 1 then b[1] else 0, if |b| > 2 then b[2] else 0);
    assert t + rest == [t[0]] + ([t[1]] + ([t[2]] + ([t[3]] + rest)));
    FourMore(t + rest, t[0], t[1], t[2], t[3], rest);
    assert |b| == 1 ==> [b[0]] == b;
    assert |b| == 2 ==> [b[0], b[1]] == b;
    assert |b| >= 3 ==> [b[0], b[1], b[2]] + Rest(b) == b;
  }

  // ----- The line breaks -----

  /** Without portable newlines the sink takes bytes as they are. */
  lemma {:induction false} FeedPlain(k: Sink, s: seq<byte>)
    requires !k.crPending
    ensures Feed(k, s, false) == Sink(k.out + s, false)
    decreases |s|
  {
    if s == [] {
      assert k.out + s == k.out;
    } else {
      FeedPlain(AlmostPutc(k, s[0], false), s[1..]);
      assert k.out + [s[0]] + s[1..] == k.out + s;
    }
  }

  /** The sink undoes the expansion of line breaks, a CR that is pending being one more byte before it. */
  lemma {:induction false} FeedExpanded(k: Sink, s: seq<byte>)
    ensures Close(Feed(k, Expand(s), true), true) == Close(k, true) + s
    decreases |s|
  {
    hide AlmostPutc, Close, Feed;
    var e := Expand(s);
    if s == [] {
      FeedNothing(k, true);
    } else if s[0] == LF {
      var k' := FeedLineBreak(k, Expand(s[1..]));
      FeedExpanded(k', s[1..]);
      assert Close(k, true) + [LF] + s[1..] == Close(k, true) + s;
    } else {
      var k' := FeedByte(k, s[0], Expand(s[1..]));
      FeedExpanded(k', s[1..]);
      assert Close(k, true) + [s[0]] + s[1..] == Close(k, true) + s;
    }
  }

  lemma FeedByte(k: Sink, b: byte, rest: seq<byte>) returns (k': Sink)
    requires b != LF
    ensures Feed(k, [b] + rest, true) == Feed(k', rest, true)
    ensures Close(k', true) == Close(k, true) + [b]
  {
    k' := AlmostPutc(k, b, true);
    assert ([b] + rest)[1..] == rest;
  }

  lemma FeedLineBreak(k: Sink, rest: seq<byte>) returns (k': Sink)
    ensures Feed(k, [CR, LF] + rest, true) == Feed(k', rest, true)
    ensures Close(k', true) == Close(k, true) + [LF]
  {
    var k1 := AlmostPutc(k, CR, true);
    k' := AlmostPutc(k1, LF, true);
    assert ([CR, LF] + rest)[1..] == [LF] + rest;
    assert ([LF] + rest)[1..] == rest;
    assert Feed(k, [CR, LF] + rest, true) == Feed(k1, [LF] + rest, true);
  }

  /** Decoding undoes encoding in both modes, for every file. */
  lemma RoundTrip(s: seq<byte>, portable: bool)
    ensures Decode(Encode(Read(s, portable), 0), portable) == s
  {
    var e := Read(s, portable);
    GroupsOfEncoding(e, 0);
    if portable {
      FeedExpanded(Sink([], false), s);
    } else {
      FeedPlain(Sink([], false), s);
    }
  }

  /** A plain decoder sees the line breaks of a portable encoding as CR LF. */
  lemma PortableIsCanonical(s: seq<byte>)
    ensures Decode(Encode(Read(s, true), 0), false) == Expand(s)
  {
    GroupsOfEncoding(Expand(s), 0);
    FeedPlain(Sink([], false), Expand(s));
  }

  // ----- Files of other encoders -----

  lemma {:induction false} GroupsOfStandard(b: seq<byte>, more: seq<byte>)
    requires |b| % 3 != 0 || more == []
    ensures Groups(Standard(b) + more) == (b, true)
    decreases |b|
  {
    hide Groups, Standard, StandardGroup, FirstChunk;
    StandardStep(b);
    if b == [] {
      EmptyGroups();
      assert Standard(b) + more == [];
    } else {
      FirstChunkStandard(b);
      if |b| <= 3 {
        assert Standard(b) == FirstChunk(b);
        GroupsOfEnd(b, more);
      } else {
        GroupsOfStandard(Rest(b), more);
        assert Standard(b) + more == FirstChunk(b) + (Standard(Rest(b)) + more);
        GroupsOfLast(b, Standard(Rest(b)) + more);
      }
    }
  }

  lemma StandardStep(b: seq<byte>)
    ensures b == [] ==> Standard(b) == []
    ensures 1 <= |b| <= 3 ==> Standard(b) == StandardGroup(b)
    ensures |b| > 3 ==> Standard(b) == StandardGroup(b[..3]) + Standard(Rest(b))
  {
    hide StandardGroup;
    if 1 <= |b| <= 3 {
      assert Standard([]) == [] && StandardGroup(b) + [] == StandardGroup(b);
    }
  }

  lemma GroupsOfEnd(b: seq<byte>, more: seq<byte>)
    requires 1 <= |b| <= 3 && (|b| % 3 != 0 || more == [])
    ensures Groups(FirstChunk(b) + more) == (b, true)
  {
    hide Groups, Group, Last, Chunk;
    var t := FirstChunk(b);
    ChunkDecodes(b[0], if |b| > 1 then b[1] else 0, if |b| > 2 then b[2] else 0);
    assert t + more == [t[0]] + ([t[1]] + ([t[2]] + ([t[3]] + more)));
    FourMore(t + more, t[0], t[1], t[2], t[3], more);
    EmptyGroups();
    assert |b| == 1 ==> [b[0]] == b;
    assert |b| == 2 ==> [b[0], b[1]] == b;
    assert |b| == 3 ==> [b[0], b[1], b[2]] + [] == b;
  }

  /** Each CR LF as a line break, and nothing else. */
  function Collapse(e: seq<byte>): (s: seq<byte>) {
    if e == [] then []
    else if [13, 10] <= e then [10] + Collapse(e[2..])
    else [e[0]] + Collapse(e[1..])
  }

  function Pending(k: Sink): (p: seq<byte>) {
    if k.crPending then [CR] else []
  }

  lemma CollapseStep(e: seq<byte>)
    ensures e == [] ==> Collapse(e) == []
    ensures [CR, LF] <= e ==> Collapse(e) == [LF] + Collapse(e[2..])
    ensures e != [] && !([CR, LF] <= e) ==> Collapse(e) == [e[0]] + Collapse(e[1..])
    ensures |e| >= 2 ==> ([CR, LF] <= e <==> e[0] == CR && e[1] == LF)
  {
  }

  /** One byte more for a sink that holds a CR back. */
  lemma PendingTaken(k: Sink, b: byte, rest: seq<byte>)
    requires k.crPending
    ensures var k' := AlmostPutc(k, b, true);
            k'.out + Collapse(Pending(k') + rest) == k.out + Collapse([CR, b] + rest)
  {
    hide Collapse;
    var p, e := [CR, b] + rest, [b] + rest;
    assert p[1..] == e && p[2..] == rest && e[1..] == rest && [] + rest == rest;
    CollapseStep(p);
    CollapseStep(e);
    if b == LF {
      assert k.out + [LF] + Collapse(rest) == k.out + ([LF] + Collapse(rest));
    } else if b == CR {
      assert k.out + [CR] + Collapse(e) == k.out + ([CR] + Collapse(e));
    } else {
      assert k.out + [CR, b] + Collapse(rest) == k.out + ([CR] + ([b] + Collapse(rest)));
    }
  }

  lemma ByteTaken(k: Sink, b: byte, rest: seq<byte>)
    requires !k.crPending
    ensures var k' := AlmostPutc(k, b, true);
            k'.out + Collapse(Pending(k') + rest) == k.out + Collapse([b] + rest)
  {
    hide Collapse;
    var e := [b] + rest;
    assert e[1..] == rest && [] + rest == rest;
    CollapseStep(e);
    if b != CR {
      assert k.out + [b] + Collapse(rest) == k.out + ([b] + Collapse(rest));
    }
  }

  /** The sink with its pending CR writes the line breaks of any data. */
  lemma {:induction false} FeedCollapsed(k: Sink, e: seq<byte>)
    ensures Close(Feed(k, e, true), true) == k.out + Collapse(Pending(k) + e)
    decreases |e|
  {
    hide Collapse, AlmostPutc;
    if e == [] {
      CollapseStep(Pending(k));
      CollapseStep([]);
      assert Pending(k) + e == Pending(k);
      assert k.crPending ==> Pending(k)[1..] == [] && [CR] + [] == [CR];
      assert k.out + [] == k.out;
    } else {
      FeedCollapsed(AlmostPutc(k, e[0], true), e[1..]);
      assert e == [e[0]] + e[1..];
      if k.crPending {
        PendingTaken(k, e[0], e[1..]);
        assert [CR] + ([e[0]] + e[1..]) == [CR, e[0]] + e[1..];
      } else {
        ByteTaken(k, e[0], e[1..]);
        assert Pending(k) + e == e;
      }
    }
  }

  /**
   * Any file that has the standard encoding of `e` in it, with white space in any places and, behind padding, anything
   * else, is decoded to `e`, with its line breaks converted if they are portable.
   */
  lemma StandardDecodes(t: seq<byte>, e: seq<byte>, more: seq<byte>, portable: bool)
    requires Significant(t) == Standard(e) + more
    requires |e| % 3 != 0 || more == []
    ensures Decode(t, portable) == if portable then Collapse(e) else e
  {
    hide Groups, Standard, Significant, Collapse, Feed;
    GroupsOfStandard(e, more);
    if portable {
      FeedCollapsed(Sink([], false), e);
      assert Pending(Sink([], false)) + e == e && [] + Collapse(e) == Collapse(e);
    } else {
      FeedPlain(Sink([], false), e);
      assert [] + e == e;
    }
  }

  /** In portable mode every line but the last is read with a CR at its end. */
  lemma {:induction false} LinesExpanded(cur: seq<byte>, s: seq<byte>)
    ensures var a, b := Lines(cur, s), Lines(cur, Expand(s));
            && |a| == |b| && a[|a| - 1] == b[|b| - 1]
            && forall i :: 0 <= i < |a| - 1 ==> b[i] == a[i] + [13]
    decreases |s|
  {
    if s != [] {
      var e := Expand(s[1..]);
      if s[0] == LF {
        LinesExpanded([], s[1..]);
        assert ([CR, LF] + e)[1..] == [LF] + e && ([LF] + e)[1..] == e;
      } else {
        LinesExpanded(cur + [s[0]], s[1..]);
        assert ([s[0]] + e)[1..] == e;
      }
    }
  }

  // ----- Line discipline -----

  /** Characters of the alphabet and padding, as many as whole chunks have. */
  predicate Coded(line: seq<byte>) {
    |line| % 4 == 0 && forall c :: c in line ==> Char64(c) != -1 || c == PAD
  }

  /** Lines of 72 characters, the last one shorter or as long, and nothing behind its line break. */
  predicate WellLined(ls: seq<seq<byte>>) {
    && ls != [] && ls[|ls| - 1] == []
    && (forall i :: 0 <= i < |ls| - 1 ==> Coded(ls[i]) && 0 < |ls[i]| <= 72)
    && (forall i :: 0 <= i < |ls| - 2 ==> |ls[i]| == 72)
  }

  lemma FirstChunkCoded(b: seq<byte>)
    requires b != []
    ensures |FirstChunk(b)| == 4 && Coded(FirstChunk(b)) && LF !in FirstChunk(b)
  {
  }

  lemma {:induction false} EncodeWellLined(cur: seq<byte>, b: seq<byte>, ct: nat)
    requires Coded(cur) && |cur| == ct <= 68
    ensures WellLined(Lines(cur, Encode(b, ct)))
    decreases |b|
  {
    hide FirstChunk, Encode, Coded, Lines, WellLined;
    EncodeStep(b, ct);
    if b == [] {
      LastLine(cur);
    } else {
      var chunk := FirstChunk(b);
      FirstChunkCoded(b);
      CodedConcat(cur, chunk);
      if ct + 4 > 71 {
        var rest := Encode(Rest(b), 0);
        NothingCoded();
        EncodeWellLined([], Rest(b), 0);
        assert chunk + [LF] + rest == chunk + ([LF] + rest);
        LinesOfText(cur, chunk, [LF] + rest);
        FullLine(cur + chunk, rest);
      } else {
        LinesOfText(cur, chunk, Encode(Rest(b), ct + 4));
        EncodeWellLined(cur + chunk, Rest(b), ct + 4);
      }
    }
  }

  lemma FullLine(line: seq<byte>, rest: seq<byte>)
    requires Coded(line) && |line| == 72 && WellLined(Lines([], rest))
    ensures WellLined(Lines(line, [LF] + rest))
  {
    hide Coded;
    assert ([LF] + rest)[1..] == rest;
    var ls := Lines([], rest);
    assert Lines(line, [LF] + rest) == [line] + ls;
  }

  lemma LastLine(line: seq<byte>)
    requires Coded(line) && |line| <= 72
    ensures WellLined(Lines(line, if line != [] then [LF] else []))
  {
    hide Coded;
    assert [LF][1..] == [];
    assert Lines([], []) == [[]];
    assert Lines(line, [LF]) == [line] + Lines([], [LF][1..]);
  }

  lemma CodedConcat(a: seq<byte>, b: seq<byte>)
    requires Coded(a) && Coded(b)
    ensures Coded(a + b)
  {
  }

  lemma NothingCoded()
    ensures Coded([])
  {
  }

  /** The lines of an encoded file, in either mode. */
  lemma LineDiscipline(s: seq<byte>, portable: bool)
    ensures WellLined(Lines([], Encode(Read(s, portable), 0)))
  {
    NothingCoded();
    EncodeWellLined([], Read(s, portable), 0);
  }

  /** The two programs one after the other, in the same mode. */
  method EncodeThenDecode(input: seq<byte>, portable: bool) returns (output: seq<byte>)
    ensures output == input
  {
    var t := To64(input, portable);
    RoundTrip(input, portable);
    output := From64(t, portable);
  }
}
