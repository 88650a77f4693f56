/**
 * The base64 coder of lib-src/mmencode.c (section 6.8 of RFC 2045): `to64`, and `from64` as
 * `main` calls it, with no boundaries.  With portable newlines the encoder reads each line break
 * as CR LF and the decoder writes each CR LF as a line break.
 */
module Base64 {
  import opened Bytes

  const PAD: byte := '=' as int

  // ----- The alphabet -----

  /** `basis_64`. */
  function Basis64(d: int): (c: byte)
    requires 0 <= d < 64
  {
    if d < 26 then 'A' as int + d
    else if d < 52 then 'a' as int + (d - 26)
    else if d < 62 then '0' as int + (d - 52)
    else if d == 62 then '+' as int
    else '/' as int
  }

  /** `char64`: the value of a character of the alphabet, -1 for any other byte. */
  function Char64(c: byte): (d: int)
    ensures -1 <= d < 64
  {
    if 'A' as int <= c <= 'Z' as int then c - 'A' as int
    else if 'a' as int <= c <= 'z' as int then c - 'a' as int + 26
    else if '0' as int <= c <= '9' as int then c - '0' as int + 52
    else if c == '+' as int then 62
    else if c == '/' as int then 63
    else -1
  }

  /** `isspace` in the C locale. */
  function IsSpace(c: byte): (t: bool)
    ensures t <==> c in {9, 10, 11, 12, 13, 32}
  {
    9 <= c <= 13 || c == SPACE
  }

  lemma AlphabetRoundTrip(d: int)
    requires 0 <= d < 64
    ensures Char64(Basis64(d)) == d && !IsSpace(Basis64(d)) && Basis64(d) != PAD
  {
  }

  // ----- The standard -----

  const UPPER: string := "ABCDEFGHIJKLM" + "NOPQRSTUVWXYZ"
  const LOWER: string := "abcdefghijklm" + "nopqrstuvwxyz"
  const DIGITS: string := "0123456789"

  /** Table 1 of RFC 2045: the place of a character is its value. */
  const ALPHABET: string := UPPER + LOWER + DIGITS + "+/"

  lemma LettersAre(i: int)
    requires 0 <= i < 26
    ensures |UPPER| == |LOWER| == 26 && UPPER[i] as int == 65 + i && LOWER[i] as int == 97 + i
  {
  }

  lemma DigitsAre(i: int)
    requires 0 <= i < 10
    ensures |DIGITS| == 10 && DIGITS[i] as int == 48 + i
  {
  }

  /** `basis_64` is that table. */
  lemma BasisIs(d: int)
    requires 0 <= d < 64
    ensures |ALPHABET| == 64 && Basis64(d) == ALPHABET[d] as int
  {
    hide UPPER, LOWER, DIGITS;
    LettersAre(if d < 26 then d else if d < 52 then d - 26 else 0);
    DigitsAre(if 52 <= d < 62 then d - 52 else 0);
  }

  /** `char64` is the place in it, and -1 for what has none. */
  lemma CharIs(c: byte)
    ensures |ALPHABET| == 64
    ensures Char64(c) >= 0 ==> ALPHABET[Char64(c)] as int == c
    ensures Char64(c) < 0 <==> forall i :: 0 <= i < 64 ==> ALPHABET[i] as int != c
  {
    hide ALPHABET;
    BasisIs(0);
    forall i | 0 <= i < 64 ensures ALPHABET[i] as int == Basis64(i) {
      BasisIs(i);
    }
  }

  function Letter(d: int): (c: byte)
    requires 0 <= d < 64
  {
    BasisIs(d);
    ALPHABET[d] as int
  }

  /** The number that three bytes make. */
  function Number24(c1: int, c2: int, c3: int): (v: int) {
    c1 * 65536 + c2 * 256 + c3
  }

  /**
   * The four digits to the base 64 of the number that up to three bytes make, with zeros for those that are missing, the
   * most significant first; '=' for the digits that no byte has a part in.
   */
  function StandardGroup(b: seq<byte>): (t: seq<byte>)
    requires 1 <= |b| <= 3
    ensures |t| == 4
  {
    var v := Number24(b[0], if |b| > 1 then b[1] else 0, if |b| > 2 then b[2] else 0);
    [Letter(v / 262144 % 64), Letter(v / 4096 % 64),
     if |b| > 1 then Letter(v / 64 % 64) else 61, if |b| > 2 then Letter(v % 64) else 61]
  }

  /** Section 6.8 of RFC 2045, on one line. */
  function Standard(b: seq<byte>): (t: seq<byte>)
    decreases |b|
  {
    if b == [] then [] else StandardGroup(if |b| <= 3 then b else b[..3]) + Standard(if |b| <= 3 then [] else b[3..])
  }

  /** A text with its line breaks taken out. */
  function Unbroken(t: seq<byte>): (u: seq<byte>) {
    if t == [] then [] else (if t[0] == 10 then [] else [t[0]]) + Unbroken(t[1..])
  }

  // ----- Encoding -----

  /** `output64chunk`: the four characters for one to three bytes. */
  function Chunk(c1: byte, c2: byte, c3: byte, pads: nat): (t: seq<byte>)
    ensures |t| == 4
  {
    [Basis64(c1 / 4), Basis64(c1 % 4 * 16 + c2 / 16)] +
    if pads == 2 then [PAD, PAD]
    else if pads != 0 then [Basis64(c2 % 16 * 4 + c3 / 64), PAD]
    else [Basis64(c2 % 16 * 4 + c3 / 64), Basis64(c3 % 64)]
  }

  /** The chunk for the next bytes of `b`. */
  function FirstChunk(b: seq<byte>): (t: seq<byte>)
    requires b != []
    ensures |t| == 4
  {
    if |b| == 1 then Chunk(b[0], 0, 0, 2)
    else if |b| == 2 then Chunk(b[0], b[1], 0, 1)
    else Chunk(b[0], b[1], b[2], 0)
  }

  function Rest(b: seq<byte>): (r: seq<byte>)
    requires b != []
    ensures |r| < |b|
  {
    if |b| <= 3 then [] else b[3..]
  }

  /** The encoding of `b` with `ct` characters on the current line. */
  function Encode(b: seq<byte>, ct: nat): (t: seq<byte>)
    decreases |b|
  {
    if b == [] then (if ct != 0 then [LF] else [])
    else if ct + 4 > 71 then FirstChunk(b) + [LF] + Encode(Rest(b), 0)
    else FirstChunk(b) + Encode(Rest(b), ct + 4)
  }

  /** What the encoder reads of a file in portable mode: CR LF for each line break. */
  function Expand(s: seq<byte>): (e: seq<byte>) {
    if s == [] then []
    else if s[0] == LF then [CR, LF] + Expand(s[1..])
    else [s[0]] + Expand(s[1..])
  }

  function Read(s: seq<byte>, portable: bool): (e: seq<byte>) {
    if portable then Expand(s) else s
  }

  /** An input file with the static variable of `nextcharin`. */
  class Reader {
    const input: seq<byte>
    const portable: bool
    var at: nat
    var inNewline: bool

    constructor (input: seq<byte>, portable: bool)
      ensures Valid() && Left() == Read(input, portable) && this.portable == portable
    {
      this.input, this.portable := input, portable;
      at, inNewline := 0, false;
      new;
      assert input[0..] == input;
    }

    ghost predicate Valid()
      reads this
    {
      at <= |input| && (inNewline ==> portable)
    }

    /** What is still to be read. */
    ghost function Left(): (e: seq<byte>)
      requires Valid()
      reads this
    {
      (if inNewline then [LF] else []) + Read(input[at..], portable)
    }

    /** `nextcharin`: fakes a line break into two characters. */
    method NextCharIn() returns (c: int)
      requires Valid()
      modifies this
      ensures Valid()
      ensures if old(Left()) == [] then c == EOF && Left() == []
              else c == old(Left())[0] && Left() == old(Left())[1..]
    {
      if !portable {
        if at < |input| {
          c := input[at];
          at := at + 1;
        } else {
          c := EOF;
        }
        return;
      }
      if inNewline {
        inNewline := false;
        return 10;
      }
      if at == |input| {
        return EOF;
      }
      ghost var s := input[at..];
      c := input[at];
      at := at + 1;
      assert s[1..] == input[at..];
      if c == LF {
        inNewline := true;
        return 13;
      }
    }
  }

  lemma EncodeStep(b: seq<byte>, ct: nat)
    ensures b == [] ==> Encode(b, ct) == if ct != 0 then [LF] else []
    ensures b != [] ==>
              Encode(b, ct) == if ct + 4 > 71 then FirstChunk(b) + [LF] + Encode(Rest(b), 0)
                               else FirstChunk(b) + Encode(Rest(b), ct + 4)
  {
  }

  /** What is written next is the front of what is still to be written. */
  lemma WriteNext(done: seq<byte>, b: seq<byte>, ct: nat)
    ensures b == [] ==> done + Encode(b, ct) == if ct != 0 then done + [LF] else done
    ensures b != [] ==>
              done + Encode(b, ct) == if ct + 4 > 71 then (done + FirstChunk(b) + [LF]) + Encode(Rest(b), 0)
                                      else (done + FirstChunk(b)) + Encode(Rest(b), ct + 4)
  {
    hide Encode, FirstChunk;
    EncodeStep(b, ct);
  }

  lemma FourDigits(d1: int, d2: int, d3: int, d4: int)
    requires 0 <= d1 < 64 && 0 <= d2 < 64 && 0 <= d3 < 64 && 0 <= d4 < 64
    ensures var v := d1 * 262144 + d2 * 4096 + d3 * 64 + d4;
            v / 262144 % 64 == d1 && v / 4096 % 64 == d2 && v / 64 % 64 == d3 && v % 64 == d4
  {
    var v := d1 * 262144 + d2 * 4096 + d3 * 64 + d4;
    assert v / 64 == d1 * 4096 + d2 * 64 + d3;
    assert v / 4096 == d1 * 64 + d2;
  }

  lemma Digits(c1: byte, c2: byte, c3: byte)
    ensures var v := Number24(c1, c2, c3);
            && v / 262144 % 64 == c1 / 4 && v / 4096 % 64 == c1 % 4 * 16 + c2 / 16
            && v / 64 % 64 == c2 % 16 * 4 + c3 / 64 && v % 64 == c3 % 64
  {
    var a: int, x: int := c1 / 4, c1 % 4;
    var y: int, z: int := c2 / 16, c2 % 16;
    var w: int, u: int := c3 / 64, c3 % 64;
    FourDigits(a, x * 16 + y, z * 4 + w, u);
    assert c1 == 4 * a + x && c2 == 16 * y + z && c3 == 64 * w + u;
  }

  lemma LettersAreBasis()
    ensures forall d :: 0 <= d < 64 ==> Letter(d) == Basis64(d) && Basis64(d) != LF
  {
    forall d | 0 <= d < 64 ensures Letter(d) == Basis64(d) && Basis64(d) != LF {
      BasisIs(d);
      AlphabetRoundTrip(d);
    }
  }

  /** `output64chunk` writes the standard group. */
  lemma FirstChunkStandard(b: seq<byte>)
    requires b != []
    ensures FirstChunk(b) == StandardGroup(if |b| <= 3 then b else b[..3]) && LF !in FirstChunk(b)
  {
    LettersAreBasis();
    hide Basis64, Letter, Number24;
    Digits(b[0], if |b| > 1 then b[1] else 0, if |b| > 2 then b[2] else 0);
  }

  lemma {:induction false} UnbrokenConcat(a: seq<byte>, b: seq<byte>)
    ensures Unbroken(a + b) == Unbroken(a) + Unbroken(b)
    decreases |a|
  {
    if a == [] {
      assert a + b == b;
    } else {
      UnbrokenConcat(a[1..], b);
      assert (a + b)[1..] == a[1..] + b;
    }
  }

  lemma {:induction false} UnbrokenAll(a: seq<byte>)
    requires LF !in a
    ensures Unbroken(a) == a
  {
    if a != [] {
      UnbrokenAll(a[1..]);
    }
  }

  lemma UnbrokenBreak()
    ensures Unbroken([LF]) == [] && Unbroken([]) == []
  {
    assert [LF][1..] == [];
  }

  /** Apart from its line breaks the encoding is that of the standard. */
  lemma {:induction false} EncodeIsStandard(b: seq<byte>, ct: nat)
    ensures Unbroken(Encode(b, ct)) == Standard(b)
    decreases |b|
  {
    hide Encode, FirstChunk, StandardGroup, Unbroken;
    EncodeStep(b, ct);
    UnbrokenBreak();
    if b != [] {
      var chunk, ct' := FirstChunk(b), if ct + 4 > 71 then 0 else ct + 4;
      var rest := Encode(Rest(b), ct');
      EncodeIsStandard(Rest(b), ct');
      FirstChunkStandard(b);
      UnbrokenAll(chunk);
      UnbrokenConcat(chunk, rest);
      UnbrokenConcat(chunk, [LF]);
      UnbrokenConcat(chunk + [LF], rest);
      assert Unbroken(chunk) + [] == chunk;
    }
  }

  /** `to64`. */
  method To64(input: seq<byte>, portable: bool) returns (output: seq<byte>)
    ensures output == Encode(Read(input, portable), 0)
    ensures Unbroken(output) == Standard(Read(input, portable))
  {
    hide Encode, FirstChunk, Read, Chunk, Unbroken, Standard;
    EncodeIsStandard(Read(input, portable), 0);
    output := [];
    var ct := 0;
    var infile := new Reader(input, portable);
    ghost var all := infile.Left();
    var c1 := infile.NextCharIn();
    ghost var left := all;
    while c1 != EOF
      invariant infile.Valid() && fresh(infile) && ct >= 0
      invariant if left == [] then c1 == EOF else c1 == left[0] && infile.Left() == left[1..]
      invariant output + Encode(left, ct) == Encode(all, 0)
      decreases |left|
    {
      WriteNext(output, left, ct);
      ghost var next := Rest(left);
      var chunk;
      var c2 := infile.NextCharIn();
      if c2 == EOF {
        chunk := Chunk(c1, 0, 0, 2);
      } else {
        var c3 := infile.NextCharIn();
        if c3 == EOF {
          chunk := Chunk(c1, c2, 0, 1);
        } else {
          chunk := Chunk(c1, c2, c3, 0);
        }
      }
      FirstChunkIs(left, chunk);
      output := output + chunk;
      ct := ct + 4;
      if ct > 71 {
        output := output + [LF];
        ct := 0;
      }
      left := next;
      c1 := infile.NextCharIn();
    }
    WriteNext(output, left, ct);
    if ct != 0 {
      output := output + [LF];
    }
  }

  lemma FirstChunkIs(b: seq<byte>, chunk: seq<byte>)
    requires b != []
    requires chunk == if |b| == 1 then Chunk(b[0], 0, 0, 2)
                      else if |b| == 2 then Chunk(b[0], b[1], 0, 1)
                      else Chunk(b[0], b[1], b[2], 0)
    ensures chunk == FirstChunk(b)
  {
  }

  // ----- Decoding -----

  /** The characters of `t` that are not white space. */
  function Significant(t: seq<byte>): (u: seq<byte>) {
    if t == [] then []
    else if IsSpace(t[0]) then Significant(t[1..])
    else [t[0]] + Significant(t[1..])
  }

  /** The arguments of the first, second and third `almostputc` for one group. */
  function Out1(c1: int, c2: int): int
    requires -1 <= c1 < 64 && -1 <= c2 < 64
  {
    c1 * 4 + c2 % 64 / 16
  }

  function Out2(c2: int, c3: int): int
    requires -1 <= c2 < 64 && -1 <= c3 < 64
  {
    c2 % 16 * 16 + c3 % 64 / 4
  }

  function Out3(c3: int, c4: int): int
    requires -1 <= c3 < 64 && -1 <= c4 < 64
  {
    if c4 == -1 then -1 else c3 % 4 * 64 + c4
  }

  /** What one group of four characters puts out. */
  function Group(a: byte, b: byte, c: byte, d: byte): (vals: seq<int>)
  {
    if a == PAD || b == PAD then []
    else if c == PAD then [Out1(Char64(a), Char64(b))]
    else if d == PAD then [Out1(Char64(a), Char64(b)), Out2(Char64(b), Char64(c))]
    else [Out1(Char64(a), Char64(b)), Out2(Char64(b), Char64(c)), Out3(Char64(c), Char64(d))]
  }

  predicate Last(a: byte, b: byte, c: byte, d: byte) {
    a == PAD || b == PAD || c == PAD || d == PAD
  }

  /** All that is put out for the significant characters `u`, and whether they end where a group does. */
  function Groups(u: seq<byte>): (r: (seq<int>, bool)) {
    if u == [] then ([], true)
    else if |u| < 4 then ([], false)
    else
      var g := Group(u[0], u[1], u[2], u[3]);
      if Last(u[0], u[1], u[2], u[3]) then (g, true)
      else
        var r := Groups(u[4..]);
        (g + r.0, r.1)
  }

  /** An output file with the static variable `CRpending`. */
  datatype Sink = Sink(out: seq<byte>, crPending: bool)

  /** `almostputc`; `putc` writes the low byte. */
  function AlmostPutc(k: Sink, c: int, portable: bool): (r: Sink) {
    if k.crPending then
      if c == 10 then Sink(k.out + [LF], false)
      else if c != 13 then Sink(k.out + [CR, c % 256], false)
      else Sink(k.out + [CR], true)
    else if portable && c == 13 then Sink(k.out, true)
    else Sink(k.out + [c % 256], false)
  }

  function Feed(k: Sink, vals: seq<int>, portable: bool): (r: Sink)
    decreases |vals|
  {
    if vals == [] then k else Feed(AlmostPutc(k, vals[0], portable), vals[1..], portable)
  }

  /** A pending CR is written at the end of the data, but not at a premature end. */
  function Close(k: Sink, complete: bool): (out: seq<byte>) {
    if complete && k.crPending then k.out + [CR] else k.out
  }

  /** What `from64` makes of a file. */
  function Decode(t: seq<byte>, portable: bool): (s: seq<byte>) {
    var r := Groups(Significant(t));
    Close(Feed(Sink([], false), r.0, portable), r.1)
  }

  /** `do c = getc (infile); while (c != EOF && isspace (c));` */
  method GetSignificant(input: seq<byte>, start: nat) returns (c: int, at: nat)
    requires start <= |input|
    ensures start <= at <= |input|
    ensures if c == EOF then Significant(input[start..]) == [] && at == |input|
            else 0 <= c < 256 && !IsSpace(c) && start < at && Significant(input[start..]) == [c] + Significant(input[at..])
  {
    at := start;
    while at < |input| && IsSpace(input[at])
      invariant start <= at <= |input|
      invariant Significant(input[start..]) == Significant(input[at..])
    {
      assert input[at..][1..] == input[at + 1..];
      at := at + 1;
    }
    if at == |input| {
      return EOF, at;
    }
    assert input[at..][1..] == input[at + 1..];
    c := input[at];
    at := at + 1;
  }

  lemma GroupsStep(u: seq<byte>)
    requires |u| >= 4
    ensures var g := Group(u[0], u[1], u[2], u[3]);
            Groups(u) == if Last(u[0], u[1], u[2], u[3]) then (g, true) else (g + Groups(u[4..]).0, Groups(u[4..]).1)
  {
  }

  lemma {:induction false} FeedConcat(k: Sink, a: seq<int>, b: seq<int>, portable: bool)
    ensures Feed(k, a + b, portable) == Feed(Feed(k, a, portable), b, portable)
    decreases |a|
  {
    if a == [] {
      assert a + b == b;
    } else {
      FeedConcat(AlmostPutc(k, a[0], portable), a[1..], b, portable);
      assert (a + b)[1..] == a[1..] + b;
    }
  }

  lemma FeedOneMore(k: Sink, a: seq<int>, x: int, portable: bool)
    ensures Feed(k, a + [x], portable) == AlmostPutc(Feed(k, a, portable), x, portable)
  {
    FeedConcat(k, a, [x], portable);
  }

  /** The one to three `almostputc` calls for a group that has data. */
  method PutGroup(k: Sink, a: byte, b: byte, c: byte, d: byte, portable: bool) returns (r: Sink)
    requires a != PAD && b != PAD
    ensures r == Feed(k, Group(a, b, c, d), portable)
  {
    hide AlmostPutc, Out1, Out2, Out3, Char64;
    var c1, c2 := Char64(a), Char64(b);
    ghost var vals := [Out1(c1, c2)];
    r := AlmostPutc(k, Out1(c1, c2), portable);
    if c != PAD {
      var c3 := Char64(c);
      FeedOneMore(k, vals, Out2(c2, c3), portable);
      vals := vals + [Out2(c2, c3)];
      r := AlmostPutc(r, Out2(c2, c3), portable);
      if d != PAD {
        var c4 := Char64(d);
        FeedOneMore(k, vals, Out3(c3, c4), portable);
        r := AlmostPutc(r, Out3(c3, c4), portable);
      }
    }
  }

  /** `from64`; after the padding it reads on to the end of the file without looking. */
  method From64(input: seq<byte>, portable: bool) returns (output: seq<byte>)
    ensures output == Decode(input, portable)
  {
    hide Group, Last, Groups, Feed, AlmostPutc, Significant;
    var sink := Sink([], false);
    var dataDone := false;
    var at := 0;
    assert input[0..] == input;
    ghost var want := Groups(Significant(input));
    while true
      invariant 0 <= at <= |input|
      invariant var r := if dataDone then ([], true) else Groups(Significant(input[at..]));
                Feed(sink, r.0, portable) == Feed(Sink([], false), want.0, portable) && r.1 == want.1
      decreases |input| - at
    {
      ghost var u := Significant(input[at..]);
      var c1, c2, c3, c4;
      c1, at := GetSignificant(input, at);
      if c1 == EOF {
        break;
      }
      if dataDone {
        continue;
      }
      c2, at := GetSignificant(input, at);
      c3, at := GetSignificant(input, at);
      c4, at := GetSignificant(input, at);
      if c2 == EOF || c3 == EOF || c4 == EOF {
        PrematureEnd(u);
        FeedNothing(sink, portable);
        return sink.out;
      }
      FourMore(u, c1, c2, c3, c4, Significant(input[at..]));
      FeedConcat(sink, Group(c1, c2, c3, c4), Groups(Significant(input[at..])).0, portable);
      if c1 == PAD || c2 == PAD {
        dataDone := true;
        PadGroup(c1, c2, c3, c4);
        continue;
      }
      sink := PutGroup(sink, c1, c2, c3, c4, portable);
      FeedNothing(sink, portable);
      PadGroup(c1, c2, c3, c4);
      if c3 == PAD || c4 == PAD {
        dataDone := true;
      }
    }
    EmptyGroups();
    FeedNothing(sink, portable);
    output := sink.out;
    if sink.crPending {
      output := output + [CR];
    }
  }

  lemma EmptyGroups()
    ensures Groups([]) == ([], true)
  {
  }

  lemma FeedNothing(k: Sink, portable: bool)
    ensures Feed(k, [], portable) == k
  {
  }

  lemma PrematureEnd(u: seq<byte>)
    ensures 0 < |u| < 4 ==> Groups(u) == ([], false)
  {
  }

  lemma FourMore(u: seq<byte>, c1: byte, c2: byte, c3: byte, c4: byte, rest: seq<byte>)
    requires u == [c1] + ([c2] + ([c3] + ([c4] + rest)))
    ensures Groups(u) == if Last(c1, c2, c3, c4) then (Group(c1, c2, c3, c4), true)
                         else (Group(c1, c2, c3, c4) + Groups(rest).0, Groups(rest).1)
  {
    assert u[4..] == rest && u[0] == c1 && u[1] == c2 && u[2] == c3 && u[3] == c4;
    GroupsStep(u);
  }

  lemma PadGroup(a: byte, b: byte, c: byte, d: byte)
    ensures Last(a, b, c, d) <==> a == PAD || b == PAD || c == PAD || d == PAD
    ensures a == PAD || b == PAD ==> Group(a, b, c, d) == []
  {
  }
}
