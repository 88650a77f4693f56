/**
 * What lib-src/getopt.c makes of an argument vector, said without its state: which options a
 * whole run of calls returns, and where every element of the vector ends up.
 */
module GetOptSpec {
  import opened Options

  datatype Ordering = RequireOrder | Permute | ReturnInOrder

  /** An option character as it is returned, where `char` has eight bits and a sign. */
  function CodeOf(c: char): (code: int)
    ensures -128 <= code < 128 && (c as int - code) % 256 == 0
  {
    var b := c as int % 256;
    if b < 128 then b else b - 256
  }

  /** No character is returned as -1. */
  ghost predicate Audible(optstring: string) {
    forall c :: c in optstring ==> CodeOf(c) != -1
  }

  /** How an option string treats one option character. */
  datatype Kind = Unknown | Flag | RequiredArg | OptionalArg

  /** What one call returns: the code, `optarg`, and the character reported in `optopt` if there is one. */
  datatype Event = Event(code: int, optarg: Option<string>, culprit: Option<char>)

  /** An element that is not an option: it does not start with '-', or it is "-" alone. */
  predicate NonOption(e: string) {
    |e| == 0 || e[0] != '-' || |e| == 1
  }

  /** Place of the first `c` in `s`, or -1. */
  function IndexOf(s: string, c: char): (i: int)
    ensures -1 <= i < |s|
    ensures i >= 0 ==> s[i] == c && c !in s[..i]
    ensures i < 0 ==> c !in s
  {
    if s == "" then -1
    else if s[0] == c then 0
    else
      var k := IndexOf(s[1..], c);
      if k < 0 then -1
      else
        assert s[..k + 1] == [s[0]] + s[1..][..k];
        k + 1
  }

  predicate CharAt(s: string, i: int, c: char) {
    0 <= i < |s| && s[i] == c
  }

  function KindOf(optstring: string, c: char): Kind {
    var i := IndexOf(optstring, c);
    if i < 0 || c == ':' then Unknown
    else if !CharAt(optstring, i + 1, ':') then Flag
    else if CharAt(optstring, i + 2, ':') then OptionalArg
    else RequiredArg
  }

  function MissingCode(optstring: string): int {
    if CharAt(optstring, 0, ':') then ':' as int else '?' as int
  }

  /** What one option character does: its event, and then the next one in `text`, or `used` elements further. */
  datatype Turn = Turn(event: Event, more: bool, used: nat)

  function TakeChar(text: string, optstring: string, following: Option<string>): (t: Turn)
    requires text != ""
    ensures 1 <= t.used <= 2 && (t.used == 2 ==> following.Some?) && (t.more ==> |text| > 1)
  {
    var c, tail := text[0], text[1..];
    match KindOf(optstring, c)
    case Unknown => Turn(Event('?' as int, None, Some(c)), tail != "", 1)
    case Flag => Turn(Event(CodeOf(c), None, None), tail != "", 1)
    case OptionalArg => Turn(Event(CodeOf(c), if tail == "" then None else Some(tail), None), false, 1)
    case RequiredArg =>
      if tail != "" then Turn(Event(CodeOf(c), Some(tail), None), false, 1)
      else if following.Some? then Turn(Event(CodeOf(c), following, None), false, 2)
      else Turn(Event(MissingCode(optstring), None, Some(c)), false, 1)
  }

  /** The option characters `text` of one element, and whether the last of them takes the following element. */
  function ScanChars(text: string, optstring: string, following: Option<string>): (r: (seq<Event>, bool))
    ensures text != "" ==> r.0 != []
    ensures r.1 ==> following.Some?
  {
    if text == "" then ([], false)
    else
      var t := TakeChar(text, optstring, following);
      if t.more then
        var r := ScanChars(text[1..], optstring, following);
        ([t.event] + r.0, r.1)
      else ([t.event], t.used == 2)
  }

  /** What follows an option element that ends the text of `args[0]`. */
  function Following(args: seq<string>): Option<string> {
    if |args| > 1 then Some(args[1]) else None
  }

  /** How many elements the option element `args[0]` uses up when `text` of it is still to be scanned. */
  function Used(text: string, args: seq<string>, optstring: string): (k: nat)
    requires |args| > 0
    ensures 1 <= k <= 2 && k <= |args|
  {
    if ScanChars(text, optstring, Following(args)).1 then 2 else 1
  }

  /** A whole run: the events, the elements that end in front and those that end behind them. */
  datatype Parse = Parse(events: seq<Event>, opts: seq<string>, rest: seq<string>)

  function ParseRun(o: Ordering, args: seq<string>, optstring: string): Parse
    decreases |args|
  {
    if args == [] then Parse([], [], [])
    else if args[0] == "--" then Parse([], ["--"], args[1..])
    else if NonOption(args[0]) then
      match o
      case RequireOrder => Parse([], [], args)
      case Permute =>
        var p := ParseRun(o, args[1..], optstring);
        Parse(p.events, p.opts, [args[0]] + p.rest)
      case ReturnInOrder =>
        var p := ParseRun(o, args[1..], optstring);
        Parse([Event(1, Some(args[0]), None)] + p.events, [args[0]] + p.opts, p.rest)
    else
      Continue(o, args[0][1..], args, optstring)
  }

  /** The run from inside the option element `args[0]`, with `text` of it still to be scanned. */
  function Continue(o: Ordering, text: string, args: seq<string>, optstring: string): Parse
    requires |args| > 0
    decreases |args|, 0
  {
    var k := Used(text, args, optstring);
    var p := ParseRun(o, args[k..], optstring);
    Parse(ScanChars(text, optstring, Following(args)).0 + p.events, args[..k] + p.opts, p.rest)
  }

  // ----- Runs whose first call sees another option string -----

  /** What a first call makes of the option string: the ordering it selects. */
  function OrderingOf(optstring: string, posixly: bool): (o: Ordering)
    ensures o.ReturnInOrder? <==> "-" <= optstring
    ensures o.Permute? <==> !posixly && !("-" <= optstring) && !("+" <= optstring)
  {
    if CharAt(optstring, 0, '-') then ReturnInOrder
    else if CharAt(optstring, 0, '+') || posixly then RequireOrder
    else Permute
  }

  /** What a first call leaves of the option string. */
  function Stripped(optstring: string): string {
    if CharAt(optstring, 0, '-') || CharAt(optstring, 0, '+') then optstring[1..] else optstring
  }

  /** A run whose first event is scanned with `optstring` and all others with `later`. */
  function RunThen(o: Ordering, args: seq<string>, optstring: string, later: string): Parse
    decreases |args|
  {
    if args == [] then Parse([], [], [])
    else if args[0] == "--" then Parse([], ["--"], args[1..])
    else if NonOption(args[0]) then
      match o
      case RequireOrder => Parse([], [], args)
      case Permute =>
        var p := RunThen(o, args[1..], optstring, later);
        Parse(p.events, p.opts, [args[0]] + p.rest)
      case ReturnInOrder =>
        var p := ParseRun(o, args[1..], later);
        Parse([Event(1, Some(args[0]), None)] + p.events, [args[0]] + p.opts, p.rest)
    else
      ContinueThen(o, args[0][1..], args, optstring, later)
  }

  function ContinueThen(o: Ordering, text: string, args: seq<string>, optstring: string, later: string): Parse
    requires args != [] && text != ""
  {
    var t := TakeChar(text, optstring, Following(args));
    if t.more then
      var p := Continue(o, text[1..], args, later);
      Parse([t.event] + p.events, p.opts, p.rest)
    else
      var p := ParseRun(o, args[t.used..], later);
      Parse([t.event] + p.events, args[..t.used] + p.opts, p.rest)
  }

  /** The whole text, one character unfolded. */
  lemma ScanStep(text: string, optstring: string, following: Option<string>)
    requires text != ""
    ensures var t := TakeChar(text, optstring, following);
            var r := ScanChars(text[1..], optstring, following);
            ScanChars(text, optstring, following) ==
            if t.more then ([t.event] + r.0, r.1) else ([t.event], t.used == 2)
  {
  }

  lemma ContinueThenSame(o: Ordering, text: string, args: seq<string>, optstring: string)
    requires args != [] && text != ""
    ensures ContinueThen(o, text, args, optstring, optstring) == Continue(o, text, args, optstring)
  {
    hide ScanChars, TakeChar, ParseRun;
    ScanStep(text, optstring, Following(args));
  }

  /** With one option string throughout it is a run like any other. */
  lemma {:induction false} RunThenSame(o: Ordering, args: seq<string>, optstring: string)
    ensures RunThen(o, args, optstring, optstring) == ParseRun(o, args, optstring)
  {
    if args != [] && args[0] != "--" {
      if NonOption(args[0]) {
        RunThenSame(o, args[1..], optstring);
      } else {
        ContinueThenSame(o, args[0][1..], args, optstring);
      }
    }
  }

  /** The run stopped at an option whose argument is missing: it is the last thing in the vector. */
  function MissingAtEnd(o: Ordering, args: seq<string>, optstring: string): (missing: bool)
    decreases |args|
  {
    if args == [] || args[0] == "--" then false
    else if NonOption(args[0]) then !o.RequireOrder? && MissingAtEnd(o, args[1..], optstring)
    else if |args| == 1 then EndsWanting(args[0][1..], optstring)
    else MissingAtEnd(o, args[Used(args[0][1..], args, optstring)..], optstring)
  }

  /** The last option character of `text` requires an argument and `text` has none for it. */
  function EndsWanting(text: string, optstring: string): (w: bool)
    ensures w ==> text != ""
  {
    if text == "" then false
    else
      match KindOf(optstring, text[0])
      case Unknown => EndsWanting(text[1..], optstring)
      case Flag => EndsWanting(text[1..], optstring)
      case OptionalArg => false
      case RequiredArg => |text| == 1
  }

  // ----- The partition is stable -----

  /** `args` is `opts` and `rest` dealt together, each in its own order. */
  ghost predicate Interleaves(args: seq<string>, opts: seq<string>, rest: seq<string>)
    decreases |args|
  {
    if args == [] then opts == [] && rest == []
    else
      || (opts != [] && opts[0] == args[0] && Interleaves(args[1..], opts[1..], rest))
      || (rest != [] && rest[0] == args[0] && Interleaves(args[1..], opts, rest[1..]))
  }

  lemma {:induction false} InterleavesRest(args: seq<string>)
    ensures Interleaves(args, [], args)
  {
    if args != [] {
      InterleavesRest(args[1..]);
    }
  }

  lemma InterleavesFront(front: seq<string>, args: seq<string>, opts: seq<string>, rest: seq<string>)
    requires Interleaves(args, opts, rest)
    ensures Interleaves(front + args, front + opts, rest)
  {
    if front == [] {
      assert front + args == args && front + opts == opts;
    } else {
      InterleavesFront(front[1..], args, opts, rest);
      assert (front + args)[1..] == front[1..] + args;
      assert (front + opts)[1..] == front[1..] + opts;
    }
  }

  /** A run loses no element, adds none, and keeps the order inside the options and inside the rest. */
  lemma {:induction false} StablePartition(o: Ordering, args: seq<string>, optstring: string)
    ensures Interleaves(args, ParseRun(o, args, optstring).opts, ParseRun(o, args, optstring).rest)
    decreases |args|
  {
    var p := ParseRun(o, args, optstring);
    if args == [] {
    } else if args[0] == "--" {
      InterleavesRest(args[1..]);
    } else if NonOption(args[0]) {
      if o.RequireOrder? {
        InterleavesRest(args);
      } else {
        StablePartition(o, args[1..], optstring);
        assert o.Permute? ==> p.rest[1..] == ParseRun(o, args[1..], optstring).rest;
        assert o.ReturnInOrder? ==> p.opts[1..] == ParseRun(o, args[1..], optstring).opts;
      }
    } else {
      var k := Used(args[0][1..], args, optstring);
      StablePartition(o, args[k..], optstring);
      var q := ParseRun(o, args[k..], optstring);
      InterleavesFront(args[..k], args[k..], q.opts, q.rest);
      assert args[..k] + args[k..] == args;
    }
  }

  lemma {:induction false} StablePartitionThen(o: Ordering, args: seq<string>, optstring: string, later: string)
    ensures var p := RunThen(o, args, optstring, later); Interleaves(args, p.opts, p.rest)
    decreases |args|
  {
    hide ParseRun, TakeChar, Used;
    var p := RunThen(o, args, optstring, later);
    if args == [] {
    } else if args[0] == "--" {
      InterleavesRest(args[1..]);
    } else if NonOption(args[0]) {
      match o
      case RequireOrder => InterleavesRest(args);
      case Permute =>
        StablePartitionThen(o, args[1..], optstring, later);
        assert p.rest[1..] == RunThen(o, args[1..], optstring, later).rest;
      case ReturnInOrder =>
        StablePartition(o, args[1..], later);
        assert p.opts[1..] == ParseRun(o, args[1..], later).opts;
    } else {
      var text := args[0][1..];
      var t := TakeChar(text, optstring, Following(args));
      var k := if t.more then Used(text[1..], args, later) else t.used;
      var q := ParseRun(o, args[k..], later);
      StablePartition(o, args[k..], later);
      InterleavesFront(args[..k], args[k..], q.opts, q.rest);
      assert args[..k] + args[k..] == args;
    }
  }

  /** Without permuting, every element stays in its place. */
  lemma {:induction false} Unpermuted(o: Ordering, args: seq<string>, optstring: string)
    requires !o.Permute?
    ensures var p := ParseRun(o, args, optstring); p.opts + p.rest == args
    decreases |args|
  {
    hide Used, ScanChars;
    if args == [] {
    } else if args[0] == "--" {
      assert ["--"] + args[1..] == args;
    } else if !NonOption(args[0]) {
      var k := Used(args[0][1..], args, optstring);
      Unpermuted(o, args[k..], optstring);
      Regroup(args, k, ParseRun(o, args[k..], optstring));
    } else if o.ReturnInOrder? {
      Unpermuted(o, args[1..], optstring);
      Regroup(args, 1, ParseRun(o, args[1..], optstring));
    }
  }

  lemma Regroup(args: seq<string>, k: nat, q: Parse)
    requires k <= |args| && q.opts + q.rest == args[k..]
    ensures args[..k] + q.opts + q.rest == args
    ensures k == 1 ==> [args[0]] + q.opts + q.rest == args
  {
    assert args[..k] + q.opts + q.rest == args[..k] + (q.opts + q.rest);
    assert k == 1 ==> args[..k] == [args[0]];
  }

  lemma UnpermutedThen(o: Ordering, args: seq<string>, optstring: string, later: string)
    requires !o.Permute?
    ensures var p := RunThen(o, args, optstring, later); p.opts + p.rest == args
  {
    hide TakeChar, Used, ScanChars, ParseRun;
    if args == [] {
    } else if args[0] == "--" {
      assert ["--"] + args[1..] == args;
    } else if !NonOption(args[0]) {
      var text := args[0][1..];
      var t := TakeChar(text, optstring, Following(args));
      var k := if t.more then Used(text[1..], args, later) else t.used;
      Unpermuted(o, args[k..], later);
      Regroup(args, k, ParseRun(o, args[k..], later));
    } else if o.ReturnInOrder? {
      Unpermuted(o, args[1..], later);
      Regroup(args, 1, ParseRun(o, args[1..], later));
    }
  }

  // ----- Parsing the permuted vector again -----

  /** What a scan makes of an element depends on the next one only if it takes it. */
  lemma {:induction false} ScanIgnoresNext(text: string, optstring: string, f: Option<string>, g: Option<string>)
    requires !ScanChars(text, optstring, f).1
    requires f.Some? || !EndsWanting(text, optstring) || g == f
    ensures ScanChars(text, optstring, g) == ScanChars(text, optstring, f)
  {
    if text != "" && (KindOf(optstring, text[0]).Unknown? || KindOf(optstring, text[0]).Flag?) {
      ScanIgnoresNext(text[1..], optstring, f, g);
    }
  }

  lemma {:induction false} WantingScan(text: string, optstring: string, f: Option<string>)
    ensures ScanChars(text, optstring, f).1 <==> EndsWanting(text, optstring) && f.Some?
    ensures EndsWanting(text, optstring) ==>
              var evs := ScanChars(text, optstring, f).0;
              evs[|evs| - 1].optarg == f
    ensures |ScanChars(text, optstring, f).0| == |ScanChars(text, optstring, None).0|
  {
    if text != "" && (KindOf(optstring, text[0]).Unknown? || KindOf(optstring, text[0]).Flag?) {
      WantingScan(text[1..], optstring, f);
      assert !EndsWanting("", optstring);
    }
  }

  /** A permuting run meets the terminator "--" (and not just as the argument of an option). */
  function Terminated(args: seq<string>, optstring: string): (t: bool)
    decreases |args|
  {
    if args == [] then false
    else if args[0] == "--" then true
    else if NonOption(args[0]) then Terminated(args[1..], optstring)
    else Terminated(args[Used(args[0][1..], args, optstring)..], optstring)
  }

  /** Without a "--", what a permuting run leaves behind starts with a non-option. */
  lemma {:induction false} RestHead(args: seq<string>, optstring: string)
    ensures var rest := ParseRun(Permute, args, optstring).rest;
            rest == [] || NonOption(rest[0]) || Terminated(args, optstring)
    decreases |args|
  {
    if args != [] && args[0] != "--" && !NonOption(args[0]) {
      RestHead(args[Used(args[0][1..], args, optstring)..], optstring);
    }
  }

  /** One option element in front of other elements than the original ones: same events, same use. */
  lemma ScanAgain(args: seq<string>, args': seq<string>, optstring: string)
    requires args != [] && args' != [] && args'[0] == args[0] && !NonOption(args[0])
    requires var k := Used(args[0][1..], args, optstring);
             && k <= |args'| && args'[..k] == args[..k]
             && (|args| == 1 && EndsWanting(args[0][1..], optstring) ==> |args'| == 1)
    ensures Used(args[0][1..], args', optstring) == Used(args[0][1..], args, optstring)
    ensures ScanChars(args[0][1..], optstring, Following(args')) == ScanChars(args[0][1..], optstring, Following(args))
  {
    var text, k := args[0][1..], Used(args[0][1..], args, optstring);
    WantingScan(text, optstring, Following(args));
    if k == 2 {
      assert args'[..2][1] == args[..2][1];
    } else {
      ScanIgnoresNext(text, optstring, Following(args), Following(args'));
    }
  }

  /** The run over an option element, one step unfolded. */
  lemma OptionStep(o: Ordering, args: seq<string>, optstring: string)
    requires args != [] && args[0] != "--" && !NonOption(args[0])
    ensures var text, k := args[0][1..], Used(args[0][1..], args, optstring);
            var q := ParseRun(o, args[k..], optstring);
            ParseRun(o, args, optstring) ==
            Parse(ScanChars(text, optstring, Following(args)).0 + q.events, args[..k] + q.opts, q.rest)
  {
  }

  /** What a caller sees of the events: the code and `optarg` of each call. */
  ghost function Trace(events: seq<Event>): (t: seq<(int, Option<string>)>) {
    seq(|events|, i requires 0 <= i < |events| => (events[i].code, events[i].optarg))
  }

  lemma TraceStep(events: seq<Event>)
    ensures events == [] ==> Trace(events) == []
    ensures events != [] ==> Trace(events) == [(events[0].code, events[0].optarg)] + Trace(events[1..])
  {
  }

  lemma {:induction false} TraceConcat(a: seq<Event>, b: seq<Event>)
    ensures Trace(a + b) == Trace(a) + Trace(b)
  {
  }

  /** An option element in front of `tail` is scanned as in the permuting run it comes from. */
  lemma OptionAgain(args: seq<string>, optstring: string, tail: seq<string>)
    requires args != [] && args[0] != "--" && !NonOption(args[0])
    requires |args| == 1 && EndsWanting(args[0][1..], optstring) ==> tail == []
    ensures var text, k := args[0][1..], Used(args[0][1..], args, optstring);
            var q := ParseRun(Permute, args[k..], optstring);
            var r := ParseRun(RequireOrder, q.opts + tail, optstring);
            ParseRun(RequireOrder, ParseRun(Permute, args, optstring).opts + tail, optstring) ==
            Parse(ScanChars(text, optstring, Following(args)).0 + r.events, args[..k] + r.opts, r.rest)
  {
    var k := Used(args[0][1..], args, optstring);
    OptionStep(Permute, args, optstring);
    var all := ParseRun(Permute, args, optstring).opts + tail;
    assert all[..k] == args[..k];
    assert all[k..] == ParseRun(Permute, args[k..], optstring).opts + tail;
    assert all[0] == args[..k][0] == args[0];
    ScanAgain(args, all, optstring);
    OptionStep(RequireOrder, all, optstring);
  }

  /** The options of a permuting run, put before anything that stops a scan, are scanned as they were. */
  lemma {:induction false} OptionsFirst(args: seq<string>, optstring: string, tail: seq<string>)
    requires tail == [] || NonOption(tail[0]) || Terminated(args, optstring)
    requires tail == [] || !MissingAtEnd(Permute, args, optstring)
    ensures var p := ParseRun(Permute, args, optstring);
            ParseRun(RequireOrder, p.opts + tail, optstring) == Parse(p.events, p.opts, tail)
    decreases |args|
  {
    var p := ParseRun(Permute, args, optstring);
    if args == [] {
      assert p.opts + tail == tail;
    } else if args[0] == "--" {
      assert (p.opts + tail)[1..] == tail;
    } else if NonOption(args[0]) {
      OptionsFirst(args[1..], optstring, tail);
    } else {
      OptionsFirst(args[Used(args[0][1..], args, optstring)..], optstring, tail);
      OptionStep(Permute, args, optstring);
      OptionAgain(args, optstring, tail);
    }
  }

  /** An option left without its argument takes whatever is put behind it, and so is reported otherwise. */
  lemma {:induction false} MissingTakesTail(args: seq<string>, optstring: string, tail: seq<string>)
    requires tail != [] && MissingAtEnd(Permute, args, optstring)
    ensures var p := ParseRun(Permute, args, optstring);
            Trace(ParseRun(RequireOrder, p.opts + tail, optstring).events) != Trace(p.events)
    decreases |args|
  {
    if NonOption(args[0]) {
      MissingTakesTail(args[1..], optstring, tail);
    } else if |args| == 1 {
      MissingLast(args, optstring, tail);
    } else {
      var k := Used(args[0][1..], args, optstring);
      MissingTakesTail(args[k..], optstring, tail);
      OptionStep(Permute, args, optstring);
      OptionAgain(args, optstring, tail);
      var ev, x := ScanChars(args[0][1..], optstring, Following(args)).0, ParseRun(Permute, args[k..], optstring);
      var y := ParseRun(RequireOrder, x.opts + tail, optstring);
      TraceConcat(ev, x.events);
      TraceConcat(ev, y.events);
      assert (Trace(ev) + Trace(x.events))[|ev|..] == Trace(x.events);
      assert (Trace(ev) + Trace(y.events))[|ev|..] == Trace(y.events);
    }
  }

  lemma MissingLast(args: seq<string>, optstring: string, tail: seq<string>)
    requires |args| == 1 && tail != [] && args[0] != "--" && !NonOption(args[0]) && EndsWanting(args[0][1..], optstring)
    ensures var p := ParseRun(Permute, args, optstring);
            Trace(ParseRun(RequireOrder, p.opts + tail, optstring).events) != Trace(p.events)
  {
    var text := args[0][1..];
    OptionStep(Permute, args, optstring);
    var p := ParseRun(Permute, args, optstring);
    var all := p.opts + tail;
    assert p.opts == args && all[0] == args[0] && Following(all) == Some(tail[0]);
    OptionStep(RequireOrder, all, optstring);
    WantingScan(text, optstring, None);
    WantingScan(text, optstring, Some(tail[0]));
    var evs, evs' := ScanChars(text, optstring, None).0, ScanChars(text, optstring, Some(tail[0])).0;
    assert p.events == evs;
    assert Trace(ParseRun(RequireOrder, all, optstring).events)[|evs| - 1].1 == evs'[|evs| - 1].optarg;
    assert Trace(p.events)[|evs| - 1].1 == evs[|evs| - 1].optarg;
  }

  /** A permuting run leaves something behind its options. */
  function SkipsSome(args: seq<string>, optstring: string): (some: bool)
    decreases |args|
  {
    if args == [] then false
    else if args[0] == "--" then |args| > 1
    else NonOption(args[0]) || SkipsSome(args[Used(args[0][1..], args, optstring)..], optstring)
  }

  lemma {:induction false} SkipsSomeIs(args: seq<string>, optstring: string)
    ensures ParseRun(Permute, args, optstring).rest != [] <==> SkipsSome(args, optstring)
    decreases |args|
  {
    if args != [] && args[0] != "--" && !NonOption(args[0]) {
      OptionStep(Permute, args, optstring);
      SkipsSomeIs(args[Used(args[0][1..], args, optstring)..], optstring);
    }
  }

  /**
   * Scanning the permuted vector again, in order and without permuting, gives the same events and
   * the same division, exactly unless the run ended in a missing argument while it had
   * skipped elements: those then lie behind the option that wants one.
   */
  lemma ReparseAgrees(args: seq<string>, optstring: string)
    ensures var p := ParseRun(Permute, args, optstring);
            var again := ParseRun(RequireOrder, p.opts + p.rest, optstring);
            && (again == p <==> !(MissingAtEnd(Permute, args, optstring) && SkipsSome(args, optstring)))
            && (Trace(again.events) == Trace(p.events) <==> again == p)
  {
    var p := ParseRun(Permute, args, optstring);
    SkipsSomeIs(args, optstring);
    if MissingAtEnd(Permute, args, optstring) && p.rest != [] {
      MissingTakesTail(args, optstring, p.rest);
    } else {
      RestHead(args, optstring);
      OptionsFirst(args, optstring, p.rest);
    }
  }

  /** The option of ["x", "-a"] lacks its argument; behind the "-a" that was moved to the front stands "x". */
  lemma ArgumentFound()
    ensures var args := ["x", "-a"]; var p := ParseRun(Permute, args, "a:");
            && MissingAtEnd(Permute, args, "a:") && SkipsSome(args, "a:")
            && p == Parse([Event('?' as int, None, Some('a'))], ["-a"], ["x"])
            && ParseRun(RequireOrder, p.opts + p.rest, "a:") == Parse([Event('a' as int, Some("x"), None)], ["-a", "x"], [])
  {
    var args, swapped := ["x", "-a"], ["-a", "x"];
    assert args[1..] == ["-a"] && ["-a"][1..] == [] && "-a"[1..] == "a" && "a"[1..] == "";
    assert KindOf("a:", 'a') == RequiredArg;
    OptionStep(Permute, ["-a"], "a:");
    OptionStep(RequireOrder, swapped, "a:");
    assert ["-a"][..1] == ["-a"] && swapped[..2] == swapped && swapped[2..] == [];
    assert ["-a"] + ["x"] == swapped;
  }

  // ----- Calls after the end of a run -----

  /** A scan of these elements ends at once. */
  predicate Quiet(o: Ordering, args: seq<string>) {
    || args == [] || args[0] == "--"
    || (NonOption(args[0]) && (o.RequireOrder? || (o.Permute? && Quiet(o, args[1..]))))
  }

  lemma {:induction false} QuietIs(o: Ordering, args: seq<string>, optstring: string, later: string)
    ensures RunThen(o, args, optstring, later).events == [] <==> Quiet(o, args)
  {
    if args != [] && args[0] != "--" && NonOption(args[0]) && o.Permute? {
      QuietIs(o, args[1..], optstring, later);
    }
  }

  /** What lies behind the "--" that ends a permuting run; nothing if none does. */
  function BehindEnd(args: seq<string>, optstring: string): (r: seq<string>)
    decreases |args|
  {
    if args == [] then []
    else if args[0] == "--" then args[1..]
    else if NonOption(args[0]) then BehindEnd(args[1..], optstring)
    else BehindEnd(args[Used(args[0][1..], args, optstring)..], optstring)
  }

  /**
   * After a permuting run `optind` stands at what it left behind its options; one more call ends at once
   * exactly if it would at what lies behind the "--".
   */
  lemma {:induction false} CallAgain(args: seq<string>, optstring: string)
    ensures Quiet(Permute, ParseRun(Permute, args, optstring).rest) <==> Quiet(Permute, BehindEnd(args, optstring))
    decreases |args|
  {
    if args != [] && args[0] != "--" {
      if NonOption(args[0]) {
        CallAgain(args[1..], optstring);
        var rest := ParseRun(Permute, args[1..], optstring).rest;
        assert ([args[0]] + rest)[1..] == rest;
      } else {
        OptionStep(Permute, args, optstring);
        CallAgain(args[Used(args[0][1..], args, optstring)..], optstring);
      }
    }
  }

  /** A call after the end of a run finds the option that a "--" was to hide. */
  lemma TerminatorForgotten()
    ensures var p := ParseRun(Permute, ["x", "--", "-a"], "a");
            p.events == [] && p.opts == ["--"] && p.rest == ["x", "-a"] && !Quiet(Permute, p.rest)
  {
    var args := ["x", "--", "-a"];
    assert args[1..] == ["--", "-a"] && args[1..][1..] == ["-a"];
    assert ["x"] + ["-a"] == ["x", "-a"] && ["x", "-a"][1..] == ["-a"];
  }

  // ----- Events that look like the end -----

  /** How many events a caller's loop lives to see: one with code -1 it takes for the end. */
  function Heard(events: seq<Event>): (n: nat)
    ensures n <= |events|
  {
    if events == [] || events[0].code == -1 then 0 else 1 + Heard(events[1..])
  }

  lemma HeardStep(events: seq<Event>)
    requires events != []
    ensures events[0].code == -1 ==> Heard(events) == 0
    ensures events[0].code != -1 ==>
              var rest := events[1..];
              Heard(events) == 1 + Heard(rest) && events[..Heard(events)] == [events[0]] + rest[..Heard(rest)]
  {
  }

  /** No event is mistaken for the end of the run. */
  ghost predicate Codes(events: seq<Event>) {
    forall i :: 0 <= i < |events| ==> events[i].code != -1
  }

  lemma {:induction false} HeardAll(events: seq<Event>)
    requires Codes(events)
    ensures Heard(events) == |events|
  {
    if events != [] {
      HeardAll(events[1..]);
    }
  }

  lemma TakeCode(text: string, optstring: string, following: Option<string>)
    requires text != "" && Audible(optstring)
    ensures TakeChar(text, optstring, following).event.code != -1
  {
  }

  lemma {:induction false} ScanCodes(text: string, optstring: string, following: Option<string>)
    requires Audible(optstring)
    ensures Codes(ScanChars(text, optstring, following).0)
  {
    hide TakeChar, Audible;
    if text != "" {
      TakeCode(text, optstring, following);
      if TakeChar(text, optstring, following).more {
        ScanCodes(text[1..], optstring, following);
      }
    }
  }

  lemma {:induction false} RunCodes(o: Ordering, args: seq<string>, optstring: string)
    requires Audible(optstring)
    ensures Codes(ParseRun(o, args, optstring).events)
    decreases |args|
  {
    hide Audible, ScanChars, Used;
    if args != [] && args[0] != "--" {
      if NonOption(args[0]) {
        RunCodes(o, args[1..], optstring);
      } else {
        OptionStep(o, args, optstring);
        ScanCodes(args[0][1..], optstring, Following(args));
        RunCodes(o, args[Used(args[0][1..], args, optstring)..], optstring);
      }
    }
  }

  lemma {:induction false} RunThenCodes(o: Ordering, args: seq<string>, optstring: string, later: string)
    requires Audible(optstring) && Audible(later)
    ensures Codes(RunThen(o, args, optstring, later).events)
  {
    hide ScanChars, TakeChar, Audible, Used;
    if args != [] && args[0] != "--" {
      if NonOption(args[0]) {
        if o.Permute? {
          RunThenCodes(o, args[1..], optstring, later);
        } else {
          RunCodes(o, args[1..], later);
        }
      } else {
        var text := args[0][1..];
        TakeCode(text, optstring, Following(args));
        var t := TakeChar(text, optstring, Following(args));
        if t.more {
          var k := Used(text[1..], args, later);
          ScanCodes(text[1..], later, Following(args));
          RunCodes(o, args[k..], later);
        } else {
          RunCodes(o, args[t.used..], later);
        }
      }
    }
  }

  /** Every event of a run is heard if no option character is returned as -1. */
  lemma AllHeard(o: Ordering, args: seq<string>, optstring: string)
    requires Audible(optstring)
    ensures var events := RunThen(o, args, Stripped(optstring), optstring).events;
            Heard(events) == |events| && events[..Heard(events)] == events
  {
    assert forall c :: c in Stripped(optstring) ==> c in optstring;
    RunThenCodes(o, args, Stripped(optstring), optstring);
    HeardAll(RunThen(o, args, Stripped(optstring), optstring).events);
  }

  /** The option character 255: its first use is taken for the end of the run. */
  lemma MuteOption()
    ensures var c := 255 as char;
            var p := RunThen(Permute, [['-', c], "-a"], [c, 'a'], [c, 'a']);
            p.events == [Event(-1, None, None), Event('a' as int, None, None)] && Heard(p.events) == 0
  {
    var c := 255 as char;
    var optstring: string := [c, 'a'];
    var args := [['-', c], "-a"];
    assert args[1..] == ["-a"] && args[0][1..] == [c] && "-a"[1..] == "a" && "a"[1..] == "";
    assert optstring[1..] == "a";
    assert KindOf(optstring, c) == Flag && KindOf(optstring, 'a') == Flag;
    OptionStep(Permute, ["-a"], optstring);
    assert ScanChars("a", optstring, None) == ([Event('a' as int, None, None)], false);
    assert ["-a"][1..] == [];
    assert ParseRun(Permute, [], optstring).events == [];
  }
}
