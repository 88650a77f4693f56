/**
 * What becomes of the '+' or '-' that an option string of lib-src/getopt.c may begin with: the first
 * call takes it off, later calls see it as one more option character.
 */
module GetOptPrefix {
  import opened Options
  import opened GetOptSpec

  // ----- One option character -----

  lemma IndexBehind(prefix: char, s: string, c: char)
    ensures var i := IndexOf(s, c);
            IndexOf([prefix] + s, c) == if c == prefix then 0 else if i < 0 then -1 else i + 1
  {
    assert ([prefix] + s)[1..] == s;
  }

  /** The prefix is the only character that the two option strings treat as different kinds of option. */
  lemma OnlyThePrefix(optstring: string, c: char)
    ensures KindOf(Stripped(optstring), c) != KindOf(optstring, c) ==>
              && optstring != "" && c == optstring[0] && (c == '-' || c == '+')
              && !KindOf(optstring, c).Unknown? && MissingCode(optstring) == '?' as int
    ensures MissingCode(Stripped(optstring)) == '?' as int || MissingCode(Stripped(optstring)) == ':' as int
    ensures MissingCode(Stripped(optstring)) != MissingCode(optstring) ==>
              MissingCode(Stripped(optstring)) == ':' as int && MissingCode(optstring) == '?' as int
  {
    if Stripped(optstring) != optstring {
      assert optstring == [optstring[0]] + Stripped(optstring);
      IndexBehind(optstring[0], Stripped(optstring), c);
    }
  }

  /** At the first character of `text` it can be seen that the prefix is there: by its kind, or by the code for a missing argument. */
  predicate BitesAt(text: string, optstring: string, following: Option<string>)
    requires text != ""
  {
    var s := Stripped(optstring);
    var k, k' := KindOf(s, text[0]), KindOf(optstring, text[0]);
    var missing := |text| == 1 && following.None?;
    if k == k' then k.RequiredArg? && missing && MissingCode(s) != MissingCode(optstring)
    else
      match (k, k')
      case (Flag, OptionalArg) => |text| > 1
      case (OptionalArg, Flag) => |text| > 1
      case (OptionalArg, RequiredArg) => |text| == 1
      case (RequiredArg, OptionalArg) => |text| == 1
      case (Unknown, RequiredArg) => !missing
      case _ => true
  }

  predicate SameTurn(a: Event, b: Event) {
    a.code == b.code && a.optarg == b.optarg
  }

  lemma BiteShows(text: string, optstring: string, following: Option<string>)
    requires text != ""
    ensures var t, t' := TakeChar(text, Stripped(optstring), following), TakeChar(text, optstring, following);
            if BitesAt(text, optstring, following) then !SameTurn(t.event, t'.event) else t == t'
  {
    hide KindOf, MissingCode, Stripped;
    OnlyThePrefix(optstring, text[0]);
  }

  // ----- The text of one element -----

  /** Somewhere in the rest of an element it can be seen. */
  predicate Bites(text: string, optstring: string, following: Option<string>) {
    text != "" &&
    (BitesAt(text, optstring, following)
     || (TakeChar(text, optstring, following).more && Bites(text[1..], optstring, following)))
  }

  /** Two lists of events that a caller can tell apart before either ends. */
  ghost predicate Diverge(a: seq<Event>, b: seq<Event>) {
    exists i :: 0 <= i < |a| && i < |b| && !SameTurn(a[i], b[i])
  }

  lemma DivergeBehind(front: seq<Event>, a: seq<Event>, b: seq<Event>)
    requires Diverge(a, b)
    ensures Diverge(front + a, front + b)
  {
    var i :| 0 <= i < |a| && i < |b| && !SameTurn(a[i], b[i]);
    assert (front + a)[|front| + i] == a[i] && (front + b)[|front| + i] == b[i];
  }

  lemma DivergeInFront(a: seq<Event>, b: seq<Event>, x: seq<Event>, y: seq<Event>)
    requires Diverge(a, b)
    ensures Diverge(a + x, b + y)
  {
    var i :| 0 <= i < |a| && i < |b| && !SameTurn(a[i], b[i]);
    assert (a + x)[i] == a[i] && (b + y)[i] == b[i];
  }

  lemma DivergeTrace(a: seq<Event>, b: seq<Event>)
    requires Diverge(a, b)
    ensures Trace(a) != Trace(b)
  {
    var i :| 0 <= i < |a| && i < |b| && !SameTurn(a[i], b[i]);
    assert |Trace(a)| == |a| && Trace(a)[i] == (a[i].code, a[i].optarg);
    assert |Trace(b)| == |b| && Trace(b)[i] == (b[i].code, b[i].optarg);
  }

  lemma {:induction false} BitesIs(text: string, optstring: string, following: Option<string>)
    ensures var r, r' := ScanChars(text, Stripped(optstring), following), ScanChars(text, optstring, following);
            if Bites(text, optstring, following) then Diverge(r.0, r'.0) else r == r'
    decreases |text|
  {
    hide TakeChar, BitesAt, KindOf, Stripped, Diverge;
    if text != "" {
      var s := Stripped(optstring);
      BiteShows(text, optstring, following);
      ScanStep(text, s, following);
      ScanStep(text, optstring, following);
      hide ScanChars;
      var t, t' := TakeChar(text, s, following), TakeChar(text, optstring, following);
      if BitesAt(text, optstring, following) {
        HeadsDiverge(t.event, t'.event, ScanChars(text, s, following).0, ScanChars(text, optstring, following).0);
      } else if t.more {
        BitesIs(text[1..], optstring, following);
        if Bites(text[1..], optstring, following) {
          DivergeBehind([t.event], ScanChars(text[1..], s, following).0, ScanChars(text[1..], optstring, following).0);
        }
      }
    }
  }

  lemma HeadsDiverge(e: Event, e': Event, a: seq<Event>, b: seq<Event>)
    requires a != [] && b != [] && a[0] == e && b[0] == e' && !SameTurn(e, e')
    ensures Diverge(a, b)
  {
  }

  // ----- Whole runs -----

  /** Somewhere in a run it can be seen. */
  predicate RunBites(o: Ordering, args: seq<string>, optstring: string)
    decreases |args|
  {
    if args == [] || args[0] == "--" then false
    else if NonOption(args[0]) then !o.RequireOrder? && RunBites(o, args[1..], optstring)
    else
      || Bites(args[0][1..], optstring, Following(args))
      || RunBites(o, args[Used(args[0][1..], args, optstring)..], optstring)
  }

  /** Somewhere behind its first event. */
  predicate LaterBites(o: Ordering, args: seq<string>, optstring: string)
    decreases |args|
  {
    if args == [] || args[0] == "--" then false
    else if NonOption(args[0]) then
      match o
      case RequireOrder => false
      case Permute => LaterBites(o, args[1..], optstring)
      case ReturnInOrder => RunBites(o, args[1..], optstring)
    else
      var text := args[0][1..];
      var t := TakeChar(text, Stripped(optstring), Following(args));
      if t.more then
        || Bites(text[1..], optstring, Following(args))
        || RunBites(o, args[Used(text[1..], args, optstring)..], optstring)
      else RunBites(o, args[t.used..], optstring)
  }

  lemma {:induction false} RunBitesIs(o: Ordering, args: seq<string>, optstring: string)
    ensures var p, p' := ParseRun(o, args, Stripped(optstring)), ParseRun(o, args, optstring);
            if RunBites(o, args, optstring) then Diverge(p.events, p'.events) else p == p'
    decreases |args|
  {
    hide Bites, Diverge, Stripped, ScanChars;
    if args != [] && args[0] != "--" {
      if NonOption(args[0]) {
        if !o.RequireOrder? {
          RunBitesIs(o, args[1..], optstring);
          OneInFront(o, args, optstring);
        }
      } else {
        ElementBites(o, args[0][1..], args, optstring);
      }
    }
  }

  lemma OneInFront(o: Ordering, args: seq<string>, optstring: string)
    requires args != []
    ensures var a, b := ParseRun(o, args[1..], Stripped(optstring)).events, ParseRun(o, args[1..], optstring).events;
            Diverge(a, b) ==> Diverge([Event(1, Some(args[0]), None)] + a, [Event(1, Some(args[0]), None)] + b)
  {
    var a, b := ParseRun(o, args[1..], Stripped(optstring)).events, ParseRun(o, args[1..], optstring).events;
    if Diverge(a, b) {
      DivergeBehind([Event(1, Some(args[0]), None)], a, b);
    }
  }

  lemma {:induction false} ElementBites(o: Ordering, text: string, args: seq<string>, optstring: string)
    requires args != []
    ensures var p, p' := Continue(o, text, args, Stripped(optstring)), Continue(o, text, args, optstring);
            if Bites(text, optstring, Following(args)) || RunBites(o, args[Used(text, args, optstring)..], optstring)
            then Diverge(p.events, p'.events) else p == p'
    decreases |args|, 0
  {
    hide Bites, Diverge, Stripped, ScanChars, ParseRun;
    var s := Stripped(optstring);
    var k := Used(text, args, optstring);
    var ev, ev' := ScanChars(text, s, Following(args)).0, ScanChars(text, optstring, Following(args)).0;
    BitesIs(text, optstring, Following(args));
    if Bites(text, optstring, Following(args)) {
      DivergeInFront(ev, ev', ParseRun(o, args[Used(text, args, s)..], s).events, ParseRun(o, args[k..], optstring).events);
    } else {
      RunBitesIs(o, args[k..], optstring);
      if RunBites(o, args[k..], optstring) {
        DivergeBehind(ev, ParseRun(o, args[k..], s).events, ParseRun(o, args[k..], optstring).events);
      }
    }
  }

  lemma {:induction false} LaterBitesIs(o: Ordering, args: seq<string>, optstring: string)
    ensures var p, p' := ParseRun(o, args, Stripped(optstring)), RunThen(o, args, Stripped(optstring), optstring);
            if LaterBites(o, args, optstring) then Diverge(p.events, p'.events) else p == p'
    decreases |args|
  {
    hide Bites, Diverge, Stripped, ScanChars, TakeChar, RunBites;
    var s := Stripped(optstring);
    if args != [] && args[0] != "--" {
      if NonOption(args[0]) {
        if o.Permute? {
          LaterBitesIs(o, args[1..], optstring);
        } else if o.ReturnInOrder? {
          RunBitesIs(o, args[1..], optstring);
          OneInFront(o, args, optstring);
        }
      } else {
        FirstElement(o, args[0][1..], args, optstring);
      }
    }
  }

  lemma FirstElement(o: Ordering, text: string, args: seq<string>, optstring: string)
    requires args != [] && text != ""
    ensures var s := Stripped(optstring);
            var p, p' := Continue(o, text, args, s), ContinueThen(o, text, args, s, optstring);
            var t := TakeChar(text, s, Following(args));
            if (if t.more
                then Bites(text[1..], optstring, Following(args)) || RunBites(o, args[Used(text[1..], args, optstring)..], optstring)
                else RunBites(o, args[t.used..], optstring))
            then Diverge(p.events, p'.events) else p == p'
  {
    hide Bites, Diverge, Stripped, ScanChars, TakeChar, RunBites, Continue, ParseRun;
    var s := Stripped(optstring);
    var t := TakeChar(text, s, Following(args));
    ContinueThenSame(o, text, args, s);
    if t.more {
      ElementBites(o, text[1..], args, optstring);
      var a, b := Continue(o, text[1..], args, s).events, Continue(o, text[1..], args, optstring).events;
      if Diverge(a, b) {
        DivergeBehind([t.event], a, b);
      }
    } else {
      RunBitesIs(o, args[t.used..], optstring);
      var a, b := ParseRun(o, args[t.used..], s).events, ParseRun(o, args[t.used..], optstring).events;
      if Diverge(a, b) {
        DivergeBehind([t.event], a, b);
      }
    }
  }

  /**
   * The prefix does no harm: the run is that of the option string without it, for a caller and in full,
   * exactly if behind its first event it meets no place where the prefix can be seen.
   */
  lemma PrefixHarmless(o: Ordering, args: seq<string>, optstring: string)
    ensures var p, p' := ParseRun(o, args, Stripped(optstring)), RunThen(o, args, Stripped(optstring), optstring);
            && (p' == p <==> !LaterBites(o, args, optstring))
            && (Trace(p'.events) == Trace(p.events) <==> p' == p)
  {
    hide LaterBites, Diverge, Trace, Stripped, ParseRun, RunThen;
    LaterBitesIs(o, args, optstring);
    var p, p' := ParseRun(o, args, Stripped(optstring)), RunThen(o, args, Stripped(optstring), optstring);
    if LaterBites(o, args, optstring) {
      DivergeTrace(p.events, p'.events);
    }
  }

  /** With the option string "-a" the second character of "-a-" is an option, though only 'a' is one. */
  lemma PrefixBecomesOption()
    ensures var p := RunThen(ReturnInOrder, ["-a-"], "a", "-a");
            && OrderingOf("-a", false) == ReturnInOrder && Stripped("-a") == "a"
            && LaterBites(ReturnInOrder, ["-a-"], "-a")
            && p.events == [Event('a' as int, None, None), Event('-' as int, None, None)]
            && ParseRun(ReturnInOrder, ["-a-"], "a").events == [Event('a' as int, None, None), Event('?' as int, None, Some('-'))]
  {
    var text := "a-";
    assert "-a-"[1..] == text && text[1..] == "-" && "-a"[1..] == "a";
    KindsOfExample();
    hide KindOf;
    assert TakeChar(text, "a", None) == Turn(Event('a' as int, None, None), true, 1);
    ScanStep("-", "-a", None);
    ScanStep("-", "a", None);
    ScanStep(text, "a", None);
  }

  lemma KindsOfExample()
    ensures KindOf("a", 'a') == Flag && KindOf("a", '-') == Unknown
    ensures KindOf("-a", 'a') == Flag && KindOf("-a", '-') == Flag
  {
    assert "-a"[1..] == "a" && "a"[1..] == "";
  }

  /** With the option string "+:a:" the second call reports a missing argument by '?', though a ':' asks for ':'. */
  lemma ColonForgotten()
    ensures var p := RunThen(RequireOrder, ["-b", "-a"], ":a:", "+:a:");
            && OrderingOf("+:a:", false) == RequireOrder && Stripped("+:a:") == ":a:"
            && LaterBites(RequireOrder, ["-b", "-a"], "+:a:")
            && Trace(p.events) != Trace(ParseRun(RequireOrder, ["-b", "-a"], ":a:").events)
  {
    var args := ["-b", "-a"];
    assert "+:a:"[1..] == ":a:" && "-b"[1..] == "b" && "-a"[1..] == "a" && args[1..] == ["-a"];
    assert "+:a:"[1..][1..] == "a:" && ":a:"[1..] == "a:" && "a:"[1..] == ":" && ":"[1..] == "";
    OnlyThePrefix("+:a:", 'a');
    assert KindOf(":a:", 'b') == Unknown && KindOf(":a:", 'a') == RequiredArg;
    hide KindOf;
    assert BitesAt("a", "+:a:", None);
    assert Bites("a", "+:a:", None);
    assert RunBites(RequireOrder, ["-a"], "+:a:");
    PrefixHarmless(RequireOrder, args, "+:a:");
  }
}
