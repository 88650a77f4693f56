/**
 * Command lines put together from what is meant, and that lib-src/getopt.c delivers just that: what stands in
 * an option string, how options and their arguments are written, and which calls they come to.
 */
module GetOptWords {
  import opened Options
  import opened GetOptSpec
  import opened GetOptPrefix

  // ----- Option strings -----

  /** How many colons `s` begins with, up to two. */
  function Colons(s: string): (n: nat) {
    if "::" <= s then 2 else if ":" <= s then 1 else 0
  }

  /** The option string lists `c`, the first time with `n` colons behind it. */
  ghost predicate Listed(optstring: string, c: char, n: nat) {
    c != ':' && exists i :: 0 <= i < |optstring| && optstring[i] == c && c !in optstring[..i] && n == Colons(optstring[i + 1..])
  }

  /** No character of `flags` takes an argument. */
  ghost predicate NoArguments(flags: string, optstring: string) {
    forall c :: c in flags ==> c == ':' || c !in optstring || Listed(optstring, c, 0)
  }

  // ----- Command lines -----

  /** What a user can mean, and write: options that take no argument can stand in front of one that does. */
  datatype Word =
    | Operand(text: string)
    | Flags(flags: string)                             // -abc
    | Attached(flags: string, c: char, arg: string)    // -abcARGUMENT
    | Detached(flags: string, c: char, arg: string)    // -abc ARGUMENT
    | Bare(flags: string, c: char)                     // -abc, where c may have an argument

  datatype End =
    | Nothing
    | Terminator(rest: seq<string>)
    | Operands(rest: seq<string>)                      // in order, the first operand ends it all
    | Wanting(flags: string, c: char)                  // -abc, where c lacks its argument

  predicate IsOperand(e: string) {
    e == "" || e[0] != '-' || e == "-"
  }

  function Elements(w: Word): (s: seq<string>) {
    match w
    case Operand(text) => [text]
    case Flags(flags) => ["-" + flags]
    case Attached(flags, c, arg) => ["-" + flags + [c] + arg]
    case Detached(flags, c, arg) => ["-" + flags + [c], arg]
    case Bare(flags, c) => ["-" + flags + [c]]
  }

  function LastElements(end: End): (s: seq<string>) {
    match end
    case Nothing => []
    case Terminator(rest) => ["--"] + rest
    case Operands(rest) => rest
    case Wanting(flags, c) => ["-" + flags + [c]]
  }

  function Spelled(words: seq<Word>, end: End): (s: seq<string>) {
    if words == [] then LastElements(end) else Elements(words[0]) + Spelled(words[1..], end)
  }

  ghost predicate Proper(w: Word, o: Ordering, optstring: string) {
    match w
    case Operand(text) => IsOperand(text) && !o.RequireOrder?
    case Flags(flags) => flags != "" && flags != "-" && NoArguments(flags, optstring)
    case Attached(flags, c, arg) =>
      NoArguments(flags, optstring) && (Listed(optstring, c, 1) || Listed(optstring, c, 2)) && arg != ""
    case Detached(flags, c, _) => NoArguments(flags, optstring) && Listed(optstring, c, 1) && flags + [c] != "-"
    case Bare(flags, c) => NoArguments(flags, optstring) && Listed(optstring, c, 2) && flags + [c] != "-"
  }

  ghost predicate ProperEnd(end: End, o: Ordering, optstring: string) {
    match end
    case Nothing => true
    case Terminator(_) => true
    case Operands(rest) => o.RequireOrder? && rest != [] && IsOperand(rest[0])
    case Wanting(flags, c) => NoArguments(flags, optstring) && Listed(optstring, c, 1) && flags + [c] != "-"
  }

  ghost predicate ProperLine(words: seq<Word>, end: End, o: Ordering, optstring: string) {
    (forall w :: w in words ==> Proper(w, o, optstring)) && ProperEnd(end, o, optstring)
  }

  // ----- What they come to -----

  function FlagEvents(flags: string, optstring: string): (s: seq<Event>) {
    if flags == "" then []
    else
      var c := flags[0];
      [if c != ':' && c in optstring then Event(CodeOf(c), None, None) else Event('?' as int, None, Some(c))]
      + FlagEvents(flags[1..], optstring)
  }

  function WordEvents(w: Word, o: Ordering, optstring: string): (s: seq<Event>) {
    match w
    case Operand(text) => if o.ReturnInOrder? then [Event(1, Some(text), None)] else []
    case Flags(flags) => FlagEvents(flags, optstring)
    case Attached(flags, c, arg) => FlagEvents(flags, optstring) + [Event(CodeOf(c), Some(arg), None)]
    case Detached(flags, c, arg) => FlagEvents(flags, optstring) + [Event(CodeOf(c), Some(arg), None)]
    case Bare(flags, c) => FlagEvents(flags, optstring) + [Event(CodeOf(c), None, None)]
  }

  function EndEvents(end: End, optstring: string): (s: seq<Event>) {
    if end.Wanting? then
      FlagEvents(end.flags, optstring) + [Event(if ":" <= optstring then ':' as int else '?' as int, None, Some(end.c))]
    else []
  }

  function LineEvents(words: seq<Word>, end: End, o: Ordering, optstring: string): (s: seq<Event>) {
    if words == [] then EndEvents(end, optstring)
    else WordEvents(words[0], o, optstring) + LineEvents(words[1..], end, o, optstring)
  }

  /** The elements that end in front: the options with their arguments, and all that is returned in order. */
  function Front(words: seq<Word>, end: End, o: Ordering): (s: seq<string>) {
    if words == [] then
      match end
      case Nothing => []
      case Terminator(_) => ["--"]
      case Operands(_) => []
      case Wanting(_, _) => LastElements(end)
    else (if words[0].Operand? && o.Permute? then [] else Elements(words[0])) + Front(words[1..], end, o)
  }

  /** Those that end behind them. */
  function Back(words: seq<Word>, end: End, o: Ordering): (s: seq<string>) {
    if words == [] then
      match end
      case Nothing => []
      case Terminator(rest) => rest
      case Operands(rest) => rest
      case Wanting(_, _) => []
    else (if words[0].Operand? && o.Permute? then Elements(words[0]) else []) + Back(words[1..], end, o)
  }

  // ----- One element -----

  lemma FirstPlace(s: string, c: char, i: nat)
    requires i < |s| && s[i] == c && c !in s[..i]
    ensures IndexOf(s, c) == i
  {
    var k := IndexOf(s, c);
    assert forall j :: 0 <= j < i ==> s[..i][j] == s[j];
    assert forall j :: 0 <= j < k ==> s[..k][j] == s[j];
  }

  lemma ColonsAt(s: string, k: int)
    requires 0 <= k < |s|
    ensures Colons(s[k + 1..]) == if !CharAt(s, k + 1, ':') then 0 else if CharAt(s, k + 2, ':') then 2 else 1
  {
  }

  lemma KindIs(optstring: string, c: char, n: nat)
    requires Listed(optstring, c, n)
    ensures c in optstring && n == match KindOf(optstring, c) case Flag => 0 case RequiredArg => 1 case OptionalArg => 2 case _ => 3
  {
    hide Colons, IndexOf;
    var i :| 0 <= i < |optstring| && optstring[i] == c && c !in optstring[..i] && n == Colons(optstring[i + 1..]);
    FirstPlace(optstring, c, i);
    ColonsAt(optstring, i);
  }

  lemma ListedKind(optstring: string, c: char)
    ensures c == ':' || c !in optstring ==> KindOf(optstring, c) == Unknown
    ensures Listed(optstring, c, 0) ==> KindOf(optstring, c) == Flag && c in optstring && c != ':'
    ensures Listed(optstring, c, 1) ==> KindOf(optstring, c) == RequiredArg
    ensures Listed(optstring, c, 2) ==> KindOf(optstring, c) == OptionalArg
  {
    forall n: nat | Listed(optstring, c, n)
      ensures c in optstring && n == match KindOf(optstring, c) case Flag => 0 case RequiredArg => 1 case OptionalArg => 2 case _ => 3
    {
      KindIs(optstring, c, n);
    }
  }

  lemma KindListed(optstring: string, c: char)
    ensures KindOf(optstring, c).Unknown? ==> c == ':' || c !in optstring
    ensures KindOf(optstring, c).Flag? ==> Listed(optstring, c, 0)
    ensures KindOf(optstring, c).RequiredArg? ==> Listed(optstring, c, 1)
    ensures KindOf(optstring, c).OptionalArg? ==> Listed(optstring, c, 2)
  {
    var k := IndexOf(optstring, c);
    if k >= 0 && c != ':' {
      ColonsAt(optstring, k);
    }
  }

  lemma FlagTaken(flags: string, text: string, optstring: string, next: Option<string>)
    requires NoArguments(flags, optstring) && flags != ""
    ensures NoArguments(flags[1..], optstring)
    ensures var t := TakeChar(flags + text, optstring, next);
            && FlagEvents(flags, optstring) == [t.event] + FlagEvents(flags[1..], optstring)
            && t.more == (flags[1..] + text != "") && t.used == 1
  {
    hide Listed, KindOf;
    ListedKind(optstring, flags[0]);
    assert (flags + text)[0] == flags[0] && (flags + text)[1..] == flags[1..] + text;
  }

  lemma {:induction false} FlagsScanned(flags: string, text: string, optstring: string, next: Option<string>)
    requires NoArguments(flags, optstring)
    ensures var r := ScanChars(text, optstring, next);
            ScanChars(flags + text, optstring, next) == (FlagEvents(flags, optstring) + r.0, r.1)
    decreases |flags|
  {
    hide NoArguments, TakeChar;
    if flags == "" {
      var r := ScanChars(text, optstring, next);
      assert flags + text == text && FlagEvents(flags, optstring) == [] && [] + r.0 == r.0;
    } else {
      FlagTaken(flags, text, optstring, next);
      FlagsScanned(flags[1..], text, optstring, next);
      assert (flags + text)[1..] == flags[1..] + text;
      ScanStep(flags + text, optstring, next);
      var e, more, rest := TakeChar(flags + text, optstring, next).event, FlagEvents(flags[1..], optstring), ScanChars(text, optstring, next).0;
      assert [e] + (more + rest) == ([e] + more) + rest;
      if flags[1..] + text == "" {
        assert flags[1..] == "" && text == "" && more == [] && rest == [];
        assert [e] + more + rest == [e];
      }
    }
  }

  /** The text of an option element that ends with the option `c` and the text `arg`. */
  lemma ArgumentScanned(flags: string, c: char, arg: string, optstring: string, next: Option<string>)
    requires NoArguments(flags, optstring) && (Listed(optstring, c, 1) || Listed(optstring, c, 2))
    ensures var r := ScanChars(flags + [c] + arg, optstring, next);
            var front := FlagEvents(flags, optstring);
            if arg != "" then r == (front + [Event(CodeOf(c), Some(arg), None)], false)
            else if Listed(optstring, c, 2) then r == (front + [Event(CodeOf(c), None, None)], false)
            else if next.Some? then r == (front + [Event(CodeOf(c), next, None)], true)
            else r == (front + [Event(if ":" <= optstring then ':' as int else '?' as int, None, Some(c))], false)
  {
    ListedKind(optstring, c);
    hide Listed, KindOf;
    FlagsScanned(flags, [c] + arg, optstring, next);
    assert flags + [c] + arg == flags + ([c] + arg);
    assert ([c] + arg)[1..] == arg;
  }

  /** An element in front of others: the options in it, and the elements it uses up. */
  lemma ElementTaken(o: Ordering, text: string, args: seq<string>, optstring: string, events: seq<Event>, takes: bool)
    requires text != "" && text != "-" && args != [] && args[0] == "-" + text
    requires ScanChars(text, optstring, Following(args)) == (events, takes)
    ensures var k := if takes then 2 else 1; k <= |args|
    ensures var k := if takes then 2 else 1;
            var q := ParseRun(o, args[k..], optstring);
            ParseRun(o, args, optstring) == Parse(events + q.events, args[..k] + q.opts, q.rest)
  {
    hide ScanChars;
    assert args[0][1..] == text;
    assert text[0] != '-' ==> args[0][1] != '-';
    OptionStep(o, args, optstring);
  }

  /** An element whose options are known, with the elements it uses up, in front of others. */
  lemma TextTaken(o: Ordering, text: string, taken: seq<string>, more: seq<string>, optstring: string, events: seq<Event>)
    requires text != "" && text != "-" && 1 <= |taken| <= 2 && taken[0] == "-" + text
    requires ScanChars(text, optstring, Following(taken + more)) == (events, |taken| == 2)
    ensures var q := ParseRun(o, more, optstring);
            ParseRun(o, taken + more, optstring) == Parse(events + q.events, taken + q.opts, q.rest)
  {
    hide ScanChars, ParseRun;
    var args := taken + more;
    assert args[|taken|..] == more && args[..|taken|] == taken;
    ElementTaken(o, text, args, optstring, events, |taken| == 2);
  }

  lemma FlagsTaken(flags: string, more: seq<string>, o: Ordering, optstring: string)
    requires flags != "" && flags != "-" && NoArguments(flags, optstring)
    ensures var q := ParseRun(o, more, optstring);
            ParseRun(o, ["-" + flags] + more, optstring) == Parse(FlagEvents(flags, optstring) + q.events, ["-" + flags] + q.opts, q.rest)
  {
    hide ScanChars, ParseRun, NoArguments;
    var taken, events := ["-" + flags], FlagEvents(flags, optstring);
    FlagsScanned(flags, "", optstring, Following(taken + more));
    ScanNothing(optstring, Following(taken + more));
    assert flags + "" == flags && events + [] == events;
    TextTaken(o, flags, taken, more, optstring, events);
  }

  /** An element that ends with an option that may have an argument. */
  lemma OptionTaken(w: Word, more: seq<string>, o: Ordering, optstring: string)
    requires Proper(w, o, optstring) && (w.Attached? || w.Detached? || w.Bare?)
    ensures var q := ParseRun(o, more, optstring);
            ParseRun(o, Elements(w) + more, optstring) == Parse(WordEvents(w, o, optstring) + q.events, Elements(w) + q.opts, q.rest)
  {
    hide ScanChars, ParseRun, NoArguments, Listed;
    var arg := if w.Attached? then w.arg else "";
    var text := w.flags + [w.c] + arg;
    OnlyOne(optstring, w.c);
    ArgumentScanned(w.flags, w.c, arg, optstring, Following(Elements(w) + more));
    assert "-" + w.flags + [w.c] + arg == "-" + text;
    assert w.flags + [w.c] + "" == w.flags + [w.c] && "-" + w.flags + [w.c] + "" == "-" + w.flags + [w.c];
    TextTaken(o, text, Elements(w), more, optstring, WordEvents(w, o, optstring));
  }

  lemma WordTaken(w: Word, more: seq<string>, o: Ordering, optstring: string)
    requires Proper(w, o, optstring)
    ensures var q := ParseRun(o, more, optstring);
            var back := w.Operand? && o.Permute?;
            ParseRun(o, Elements(w) + more, optstring) ==
            Parse(WordEvents(w, o, optstring) + q.events,
                  if back then q.opts else Elements(w) + q.opts, if back then Elements(w) + q.rest else q.rest)
  {
    hide Listed, ScanChars, NoArguments;
    match w
    case Operand(text) =>
      assert ([text] + more)[1..] == more;
    case Flags(flags) =>
      FlagsTaken(flags, more, o, optstring);
    case _ =>
      OptionTaken(w, more, o, optstring);
  }

  lemma ScanNothing(optstring: string, next: Option<string>)
    ensures ScanChars("", optstring, next) == ([], false)
  {
  }

  lemma OnlyOne(optstring: string, c: char)
    ensures !(Listed(optstring, c, 1) && Listed(optstring, c, 2))
  {
    ListedKind(optstring, c);
  }

  lemma EndTaken(end: End, o: Ordering, optstring: string)
    requires ProperEnd(end, o, optstring)
    ensures ParseRun(o, LastElements(end), optstring) == Parse(EndEvents(end, optstring), Front([], end, o), Back([], end, o))
  {
    hide Listed, ScanChars, NoArguments;
    if end.Terminator? {
      assert LastElements(end)[1..] == end.rest;
    } else if end.Wanting? {
      var args := LastElements(end);
      ArgumentScanned(end.flags, end.c, "", optstring, None);
      OnlyOne(optstring, end.c);
      var text := end.flags + [end.c];
      assert text + "" == text && "-" + end.flags + [end.c] == "-" + text;
      ElementTaken(o, text, args, optstring, EndEvents(end, optstring), false);
      assert args[1..] == [] && args[..1] == args;
    }
  }

  /** For every command line and every ordering: scanning what is written delivers what is meant. */
  lemma {:induction false} LineDelivered(words: seq<Word>, end: End, o: Ordering, optstring: string)
    requires ProperLine(words, end, o, optstring)
    ensures ParseRun(o, Spelled(words, end), optstring) ==
            Parse(LineEvents(words, end, o, optstring), Front(words, end, o), Back(words, end, o))
    decreases |words|
  {
    hide Proper, ProperEnd, WordEvents, EndEvents, Elements;
    if words == [] {
      EndTaken(end, o, optstring);
    } else {
      LineDelivered(words[1..], end, o, optstring);
      WordTaken(words[0], Spelled(words[1..], end), o, optstring);
    }
  }

  // ----- Every vector is a command line -----

  lemma SplitText(text: string, optstring: string) returns (flags: string, behind: string)
    ensures text == flags + behind && NoArguments(flags, optstring)
    ensures behind != "" ==> Listed(optstring, behind[0], 1) || Listed(optstring, behind[0], 2)
  {
    hide Listed;
    if text == "" {
      return "", "";
    }
    KindListed(optstring, text[0]);
    if KindOf(optstring, text[0]).RequiredArg? || KindOf(optstring, text[0]).OptionalArg? {
      return "", text;
    }
    flags, behind := SplitText(text[1..], optstring);
    flags := [text[0]] + flags;
  }

  lemma OneWord(args: seq<string>, o: Ordering, optstring: string) returns (w: Word, k: nat)
    requires args != [] && args[0] != "--" && (IsOperand(args[0]) ==> !o.RequireOrder?)
    ensures k == 0 ==> |args| == 1 && exists flags, c :: args == LastElements(Wanting(flags, c)) && ProperEnd(Wanting(flags, c), o, optstring)
    ensures k > 0 ==> k <= |args| && Proper(w, o, optstring) && args == Elements(w) + args[k..]
  {
    hide Listed, NoArguments;
    if IsOperand(args[0]) {
      return Operand(args[0]), 1;
    }
    var flags, behind := SplitText(args[0][1..], optstring);
    assert args[0] == "-" + args[0][1..] && args == [args[0]] + args[1..];
    if behind == "" {
      assert flags == args[0][1..];
      return Flags(flags), 1;
    }
    var c, arg := behind[0], behind[1..];
    assert args[0] == "-" + flags + [c] + arg;
    if arg != "" {
      return Attached(flags, c, arg), 1;
    }
    assert args[0] == "-" + flags + [c] && "-" + flags + [c] == "-" + (flags + [c]);
    if Listed(optstring, c, 2) {
      return Bare(flags, c), 1;
    }
    if |args| == 1 {
      assert args == LastElements(Wanting(flags, c)) && ProperEnd(Wanting(flags, c), o, optstring);
      return Operand(""), 0;
    }
    assert args == [args[0], args[1]] + args[2..];
    return Detached(flags, c, args[1]), 2;
  }

  /** Every vector is the spelling of a proper command line, so that `LineDelivered` says of each what is delivered. */
  lemma {:induction false} EveryVector(args: seq<string>, o: Ordering, optstring: string) returns (words: seq<Word>, end: End)
    ensures ProperLine(words, end, o, optstring) && args == Spelled(words, end)
    decreases |args|
  {
    hide Proper, Elements;
    if args == [] {
      return [], Nothing;
    }
    if args[0] == "--" {
      assert args == ["--"] + args[1..];
      return [], Terminator(args[1..]);
    }
    if IsOperand(args[0]) && o.RequireOrder? {
      return [], Operands(args);
    }
    var w, k := OneWord(args, o, optstring);
    if k == 0 {
      var flags, c :| args == LastElements(Wanting(flags, c)) && ProperEnd(Wanting(flags, c), o, optstring);
      return [], Wanting(flags, c);
    }
    words, end := EveryVector(args[k..], o, optstring);
    assert ([w] + words)[1..] == words;
    words := [w] + words;
  }

  // ----- Option strings with a prefix -----

  /** The option characters of a word. */
  function Letters(w: Word): (s: string) {
    match w
    case Operand(_) => ""
    case Flags(flags) => flags
    case Attached(flags, c, _) => flags + [c]
    case Detached(flags, c, _) => flags + [c]
    case Bare(flags, c) => flags + [c]
  }

  /** The '-' or '+' that the option string may begin with is no option that is meant, and hides no ':' that matters. */
  ghost predicate PrefixUnused(words: seq<Word>, end: End, optstring: string) {
    "-" <= optstring || "+" <= optstring ==>
      && (forall w :: w in words ==> optstring[0] !in Letters(w))
      && (end.Wanting? ==> optstring[0] !in end.flags + [end.c] && !(":" <= optstring[1..]))
  }

  lemma SameFirstTurn(text: string, optstring: string, next: Option<string>)
    requires text != "" && ("-" <= optstring || "+" <= optstring ==> text[0] != optstring[0])
    requires |text| == 1 && next.None? ==>
               ("-" <= optstring || "+" <= optstring ==> !(":" <= optstring[1..])) || !KindOf(optstring, text[0]).RequiredArg?
    ensures TakeChar(text, Stripped(optstring), next) == TakeChar(text, optstring, next)
  {
    hide KindOf;
    OnlyThePrefix(optstring, text[0]);
  }

  /** The first option element of a vector, when its first character is treated alike. */
  lemma ElementThen(o: Ordering, text: string, args: seq<string>, optstring: string)
    requires text != "" && text != "-" && args != [] && args[0] == "-" + text
    requires TakeChar(text, Stripped(optstring), Following(args)) == TakeChar(text, optstring, Following(args))
    ensures RunThen(o, args, Stripped(optstring), optstring) == ParseRun(o, args, optstring)
  {
    hide TakeChar, ScanChars;
    assert args[0][1..] == text;
    assert text[0] != '-' ==> args[0][1] != '-';
    ContinueThenSame(o, text, args, optstring);
  }

  lemma {:induction false} LineThen(words: seq<Word>, end: End, o: Ordering, optstring: string)
    requires ProperLine(words, end, o, optstring) && PrefixUnused(words, end, optstring)
    ensures RunThen(o, Spelled(words, end), Stripped(optstring), optstring) == ParseRun(o, Spelled(words, end), optstring)
    decreases |words|
  {
    hide Listed, NoArguments, KindOf, TakeChar, Stripped, ContinueThen, Continue;
    var args := Spelled(words, end);
    if words == [] {
      if end.Wanting? {
        var text := end.flags + [end.c];
        assert "-" + end.flags + [end.c] == "-" + text;
        SameFirstTurn(text, optstring, Following(args));
        ElementThen(o, text, args, optstring);
      }
      return;
    }
    var w, more := words[0], Spelled(words[1..], end);
    assert w in words;
    assert args[|Elements(w)|..] == more;
    if w.Operand? {
      assert args[0] == w.text && args[1..] == more;
      if o.Permute? {
        LineThen(words[1..], end, o, optstring);
      }
      return;
    }
    WordThen(w, more, o, optstring);
  }

  lemma WordThen(w: Word, more: seq<string>, o: Ordering, optstring: string)
    requires Proper(w, o, optstring) && !w.Operand? && ("-" <= optstring || "+" <= optstring ==> optstring[0] !in Letters(w))
    ensures var args := Elements(w) + more;
            RunThen(o, args, Stripped(optstring), optstring) == ParseRun(o, args, optstring)
  {
    hide Listed, NoArguments, KindOf, TakeChar, Stripped, RunThen, ParseRun;
    var args := Elements(w) + more;
    var text := Letters(w) + if w.Attached? then w.arg else "";
    assert args[0] == "-" + text;
    assert text[0] in Letters(w);
    if |text| == 1 && Following(args).None? {
      FirstKind(w, optstring, text[0]);
    }
    SameFirstTurn(text, optstring, Following(args));
    ElementThen(o, text, args, optstring);
  }

  lemma FirstKind(w: Word, optstring: string, c: char)
    requires (w.Flags? && NoArguments(w.flags, optstring) && c in w.flags) || (w.Bare? && Listed(optstring, w.c, 2) && c == w.c)
    ensures !KindOf(optstring, c).RequiredArg?
  {
    hide Listed, KindOf;
    ListedKind(optstring, c);
  }
}
