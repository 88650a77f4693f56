/**
 * The scanner of lib-src/getopt.c: its static variables, the in-place exchange of two adjacent
 * blocks of `argv`, and the call that returns one option, for short options.
 */
module GetOpt {
  import opened Options
  import opened GetOptSpec
  import opened GetOptWords

  /** `s` with its adjacent blocks `[b, m)` and `[m, t)` exchanged. */
  function BlockSwap<T>(s: seq<T>, b: int, m: int, t: int): (r: seq<T>)
    requires 0 <= b <= m <= t <= |s|
    ensures |r| == |s|
  {
    s[..b] + s[m..t] + s[b..m] + s[t..]
  }

  /** `s` with the blocks of `len` elements at `i` and `j` exchanged. */
  function FarSwap<T>(s: seq<T>, i: int, j: int, len: int): (r: seq<T>)
    requires 0 <= i <= i + len <= j <= j + len <= |s|
    ensures |r| == |s|
  {
    s[..i] + s[j..j + len] + s[i + len..j] + s[i..i + len] + s[j + len..]
  }

  lemma BlockSwapAt<T>(s: seq<T>, b: int, m: int, t: int, p: int)
    requires 0 <= b <= m <= t <= |s| && 0 <= p < |s|
    ensures BlockSwap(s, b, m, t)[p] ==
            s[if b <= p < b + (t - m) then p + (m - b) else if b + (t - m) <= p < t then p - (t - m) else p]
  {
  }

  lemma FarSwapAt<T>(s: seq<T>, i: int, j: int, len: int, p: int)
    requires 0 <= i <= i + len <= j <= j + len <= |s| && 0 <= p < |s|
    ensures FarSwap(s, i, j, len)[p] ==
            s[if i <= p < i + len then p + (j - i) else if j <= p < j + len then p - (j - i) else p]
  {
  }

  /** With the bottom block the short one, it goes to the far end and the rest is left to do. */
  lemma SwapShortBottom<T>(s: seq<T>, b: int, m: int, t: int)
    requires 0 <= b <= m <= t <= |s| && t - m >= m - b
    ensures BlockSwap(FarSwap(s, b, t - (m - b), m - b), b, m, t - (m - b)) == BlockSwap(s, b, m, t)
  {
    hide BlockSwap, FarSwap;
    var len := m - b;
    var f := FarSwap(s, b, t - len, len);
    var r, r' := BlockSwap(f, b, m, t - len), BlockSwap(s, b, m, t);
    forall p | 0 <= p < |s| ensures r[p] == r'[p] {
      BlockSwapAt(s, b, m, t, p);
      BlockSwapAt(f, b, m, t - len, p);
      FarSwapAt(s, b, t - len, len, if b <= p < b + (t - len - m) then p + (m - b) else if b + (t - len - m) <= p < t - len then p - (t - len - m) else p);
    }
  }

  /** With the top block the short one, it goes to the bottom and the rest is left to do. */
  lemma SwapShortTop<T>(s: seq<T>, b: int, m: int, t: int)
    requires 0 <= b <= m <= t <= |s| && t - m <= m - b
    ensures BlockSwap(FarSwap(s, b, m, t - m), b + (t - m), m, t) == BlockSwap(s, b, m, t)
  {
    hide BlockSwap, FarSwap;
    var len := t - m;
    var f := FarSwap(s, b, m, len);
    var r, r' := BlockSwap(f, b + len, m, t), BlockSwap(s, b, m, t);
    forall p | 0 <= p < |s| ensures r[p] == r'[p] {
      BlockSwapAt(s, b, m, t, p);
      BlockSwapAt(f, b + len, m, t, p);
      FarSwapAt(s, b, m, len, if b + len <= p < b + 2 * len then p + (m - b - len) else if b + 2 * len <= p < t then p - len else p);
    }
  }

  lemma SwapDone<T>(s: seq<T>, b: int, m: int, t: int)
    requires 0 <= b <= m <= t <= |s| && (b == m || m == t)
    ensures BlockSwap(s, b, m, t) == s
  {
    assert s == s[..b] + s[b..m] + s[m..t] + s[t..];
  }

  /** One more pair of elements swapped. */
  lemma FarSwapStep<T>(s: seq<T>, i: int, j: int, k: int)
    requires 0 <= i <= i + k < j <= j + k < |s|
    ensures FarSwap(s, i, j, k)[i + k] == s[i + k] && FarSwap(s, i, j, k)[j + k] == s[j + k]
    ensures FarSwap(s, i, j, k)[i + k := s[j + k]][j + k := s[i + k]] == FarSwap(s, i, j, k + 1)
  {
    hide FarSwap;
    var f, g := FarSwap(s, i, j, k), FarSwap(s, i, j, k + 1);
    var h := f[i + k := s[j + k]][j + k := s[i + k]];
    FarSwapAt(s, i, j, k, i + k);
    FarSwapAt(s, i, j, k, j + k);
    forall p | 0 <= p < |s| ensures h[p] == g[p] {
      FarSwapAt(s, i, j, k, p);
      FarSwapAt(s, i, j, k + 1, p);
    }
  }

  lemma SwapKeepsFront<T>(s: seq<T>, b: int, m: int, t: int)
    requires 1 <= b <= m <= t <= |s|
    ensures BlockSwap(s, b, m, t)[..1] == s[..1]
  {
    var f := BlockSwap(s, b, m, t);
    assert f[..b] == s[..b];
    assert f[..1] == f[..b][..1] == s[..b][..1] == s[..1];
  }

  /** The element-by-element swap of two blocks that do not overlap. */
  method SwapBlocks(argv: array<string>, i: nat, j: nat, len: nat)
    requires i + len <= j && j + len <= argv.Length
    modifies argv
    ensures argv[..] == FarSwap(old(argv[..]), i, j, len)
  {
    ghost var s := argv[..];
    assert FarSwap(s, i, j, 0) == s;
    var k := 0;
    while k < len
      invariant 0 <= k <= len
      invariant argv[..] == FarSwap(s, i, j, k)
    {
      FarSwapStep(s, i, j, k);
      var tem := argv[i + k];
      argv[i + k] := argv[j + k];
      argv[j + k] := tem;
      k := k + 1;
    }
  }

  /** The option string has no "W;", which asks for a table of long names. */
  predicate NoLongNames(optstring: string) {
    forall i :: 0 <= i < |optstring| && optstring[i] == 'W' ==> !CharAt(optstring, i + 1, ';')
  }

  function Least(a: int, b: int): int {
    if a <= b then a else b
  }

  /**
   * What a run still has to deliver, seen from the state of the scanner: the options already
   * scanned lie in `[1, first)` and `[last, optind)`, the elements skipped in `[first, last)`.
   * The next call scans with `optstring`, all calls after it with `later`.
   */
  ghost function Future(o: Ordering, s: seq<string>, optstring: string, later: string,
                        first: int, last: int, optind: int, nextchar: string): Parse
    requires 1 <= first <= last <= optind <= |s| && (nextchar != "" ==> optind < |s|)
  {
    var p := if nextchar == "" then RunThen(o, s[optind..], optstring, later)
             else ContinueThen(o, nextchar, s[optind..], optstring, later);
    Parse(p.events, s[1..first] + s[last..optind] + p.opts, s[first..last] + p.rest)
  }

  /** The state at the end of a run: options first, then the rest, and `optind` between them. */
  ghost predicate Finished(s: seq<string>, optind: int, p: Parse) {
    && 1 <= optind <= |s|
    && s[1..] == p.opts + p.rest
    && optind == 1 + |p.opts|
    && p.events == []
  }

  /** Exchanging the skipped elements with the options behind them changes nothing of what is to come. */
  lemma ExchangeKeepsFuture(o: Ordering, s: seq<string>, optstring: string, later: string, first: int, last: int, optind: int)
    requires 1 <= first <= last <= optind <= |s|
    ensures var first' := first + (optind - last);
            Future(o, BlockSwap(s, first, last, optind), optstring, later, first', optind, optind, "") ==
            Future(o, s, optstring, later, first, last, optind, "")
  {
    var t, first' := BlockSwap(s, first, last, optind), first + (optind - last);
    assert t[1..first'] == s[1..first] + s[last..optind];
    assert t[first'..optind] == s[first..last];
    assert t[optind..] == s[optind..];
    assert t[optind..optind] == [];
  }

  /** Options that follow no skipped element count as settled. */
  lemma SettleKeepsFuture(o: Ordering, s: seq<string>, optstring: string, later: string, first: int, optind: int)
    requires 1 <= first <= optind <= |s|
    ensures Future(o, s, optstring, later, optind, optind, optind, "") == Future(o, s, optstring, later, first, first, optind, "")
  {
    assert s[1..first] + s[first..optind] == s[1..optind] + s[optind..optind];
    assert s[first..first] == s[optind..optind];
  }

  /** Skipping a non-option while permuting. */
  lemma SkipKeepsFuture(s: seq<string>, optstring: string, later: string, first: int, optind: int)
    requires 1 <= first <= optind < |s| && NonOption(s[optind])
    ensures Future(Permute, s, optstring, later, first, optind + 1, optind + 1, "") == Future(Permute, s, optstring, later, first, optind, optind, "")
  {
    assert s[optind..][1..] == s[optind + 1..];
    assert s[first..optind + 1] == s[first..optind] + [s[optind]];
    assert s[optind..optind] == s[optind + 1..optind + 1] == [];
  }

  /** `p` is what is to come after its first event `e` was delivered. */
  ghost predicate Delivered(before: Parse, e: Event, after: Parse) {
    before.events == [e] + after.events && after.opts == before.opts && after.rest == before.rest
  }

  /** One option character: the scan goes on behind it, behind its element, or behind its argument. */
  lemma TurnTaken(o: Ordering, s: seq<string>, optstring: string, later: string,
                  first: int, last: int, optind: int, text: string)
    requires 1 <= first <= last <= optind < |s| && text != ""
    ensures var t := TakeChar(text, optstring, Following(s[optind..]));
            var before := Future(o, s, optstring, later, first, last, optind, text);
            && optind + t.used <= |s|
            && (t.more ==> Delivered(before, t.event, Future(o, s, later, later, first, last, optind, text[1..])))
            && (!t.more ==> Delivered(before, t.event, Future(o, s, later, later, first, last, optind + t.used, "")))
  {
    hide TakeChar, RunThen, ParseRun;
    var t := TakeChar(text, optstring, Following(s[optind..]));
    if t.more {
      ContinueThenSame(o, text[1..], s[optind..], later);
    } else {
      RunThenSame(o, s[optind + t.used..], later);
      assert s[optind..][t.used..] == s[optind + t.used..];
      assert s[last..optind + t.used] == s[last..optind] + s[optind..][..t.used];
      var front := s[1..first] + s[last..optind];
      assert s[1..first] + s[last..optind + t.used] == front + s[optind..][..t.used];
    }
  }

  /** Coming to an option element: its characters after the '-' are to be scanned. */
  lemma ElementStarts(o: Ordering, s: seq<string>, optstring: string, later: string, first: int, last: int, optind: int)
    requires 1 <= first <= last <= optind < |s| && s[optind] != "--" && !NonOption(s[optind])
    ensures Future(o, s, optstring, later, first, last, optind, s[optind][1..]) == Future(o, s, optstring, later, first, last, optind, "")
  {
    assert s[optind..][0] == s[optind];
  }

  /** Coming to a non-option that is returned as the argument of an option with code 1. */
  lemma NonOptionReturned(s: seq<string>, optstring: string, later: string, first: int, last: int, optind: int)
    requires 1 <= first <= last <= optind < |s| && NonOption(s[optind])
    ensures Delivered(Future(ReturnInOrder, s, optstring, later, first, last, optind, ""), Event(1, Some(s[optind]), None),
                      Future(ReturnInOrder, s, later, later, first, last, optind + 1, ""))
  {
    RunThenSame(ReturnInOrder, s[optind + 1..], later);
    assert s[optind..][1..] == s[optind + 1..];
    assert s[last..optind + 1] == s[last..optind] + [s[optind]];
  }

  lemma RunAtTerminator(o: Ordering, s: seq<string>, optstring: string, later: string, optind: int)
    requires 0 <= optind < |s| && s[optind] == "--"
    ensures RunThen(o, s[optind..], optstring, later) == Parse([], ["--"], s[optind + 1..])
  {
    assert s[optind..][1..] == s[optind + 1..];
  }

  /** What lies behind the program name once two blocks are exchanged. */
  lemma SwapParts<T>(s: seq<T>, b: int, m: int, t: int)
    requires 1 <= b <= m <= t <= |s|
    ensures |BlockSwap(s, b, m, t)| == |s|
    ensures BlockSwap(s, b, m, t)[1..] == s[1..b] + s[m..t] + (s[b..m] + s[t..])
  {
  }

  /** The end of a run at a "--": it is put in front of the skipped elements, the rest stays behind them. */
  lemma TerminatorEnds(o: Ordering, s: seq<string>, optstring: string, later: string, first: int, last: int, optind: int)
    requires 1 <= first <= last <= optind < |s| && s[optind] == "--"
    ensures Finished(BlockSwap(s, first, last, optind + 1), first + (optind + 1 - last), Future(o, s, optstring, later, first, last, optind, ""))
    ensures first == last ==> Finished(s, optind + 1, Future(o, s, optstring, later, first, last, optind, ""))
  {
    RunAtTerminator(o, s, optstring, later, optind);
    hide RunThen;
    SwapParts(s, first, last, optind + 1);
    assert s[last..optind + 1] == s[last..optind] + ["--"];
    assert s[1..first] + s[last..optind + 1] == s[1..first] + s[last..optind] + ["--"];
    if first == last {
      SwapDone(s, first, last, optind + 1);
    }
  }

  /** The end of a run at the end of the vector. */
  lemma VectorEnds(o: Ordering, s: seq<string>, optstring: string, later: string, first: int, last: int)
    requires 1 <= first <= last <= |s| && (first == last || last == |s|)
    ensures Finished(s, if first != last then first else |s|, Future(o, s, optstring, later, first, last, |s|, ""))
  {
    assert s[|s|..] == [];
  }

  /** The end of a run that does not permute, at the first non-option. */
  lemma NonOptionEnds(s: seq<string>, optstring: string, later: string, first: int, optind: int)
    requires 1 <= first <= optind < |s| && NonOption(s[optind])
    ensures Finished(s, optind, Future(RequireOrder, s, optstring, later, first, first, optind, ""))
  {
    assert s[1..] == s[1..first] + s[first..optind] + s[optind..];
  }

  /** The static variables of the scanner. */
  class Scanner {
    var optarg: Option<string>
    var optind: int
    var initialized: bool
    var nextchar: string  // the text left in the current element; "" stands for a null pointer too
    var optopt: char
    var ordering: Ordering
    var posixlyCorrect: bool
    var firstNonopt: int
    var lastNonopt: int

    constructor ()
      ensures optind == 1 && !initialized
    {
      optarg, optind, initialized, nextchar := None, 1, false, "";
      optopt, ordering, posixlyCorrect := '?', Permute, false;
      firstNonopt, lastNonopt := 0, 0;
    }

    /**
     * Between calls.  At the end of a run the skipped elements lie behind `optind`; so they may if a caller
     * has moved `optind` back between two elements.
     */
    ghost predicate Ready(argv: array<string>)
      reads this
    {
      && initialized
      && 1 <= optind <= argv.Length && 1 <= firstNonopt <= lastNonopt
      && (nextchar != "" ==> lastNonopt <= optind < argv.Length)
      && (!ordering.Permute? ==> Least(firstNonopt, optind) == Least(lastNonopt, optind))
    }

    ghost function ToCome(argv: array<string>, optstring: string, later: string): Parse
      requires Ready(argv)
      reads this, argv
    {
      Future(ordering, argv[..], optstring, later, Least(firstNonopt, optind), Least(lastNonopt, optind), optind, nextchar)
    }

    /** `exchange`: moves the skipped elements behind the options scanned since. */
    method Exchange(argv: array<string>)
      requires 0 <= firstNonopt <= lastNonopt <= optind <= argv.Length
      modifies argv, `firstNonopt, `lastNonopt
      ensures argv[..] == BlockSwap(old(argv[..]), old(firstNonopt), old(lastNonopt), optind)
      ensures firstNonopt == old(firstNonopt) + (optind - old(lastNonopt)) && lastNonopt == optind
    {
      hide BlockSwap, FarSwap;
      var bottom, middle, top := firstNonopt, lastNonopt, optind;
      while top > middle && middle > bottom
        invariant 0 <= bottom <= middle <= top <= argv.Length
        invariant firstNonopt == old(firstNonopt) && lastNonopt == old(lastNonopt)
        invariant BlockSwap(argv[..], bottom, middle, top) == BlockSwap(old(argv[..]), firstNonopt, lastNonopt, optind)
        decreases top - bottom
      {
        if top - middle > middle - bottom {
          var len := middle - bottom;
          SwapShortBottom(argv[..], bottom, middle, top);
          SwapBlocks(argv, bottom, top - (middle - bottom), len);
          top := top - len;
        } else {
          var len := top - middle;
          SwapShortTop(argv[..], bottom, middle, top);
          SwapBlocks(argv, bottom, middle, len);
          bottom := bottom + len;
        }
      }
      SwapDone(argv[..], bottom, middle, top);
      firstNonopt := firstNonopt + (optind - lastNonopt);
      lastNonopt := optind;
    }

    /** `_getopt_initialize`: the string it returns has lost the prefix that chose the ordering. */
    method Initialize(argv: array<string>, optstring: string, posixly: bool) returns (stripped: string)
      requires 1 <= optind <= argv.Length
      modifies this
      ensures Ready(argv) && optind == old(optind) == firstNonopt && nextchar == ""
      ensures ordering == OrderingOf(optstring, posixly) && stripped == Stripped(optstring)
    {
      firstNonopt, lastNonopt := optind, optind;
      nextchar := "";
      posixlyCorrect := posixly;
      stripped := optstring;
      if CharAt(optstring, 0, '-') {
        ordering := ReturnInOrder;
        stripped := optstring[1..];
      } else if CharAt(optstring, 0, '+') {
        ordering := RequireOrder;
        stripped := optstring[1..];
      } else if posixlyCorrect {
        ordering := RequireOrder;
      } else {
        ordering := Permute;
      }
      initialized := true;
    }

    /** The start of an advance while permuting: exchange if need be, then skip non-options. */
    method AdvancePermuting(argv: array<string>, ghost optstring: string, ghost later: string)
      requires Ready(argv) && lastNonopt <= optind && ordering.Permute? && nextchar == ""
      modifies this, argv
      ensures Ready(argv) && ordering == old(ordering) && nextchar == ""
      ensures optopt == old(optopt) && optarg == old(optarg)
      ensures lastNonopt == optind && (optind < argv.Length ==> !NonOption(argv[optind]))
      ensures argv[..1] == old(argv[..1])
      ensures ToCome(argv, optstring, later) == old(ToCome(argv, optstring, later))
    {
      hide Future, BlockSwap;
      ghost var s := argv[..];
      if firstNonopt != lastNonopt && lastNonopt != optind {
        ExchangeKeepsFuture(Permute, s, optstring, later, firstNonopt, lastNonopt, optind);
        SwapKeepsFront(s, firstNonopt, lastNonopt, optind);
        Exchange(argv);
      } else if lastNonopt != optind {
        SettleKeepsFuture(Permute, s, optstring, later, firstNonopt, optind);
        firstNonopt := optind;
      }
      lastNonopt := optind;
      ghost var t := argv[..];
      while optind < argv.Length && NonOption(argv[optind])
        invariant Ready(argv) && lastNonopt == optind && ordering == old(ordering) && nextchar == ""
        invariant optopt == old(optopt) && optarg == old(optarg)
        invariant argv[..] == t
        invariant ToCome(argv, optstring, later) == old(ToCome(argv, optstring, later))
      {
        SkipKeepsFuture(t, optstring, later, firstNonopt, optind);
        optind := optind + 1;
        lastNonopt := optind;
      }
    }

    /** The start of an advance to the next element, also when `optind` has moved back in front of the skipped ones. */
    method Advance(argv: array<string>, ghost optstring: string, ghost later: string)
      requires Ready(argv) && nextchar == ""
      modifies this, argv
      ensures Ready(argv) && ordering == old(ordering) && nextchar == ""
      ensures optopt == old(optopt) && optarg == old(optarg)
      ensures lastNonopt <= optind
      ensures ordering.Permute? ==> lastNonopt == optind && (optind < argv.Length ==> !NonOption(argv[optind]))
      ensures argv[..1] == old(argv[..1])
      ensures ToCome(argv, optstring, later) == old(ToCome(argv, optstring, later))
    {
      hide Future;
      if lastNonopt > optind {
        lastNonopt := optind;
      }
      if firstNonopt > optind {
        firstNonopt := optind;
      }
      if ordering.Permute? {
        AdvancePermuting(argv, optstring, later);
      }
    }

    /** What one call promises: the next event of the run, or -1 and the final state. */
    ghost predicate Stepped(argv: array<string>, later: string, c: int, before: Parse)
      reads this, argv
    {
      && Ready(argv)
      && if before.events == [] then
           c == -1 && nextchar == "" && Finished(argv[..], optind, before)
         else
           && c == before.events[0].code
           && optarg == before.events[0].optarg
           && (before.events[0].culprit.Some? ==> optopt == before.events[0].culprit.value)
           && Delivered(before, before.events[0], ToCome(argv, later, later))
    }

    /** The end of `_getopt_internal`: one option character, with its argument if it takes one. */
    method ShortOption(argv: array<string>, optstring: string, ghost later: string) returns (c: int)
      requires Ready(argv) && nextchar != "" && optarg == None && NoLongNames(optstring)
      modifies this
      ensures ordering == old(ordering) && Stepped(argv, later, c, old(ToCome(argv, optstring, later)))
    {
      hide Future, Delivered;
      ghost var s, text, at := argv[..], nextchar, optind;
      ghost var t := TakeChar(text, optstring, Following(s[at..]));
      ghost var before := ToCome(argv, optstring, later);
      TurnTaken(ordering, s, optstring, later, firstNonopt, lastNonopt, at, text);
      var ch := nextchar[0];
      nextchar := nextchar[1..];
      var temp := IndexOf(optstring, ch);
      if nextchar == "" {
        optind := optind + 1;
      }
      c := CodeOf(ch);
      if temp < 0 || ch == ':' {
        optopt := ch;
        c := '?' as int;
      } else if CharAt(optstring, temp + 1, ':') {
        if CharAt(optstring, temp + 2, ':') {
          if nextchar != "" {
            optarg := Some(nextchar);
            optind := optind + 1;
          } else {
            optarg := None;
          }
        } else {
          if nextchar != "" {
            optarg := Some(nextchar);
            optind := optind + 1;
          } else if optind == argv.Length {
            optopt := ch;
            c := if CharAt(optstring, 0, ':') then ':' as int else '?' as int;
          } else {
            optarg := Some(argv[optind]);
            optind := optind + 1;
          }
        }
        nextchar := "";
      }
      assert c == t.event.code && optarg == t.event.optarg;
      assert t.event.culprit.Some? ==> optopt == t.event.culprit.value;
      assert if t.more then nextchar == text[1..] && optind == at else nextchar == "" && optind == at + t.used;
      DeliveredFirst(before, t.event, ToCome(argv, later, later));
    }

    /** The "--" element: it goes in front of the skipped elements, and everything behind it is left alone. */
    method Terminate(argv: array<string>, ghost optstring: string, ghost later: string)
      requires Ready(argv) && lastNonopt <= optind && nextchar == "" && optind < argv.Length && argv[optind] == "--"
      requires ordering.Permute? ==> lastNonopt == optind
      modifies this, argv
      ensures Ready(argv) && ordering == old(ordering) && nextchar == ""
      ensures Finished(argv[..], optind, old(ToCome(argv, optstring, later)))
      ensures argv[..1] == old(argv[..1])
    {
      hide Future, Finished, BlockSwap;
      TerminatorEnds(ordering, argv[..], optstring, later, firstNonopt, lastNonopt, optind);
      SwapKeepsFront(argv[..], firstNonopt, lastNonopt, optind + 1);
      optind := optind + 1;
      if firstNonopt != lastNonopt && lastNonopt != optind {
        Exchange(argv);
      } else if firstNonopt == lastNonopt {
        firstNonopt := optind;
      }
      lastNonopt := argv.Length;
      optind := argv.Length;
      if firstNonopt != lastNonopt {
        optind := firstNonopt;
      }
    }

    /**
     * `_getopt_internal` once the scanner is initialised, with no table of long names.  The calls to come may have
     * another option string, `later`.
     */
    method NextOption(argv: array<string>, optstring: string, ghost later: string) returns (c: int)
      requires Ready(argv) && NoLongNames(optstring)
      modifies this, argv
      ensures argv[..1] == old(argv[..1])
      ensures ordering == old(ordering) && Stepped(argv, later, c, old(ToCome(argv, optstring, later)))
    {
      hide Future, Finished, Delivered;
      ghost var before := ToCome(argv, optstring, later);
      optarg := None;
      if nextchar == "" {
        Advance(argv, optstring, later);
        ghost var s := argv[..];
        if optind != argv.Length && argv[optind] == "--" {
          Terminate(argv, optstring, later);
          FinishedIsQuiet(argv[..], optind, before);
          return -1;
        }
        if optind == argv.Length {
          VectorEnds(ordering, s, optstring, later, firstNonopt, lastNonopt);
          if firstNonopt != lastNonopt {
            optind := firstNonopt;
          }
          FinishedIsQuiet(argv[..], optind, before);
          return -1;
        }
        if NonOption(argv[optind]) {
          if ordering.RequireOrder? {
            NonOptionEnds(s, optstring, later, firstNonopt, optind);
            FinishedIsQuiet(argv[..], optind, before);
            return -1;
          }
          NonOptionReturned(s, optstring, later, firstNonopt, lastNonopt, optind);
          optarg := Some(argv[optind]);
          optind := optind + 1;
          DeliveredFirst(before, Event(1, optarg, None), ToCome(argv, later, later));
          return 1;
        }
        ElementStarts(ordering, s, optstring, later, firstNonopt, lastNonopt, optind);
        nextchar := argv[optind][1..];
      }
      c := ShortOption(argv, optstring, later);
    }

    /**
     * `getopt`: initialises the scanner on a first call, and after a caller has set `optind` to 0.  That call scans
     * without the prefix of the option string, those that follow it with the prefix.
     */
    method GetOption(argv: array<string>, optstring: string, posixly: bool) returns (c: int)
      requires NoLongNames(optstring)
      requires if initialized && optind != 0 then Ready(argv) else 0 <= optind <= argv.Length && argv.Length >= 1
      modifies this, argv
      ensures argv[..1] == old(argv[..1])
      ensures old(initialized && optind != 0) ==>
                ordering == old(ordering) && Stepped(argv, optstring, c, old(ToCome(argv, optstring, optstring)))
      ensures !old(initialized && optind != 0) ==>
                var start := if old(optind) == 0 then 1 else old(optind);
                && ordering == OrderingOf(optstring, posixly)
                && Stepped(argv, optstring, c,
                           Future(ordering, old(argv[..]), Stripped(optstring), optstring, start, start, start, ""))
    {
      hide Future, Finished, Delivered;
      var current := optstring;
      if optind == 0 || !initialized {
        if optind == 0 {
          optind := 1;
        }
        current := Initialize(argv, optstring, posixly);
      }
      c := NextOption(argv, current, optstring);
    }
  }

  lemma FinishedIsQuiet(s: seq<string>, optind: int, p: Parse)
    requires Finished(s, optind, p)
    ensures p.events == []
  {
  }

  lemma DeliveredFirst(before: Parse, e: Event, after: Parse)
    requires Delivered(before, e, after)
    ensures before.events != [] && before.events[0] == e
  {
  }

  /**
   * A caller's loop: `while ((c = getopt (argc, argv, optstring)) != -1)`, on a fresh scanner, with any
   * option string.  It ends; the events are those of the run that scans its first event without the prefix, up to
   * one that looks like the end.  If there is none, as with ASCII option characters, `argv` is left as the
   * stable partition that the run describes, with `optind` between its two parts.
   */
  method ScanAll(argv: array<string>, optstring: string, posixly: bool) returns (returned: seq<(int, Option<string>)>, optind: int)
    requires argv.Length >= 1 && NoLongNames(optstring)
    modifies argv
    ensures var p := RunThen(OrderingOf(optstring, posixly), old(argv[1..]), Stripped(optstring), optstring);
            && returned == Trace(p.events[..Heard(p.events)])
            && (Audible(optstring) ==> Heard(p.events) == |p.events|)
            && (Heard(p.events) == |p.events| ==>
                  && argv[..] == old(argv[..1]) + p.opts + p.rest
                  && optind == 1 + |p.opts|
                  && Interleaves(old(argv[1..]), p.opts, p.rest))
    ensures Audible(optstring) ==>
              forall words: seq<Word>, end: End | ProperLine(words, end, OrderingOf(optstring, posixly), optstring) ::
                Spelled(words, end) == old(argv[1..]) && PrefixUnused(words, end, optstring) ==>
                  Meant(words, end, OrderingOf(optstring, posixly), optstring, returned, old(argv[..1]), argv[..], optind)
  {
    hide Future, RunThen, Interleaves, Trace, Stripped, Heard, Audible, ProperLine, PrefixUnused, Spelled, Meant;
    ghost var args, o := argv[1..], OrderingOf(optstring, posixly);
    ghost var p := RunThen(o, args, Stripped(optstring), optstring);
    StablePartitionThen(o, args, Stripped(optstring), optstring);
    if Audible(optstring) {
      AllHeard(o, args, optstring);
    }
    var scanner := new Scanner();
    RunStarts(o, argv[..], Stripped(optstring), optstring);
    returned := [];
    ghost var left := p;
    var c := scanner.GetOption(argv, optstring, posixly);
    while c != -1
      invariant fresh(scanner) && argv[..1] == old(argv[..1])
      invariant left.opts == p.opts && left.rest == p.rest
      invariant returned + Trace(left.events[..Heard(left.events)]) == Trace(p.events[..Heard(p.events)])
      invariant Heard(p.events) == |p.events| <==> Heard(left.events) == |left.events|
      invariant scanner.Stepped(argv, optstring, c, left)
      decreases |left.events|
    {
      HeardStep(left.events);
      TraceStep(left.events[..Heard(left.events)]);
      returned := returned + [(c, scanner.optarg)];
      left := scanner.ToCome(argv, optstring, optstring);
      c := scanner.GetOption(argv, optstring, posixly);
    }
    if left.events != [] {
      HeardStep(left.events);
    }
    TraceStep([]);
    optind := scanner.optind;
    if Audible(optstring) {
      forall words: seq<Word>, end: End | ProperLine(words, end, o, optstring) && Spelled(words, end) == args && PrefixUnused(words, end, optstring)
        ensures Meant(words, end, o, optstring, returned, old(argv[..1]), argv[..], optind)
      {
        LineMeant(words, end, o, optstring, p, returned, old(argv[..1]), argv[..], optind);
      }
    }
  }

  /** Just what was meant is returned, and the vector divided accordingly. */
  ghost predicate Meant(words: seq<Word>, end: End, o: Ordering, optstring: string,
                        returned: seq<(int, Option<string>)>, name: seq<string>, s: seq<string>, optind: int)
  {
    && returned == Trace(LineEvents(words, end, o, optstring))
    && s == name + Front(words, end, o) + Back(words, end, o)
    && optind == 1 + |Front(words, end, o)|
  }

  lemma LineMeant(words: seq<Word>, end: End, o: Ordering, optstring: string, p: Parse,
                  returned: seq<(int, Option<string>)>, name: seq<string>, s: seq<string>, optind: int)
    requires ProperLine(words, end, o, optstring) && PrefixUnused(words, end, optstring)
    requires p == RunThen(o, Spelled(words, end), Stripped(optstring), optstring) && returned == Trace(p.events)
    requires s == name + p.opts + p.rest && optind == 1 + |p.opts|
    ensures Meant(words, end, o, optstring, returned, name, s, optind)
  {
    hide ProperLine, PrefixUnused, Spelled, RunThen, ParseRun, Stripped;
    LineDelivered(words, end, o, optstring);
    LineThen(words, end, o, optstring);
  }

  lemma RunStarts(o: Ordering, s: seq<string>, optstring: string, later: string)
    requires |s| >= 1
    ensures Future(o, s, optstring, later, 1, 1, 1, "") == RunThen(o, s[1..], optstring, later)
  {
    assert s[1..1] == [];
  }

  /**
   * A call after the end of a run, or at any time between two elements: it returns -1 exactly if a scan from `optind` on
   * would end at once, or if it finds an option that is returned so.
   */
  method CallAtElement(scanner: Scanner, argv: array<string>, optstring: string, posixly: bool) returns (c: int)
    requires scanner.Ready(argv) && scanner.nextchar == "" && NoLongNames(optstring)
    modifies scanner, argv
    ensures Quiet(scanner.ordering, old(argv[scanner.optind..])) ==> c == -1
    ensures Audible(optstring) && c == -1 ==> Quiet(scanner.ordering, old(argv[scanner.optind..]))
    ensures scanner.ordering == old(scanner.ordering)
  {
    hide RunThen, Quiet, Audible;
    ghost var s := argv[scanner.optind..];
    QuietIs(scanner.ordering, s, optstring, optstring);
    if Audible(optstring) {
      RunThenCodes(scanner.ordering, s, optstring, optstring);
    }
    c := scanner.GetOption(argv, optstring, posixly);
  }

  /** The first of two scans permuted, and lost the argument of its last option to a skipped element. */
  predicate Lost(args: seq<string>, optstring: string) {
    OrderingOf(optstring, false).Permute? && MissingAtEnd(Permute, args, optstring) && SkipsSome(args, optstring)
  }

  lemma SecondScan(args: seq<string>, optstring: string)
    ensures var p := RunThen(OrderingOf(optstring, false), args, Stripped(optstring), optstring);
            var again := RunThen(OrderingOf(optstring, true), p.opts + p.rest, Stripped(optstring), optstring);
            && (again == p <==> !Lost(args, optstring))
            && (Trace(again.events) == Trace(p.events) <==> again == p)
  {
    hide RunThen, MissingAtEnd, SkipsSome, ParseRun, Trace;
    var o := OrderingOf(optstring, false);
    var p := RunThen(o, args, Stripped(optstring), optstring);
    if o.Permute? {
      RunThenSame(Permute, args, optstring);
      RunThenSame(RequireOrder, p.opts + p.rest, optstring);
      ReparseAgrees(args, optstring);
    } else {
      UnpermutedThen(o, args, Stripped(optstring), optstring);
    }
  }

  /**
   * A second caller's loop over the vector the first one left, this time in order unless the option string says
   * otherwise: it returns the same options and leaves `optind` and the vector the same, exactly unless the
   * first run permuted and ended in a missing argument while it had skipped elements.
   */
  method ScanTwice(argv: array<string>, optstring: string)
    returns (first: seq<(int, Option<string>)>, again: seq<(int, Option<string>)>, optind: int, optind': int)
    requires argv.Length >= 1 && NoLongNames(optstring)
    modifies argv
    ensures var args := old(argv[1..]);
            var p := RunThen(OrderingOf(optstring, false), args, Stripped(optstring), optstring);
            Audible(optstring) ==>
              && (again == first <==> !Lost(args, optstring))
              && (!Lost(args, optstring) ==> optind' == optind && argv[..] == old(argv[..1]) + p.opts + p.rest)
  {
    hide RunThen, Interleaves, Trace, Lost, Stripped, Audible, Heard;
    ghost var args, name := argv[1..], argv[..1];
    ghost var p := RunThen(OrderingOf(optstring, false), args, Stripped(optstring), optstring);
    first, optind := ScanAll(argv, optstring, false);
    if Audible(optstring) {
      assert argv[..1] == name && argv[1..] == p.opts + p.rest;
      AllHeard(OrderingOf(optstring, false), args, optstring);
      AllHeard(OrderingOf(optstring, true), p.opts + p.rest, optstring);
      SecondScan(args, optstring);
    }
    again, optind' := ScanAll(argv, optstring, true);
  }
}
