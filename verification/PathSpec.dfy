/**
 * File names as lib-src/ootags.c takes them apart: the text before the first slash, then components,
 * each with a slash in front.  Normalising reads the components from left to right onto a stack.
 */
module PathSpec {
  /** Place of the first `c` in `s`, or its length. */
  function Find(s: string, c: char): (i: nat)
    ensures i <= |s| && c !in s[..i] && (i < |s| ==> s[i] == c)
  {
    if s == "" || s[0] == c then 0
    else
      var k := Find(s[1..], c);
      assert s[..k + 1] == [s[0]] + s[1..][..k];
      k + 1
  }

  predicate Rooted(s: string) {
    s != "" && s[0] == '/'
  }

  /** The text before the first slash. */
  function Head(s: string): (h: string)
    ensures '/' !in h && |h| <= |s| && s[..|h|] == h
    ensures s[|h|..] == "" || Rooted(s[|h|..])
  {
    s[..Find(s, '/')]
  }

  /** The first component of a name that starts with a slash. */
  function First(s: string): (c: string)
    requires Rooted(s)
    ensures '/' !in c && 1 + |c| <= |s| && s[1..1 + |c|] == c
    ensures s[1 + |c|..] == "" || Rooted(s[1 + |c|..])
  {
    var k := Find(s[1..], '/');
    assert s[1..][..k] == s[1..1 + k];
    assert s[1..][k..] == s[1 + k..];
    s[1..1 + k]
  }

  /** The components of a name that is empty or starts with a slash. */
  function Comps(s: string): (cs: seq<string>)
    requires s == "" || Rooted(s)
    decreases |s|
  {
    if s == "" then [] else [First(s)] + Comps(s[1 + |First(s)|..])
  }

  function Render(cs: seq<string>): (s: string)
    ensures cs != [] ==> Rooted(s)
    ensures cs == [] ==> s == ""
  {
    if cs == [] then "" else "/" + cs[0] + Render(cs[1..])
  }

  ghost predicate Plain(cs: seq<string>) {
    forall i :: 0 <= i < |cs| ==> '/' !in cs[i]
  }

  predicate IsDots(c: string) {
    c == "." || c == ".."
  }

  ghost predicate NoDots(cs: seq<string>) {
    forall i :: 0 <= i < |cs| ==> !IsDots(cs[i])
  }

  /** One component read onto the stack: "." is skipped, ".." takes the top off or is dropped at the root. */
  function Push(stack: seq<string>, c: string): (r: seq<string>) {
    if c == "." then stack
    else if c == ".." then (if stack == [] then [] else stack[..|stack| - 1])
    else stack + [c]
  }

  function Reduce(stack: seq<string>, cs: seq<string>): (r: seq<string>)
    decreases |cs|
  {
    if cs == [] then stack else Reduce(Push(stack, cs[0]), cs[1..])
  }

  /** The name that stands for `s`; nothing left stands for the root. */
  function Normalize(s: string): (r: string) {
    var h := Head(s);
    var r := h + Render(Reduce([], Comps(s[|h|..])));
    if r == "" then "/" else r
  }

  /** `absolute_filename`. */
  function Absolute(file: string, dir: string): (r: string) {
    Normalize(if Rooted(file) then file else dir + file)
  }

  // ----- Taking apart and putting together -----

  lemma FindIs(s: string, c: char, i: nat)
    requires i <= |s| && c !in s[..i] && (i < |s| ==> s[i] == c)
    ensures Find(s, c) == i
  {
    var k := Find(s, c);
    assert forall j :: 0 <= j < k ==> s[..k][j] == s[j];
    assert forall j :: 0 <= j < i ==> s[..i][j] == s[j];
  }

  lemma CompsOfCons(c: string, rest: string)
    requires '/' !in c && (rest == "" || Rooted(rest))
    ensures Comps("/" + c + rest) == [c] + Comps(rest)
  {
    var s := "/" + c + rest;
    assert s[1..] == c + rest;
    assert (c + rest)[..|c|] == c;
    FindIs(s[1..], '/', |c|);
    assert First(s) == c;
    assert s[1 + |c|..] == rest;
  }

  lemma Unfold(s: string) returns (c: string, rest: string)
    requires Rooted(s)
    ensures '/' !in c && (rest == "" || Rooted(rest))
    ensures s == "/" + c + rest && Comps(s) == [c] + Comps(rest)
  {
    c := First(s);
    rest := s[1 + |c|..];
  }

  lemma {:induction false} CompsOfRender(cs: seq<string>)
    requires Plain(cs)
    ensures Comps(Render(cs)) == cs
  {
    if cs != [] {
      CompsOfRender(cs[1..]);
      CompsOfCons(cs[0], Render(cs[1..]));
    }
  }

  lemma {:induction false} RenderOfComps(s: string)
    requires s == "" || Rooted(s)
    ensures Plain(Comps(s)) && Render(Comps(s)) == s
    decreases |s|
  {
    if s != "" {
      var c, rest := Unfold(s);
      hide Comps, Rooted;
      RenderOfComps(rest);
      assert ([c] + Comps(rest))[1..] == Comps(rest);
    }
  }

  lemma {:induction false} RenderConcat(a: seq<string>, b: seq<string>)
    ensures Render(a + b) == Render(a) + Render(b)
    decreases |a|
  {
    if a == [] {
      assert a + b == b;
    } else {
      RenderConcat(a[1..], b);
      assert (a + b)[1..] == a[1..] + b;
    }
  }

  lemma RenderSnoc(cs: seq<string>, c: string)
    ensures Render(cs + [c]) == Render(cs) + "/" + c
  {
    RenderConcat(cs, [c]);
    assert Render([c]) == "/" + c;
  }

  /** Cutting a name at a slash cuts its components. */
  lemma CompsConcat(a: string, b: string)
    requires (a == "" || Rooted(a)) && (b == "" || Rooted(b))
    ensures (a + b == "" || Rooted(a + b)) && Comps(a + b) == Comps(a) + Comps(b)
  {
    RenderOfComps(a);
    RenderOfComps(b);
    RenderConcat(Comps(a), Comps(b));
    CompsOfRender(Comps(a) + Comps(b));
  }

  lemma {:induction false} ReduceConcat(stack: seq<string>, a: seq<string>, b: seq<string>)
    ensures Reduce(stack, a + b) == Reduce(Reduce(stack, a), b)
    decreases |a|
  {
    if a == [] {
      assert a + b == b;
    } else {
      ReduceConcat(Push(stack, a[0]), a[1..], b);
      assert (a + b)[1..] == a[1..] + b;
    }
  }

  /** Components that are no dots pile up. */
  lemma {:induction false} ReducePlain(stack: seq<string>, cs: seq<string>)
    requires NoDots(cs)
    ensures Reduce(stack, cs) == stack + cs
    decreases |cs|
  {
    if cs == [] {
      assert stack + cs == stack;
    } else {
      ReducePlain(stack + [cs[0]], cs[1..]);
      assert stack + [cs[0]] + cs[1..] == stack + cs;
    }
  }

  lemma {:induction false} ReduceClean(stack: seq<string>, cs: seq<string>)
    requires NoDots(stack) && Plain(stack) && Plain(cs)
    ensures NoDots(Reduce(stack, cs)) && Plain(Reduce(stack, cs))
    decreases |cs|
  {
    if cs != [] {
      ReduceClean(Push(stack, cs[0]), cs[1..]);
    }
  }

  // ----- What normalising achieves -----

  /** A normal absolute name: it starts with a slash and has no "." and no "..". */
  ghost predicate Normal(s: string) {
    Rooted(s) && NoDots(Comps(s))
  }

  lemma HeadOfRooted(s: string)
    requires s == "" || Rooted(s)
    ensures Head(s) == "" && s[0..] == s
  {
  }

  lemma NormalizeRooted(s: string)
    requires Rooted(s)
    ensures Normalize(s) == var r := Render(Reduce([], Comps(s))); if r == "" then "/" else r
  {
    HeadOfRooted(s);
    var r := Render(Reduce([], Comps(s)));
    assert "" + r == r;
  }

  /** The result of normalising an absolute name has no dots left in it. */
  lemma NormalizeIsNormal(s: string)
    requires Rooted(s)
    ensures Normal(Normalize(s))
  {
    NormalizeRooted(s);
    RenderOfComps(s);
    var stack := Reduce([], Comps(s));
    ReduceClean([], Comps(s));
    CompsOfRender(stack);
    RootComps();
  }

  /** Whatever name is normalised, behind its head no dots are left. */
  lemma NormalizeLeavesNoDots(s: string)
    ensures var h, r := Head(s), Normalize(s);
            && h <= r && (r[|h|..] == "" || Rooted(r[|h|..]))
            && NoDots(Comps(r[|h|..]))
  {
    hide Comps, Reduce, Render;
    var h := Head(s);
    var stack := Reduce([], Comps(s[|h|..]));
    RenderOfComps(s[|h|..]);
    ReduceClean([], Comps(s[|h|..]));
    CompsOfRender(stack);
    RootComps();
    assert (h + Render(stack))[|h|..] == Render(stack);
    assert h == "" ==> "/"[|h|..] == "/";
  }

  lemma RootComps()
    ensures Rooted("/") && Comps("/") == [""]
  {
    CompsOfCons("", "");
    assert "/" + "" + "" == "/";
  }

  /** Names without dots are the fixed points of normalising. */
  lemma NormalIsFixed(s: string)
    requires Rooted(s)
    ensures Normalize(s) == s <==> Normal(s)
  {
    if Normal(s) {
      NormalizeRooted(s);
      ReducePlain([], Comps(s));
      RenderOfComps(s);
      assert [] + Comps(s) == Comps(s);
    } else {
      NormalizeIsNormal(s);
    }
  }

  // ----- What dots mean -----

  lemma NormalizeBehind(h: string, s: string)
    requires '/' !in h && (s == "" || Rooted(s))
    ensures Normalize(h + s) == var r := h + Render(Reduce([], Comps(s))); if r == "" then "/" else r
  {
    FindIs(h + s, '/', |h|);
    assert (h + s)[..|h|] == h && (h + s)[|h|..] == s;
  }

  /** What the name `p` leaves on the stack. */
  function StackOf(p: string): (stack: seq<string>) {
    Reduce([], Comps(p[|Head(p)|..]))
  }

  lemma Behind(p: string, s: string)
    requires s == "" || Rooted(s)
    ensures Normalize(p + s) == var r := Head(p) + Render(Reduce(StackOf(p), Comps(s))); if r == "" then "/" else r
  {
    hide Reduce, Comps, Render, Rooted, Normalize, Head;
    var h := Head(p);
    var q := p[|h|..];
    CompsConcat(q, s);
    ReduceConcat([], Comps(q), Comps(s));
    NormalizeBehind(h, q + s);
    assert p + s == h + (q + s);
  }

  /** A "." can be left out anywhere. */
  lemma DotMeansHere(p: string, r: string)
    requires r == "" || Rooted(r)
    ensures Normalize(p + ("/." + r)) == Normalize(p + r)
  {
    CompsOfCons(".", r);
    assert "/" + "." + r == "/." + r;
    hide Comps, Render, Normalize, Head, StackOf;
    Behind(p, "/." + r);
    Behind(p, r);
    assert (["."] + Comps(r))[1..] == Comps(r);
  }

  /** A ".." takes back the component in front of it, an empty one too. */
  lemma DotDotMeansBack(p: string, c: string, r: string)
    requires '/' !in c && !IsDots(c) && (r == "" || Rooted(r))
    ensures Normalize(p + ("/" + c + "/.." + r)) == Normalize(p + r)
  {
    hide Comps, Render, Normalize, Head, StackOf, Reduce;
    var back := "/.." + r;
    CompsOfCons("..", r);
    assert "/" + ".." + r == back;
    CompsOfCons(c, back);
    assert "/" + c + "/.." + r == "/" + c + back;
    BackAgain(StackOf(p), c, Comps(r));
    assert [c] + ([".."] + Comps(r)) == [c, ".."] + Comps(r);
    Behind(p, "/" + c + back);
    Behind(p, r);
  }

  lemma BackAgain(stack: seq<string>, c: string, cs: seq<string>)
    requires !IsDots(c)
    ensures Reduce(stack, [c, ".."] + cs) == Reduce(stack, cs)
  {
    var all := [c, ".."] + cs;
    assert all[1..] == [".."] + cs && all[1..][1..] == cs;
    assert Push(Push(stack, c), "..") == stack;
  }

  /** At the start there is nothing to take back. */
  lemma DotDotAtTheRoot(h: string, r: string)
    requires '/' !in h && (r == "" || Rooted(r))
    ensures Normalize(h + ("/.." + r)) == Normalize(h + r)
  {
    CompsOfCons("..", r);
    assert "/" + ".." + r == "/.." + r;
    NormalizeBehind(h, "/.." + r);
    NormalizeBehind(h, r);
    assert ([".."] + Comps(r))[1..] == Comps(r);
  }

  // ----- The way from a directory to a file -----

  /** The length of the longest common front of `a` and `b`. */
  function Common(a: string, b: string): (d: nat)
    ensures d <= |a| && d <= |b| && a[..d] == b[..d]
    ensures d < |a| && d < |b| ==> a[d] != b[d]
  {
    if a == "" || b == "" || a[0] != b[0] then 0
    else
      var d := Common(a[1..], b[1..]);
      assert a[..d + 1] == [a[0]] + a[1..][..d] && b[..d + 1] == [b[0]] + b[1..][..d];
      d + 1
  }

  /** Place of the last slash of a name that starts with one. */
  function LastSlash(s: string): (k: nat)
    requires Rooted(s)
    ensures k < |s| && s[k] == '/'
    ensures forall j :: k < j < |s| ==> s[j] != '/'
  {
    if s[|s| - 1] == '/' then |s| - 1 else LastSlash(s[..|s| - 1])
  }

  function Slashes(s: string): (n: nat) {
    if s == "" then 0 else (if s[0] == '/' then 1 else 0) + Slashes(s[1..])
  }

  function Ups(i: nat): (s: string)
    ensures i > 0 ==> s != "" && s[0] == '.'
  {
    if i == 0 then "" else "../" + Ups(i - 1)
  }

  lemma NoLaterFork(a: string, b: string, d: nat, k: nat)
    requires d <= |a| && d <= |b| && (d < |a| && d < |b| ==> a[d] != b[d])
    requires forall j :: k < j < d ==> a[..d][j] != '/'
    ensures forall j :: k < j < |a| && j < |b| && a[j] == '/' ==> a[..j + 1] != b[..j + 1]
  {
    assert forall j :: k < j < d ==> a[j] == a[..d][j];
    forall j | k < j < |a| && j < |b| && a[j] == '/' ensures a[..j + 1] != b[..j + 1] {
      if j >= d {
        assert a[..j + 1][d] == a[d] && b[..j + 1][d] == b[d];
      }
    }
  }

  /** The slash where the ways to `a` and `b` part. */
  function Fork(a: string, b: string): (k: nat)
    requires Rooted(a) && Rooted(b)
    ensures k < |a| && k < |b| && a[k] == '/' && a[..k + 1] == b[..k + 1]
    ensures forall j :: k < j < |a| && j < |b| && a[j] == '/' ==> a[..j + 1] != b[..j + 1]
  {
    var d := Common(a, b);
    assert a[0] == b[0] && d >= 1;
    var k := LastSlash(a[..d]);
    assert a[..k + 1] == a[..d][..k + 1] && b[..k + 1] == b[..d][..k + 1];
    NoLaterFork(a, b, d, k);
    k
  }

  /** The name of the file `afn` as seen from the directory `dir`. */
  function Relative(afn: string, dir: string): (r: string)
    requires Rooted(afn) && Rooted(dir)
  {
    var k := Fork(afn, dir);
    Ups(Slashes(dir[k + 1..])) + afn[k + 1..]
  }

  function Dots(i: nat): (cs: seq<string>)
    ensures |cs| == i
  {
    if i == 0 then [] else [".."] + Dots(i - 1)
  }

  lemma UpsStep(i: nat, t: string)
    requires i > 0
    ensures "/" + Ups(i) + t == "/" + ".." + ("/" + Ups(i - 1) + t)
  {
  }

  lemma {:induction false} CompsOfUps(i: nat, t: string)
    ensures Rooted("/" + Ups(i) + t) && Rooted("/" + t)
    ensures Comps("/" + Ups(i) + t) == Dots(i) + Comps("/" + t)
  {
    if i == 0 {
      assert "/" + Ups(0) + t == "/" + t;
      assert Dots(0) + Comps("/" + t) == Comps("/" + t);
    } else {
      hide Comps, Ups;
      CompsOfUps(i - 1, t);
      var rest := "/" + Ups(i - 1) + t;
      UpsStep(i, t);
      CompsOfCons("..", rest);
      assert [".."] + (Dots(i - 1) + Comps("/" + t)) == [".."] + Dots(i - 1) + Comps("/" + t);
    }
  }

  lemma {:induction false} ReduceDots(stack: seq<string>, i: nat)
    requires i <= |stack|
    ensures Reduce(stack, Dots(i)) == stack[..|stack| - i]
    decreases i
  {
    if i > 0 {
      var up := stack[..|stack| - 1];
      ReduceDots(up, i - 1);
      assert Dots(i)[1..] == Dots(i - 1);
      assert up[..|up| - (i - 1)] == stack[..|stack| - i];
    }
  }

  lemma {:induction false} SlashesConcat(a: string, b: string)
    ensures Slashes(a + b) == Slashes(a) + Slashes(b)
    decreases |a|
  {
    if a == "" {
      assert a + b == b;
    } else {
      SlashesConcat(a[1..], b);
      assert (a + b)[1..] == a[1..] + b;
    }
  }

  lemma {:induction false} SlashFree(s: string)
    ensures Slashes(s) == 0 <==> '/' !in s
  {
    if s != "" {
      SlashFree(s[1..]);
    }
  }

  /** There are as many components as slashes. */
  lemma {:induction false} CompsCount(s: string)
    requires s == "" || Rooted(s)
    ensures |Comps(s)| == Slashes(s)
    decreases |s|
  {
    if s != "" {
      var c, rest := Unfold(s);
      hide Comps;
      CompsCount(rest);
      SlashesConcat("/" + c, rest);
      SlashesConcat("/", c);
      SlashFree(c);
    }
  }

  lemma CutAt(s: string, k: nat)
    requires k < |s|
    ensures s == s[..k] + s[k..] && s[k..] == [s[k]] + s[k + 1..]
  {
  }

  lemma CutLast(s: string)
    requires s != "" && s[|s| - 1] == '/'
    ensures s == s[..|s| - 1] + "/"
  {
  }

  lemma Glue(a: string, b: string, c: string)
    ensures (a + "/") + (b + c) == a + ("/" + b + c)
  {
  }

  /** The pieces of the two names: the common front, and what lies behind the fork. */
  lemma Pieces(afn: string, dir: string, k: nat) returns (front: string, mid: string, back: string)
    requires dir != "" && dir[|dir| - 1] == '/' && Rooted(afn) && Rooted(dir)
    requires k < |afn| && k < |dir| && afn[k] == '/' && afn[..k + 1] == dir[..k + 1]
    ensures (front == "" || Rooted(front)) && (mid == "" || Rooted(mid)) && Rooted(back)
    ensures afn == front + back && dir == front + mid + "/"
    ensures back == "/" + afn[k + 1..] && mid + "/" == "/" + dir[k + 1..]
  {
    var behind := dir[k..];
    front, mid, back := dir[..k], behind[..|behind| - 1], afn[k..];
    assert afn[..k] == front by { assert afn[..k + 1][..k] == dir[..k + 1][..k]; }
    assert dir[k] == '/' by { assert dir[k] == dir[..k + 1][k] == afn[..k + 1][k]; }
    CutAt(afn, k);
    CutAt(dir, k);
    CutLast(behind);
  }

  /** The components on the way from `dir` to `afn` cancel out, wherever the ways part. */
  lemma WayBack(afn: string, dir: string, k: nat)
    requires Normal(afn) && Normal(dir) && dir[|dir| - 1] == '/'
    requires k < |afn| && k < |dir| && afn[k] == '/' && afn[..k + 1] == dir[..k + 1]
    ensures var rel := Ups(Slashes(dir[k + 1..])) + afn[k + 1..];
            Rooted(dir + rel) && Reduce([], Comps(dir + rel)) == Comps(afn)
  {
    hide Comps, Reduce, NoDots, Slashes, Ups;
    var i := Slashes(dir[k + 1..]);
    var front, mid, back := Pieces(afn, dir, k);
    // The components of the pieces.
    CompsConcat(front, back);
    CompsConcat(front, mid);
    CompsConcat(front + mid, "/");
    CompsOfUps(i, afn[k + 1..]);
    Glue(front + mid, Ups(i), afn[k + 1..]);
    CompsConcat(front + mid, "/" + Ups(i) + afn[k + 1..]);
    // As many steps up as there are directories behind the fork.
    CompsCount(mid);
    SlashesConcat(mid, "/");
    SlashesConcat("/", dir[k + 1..]);
    // The steps up take off what the directory has behind the fork.
    NoDotsParts(Comps(front) + Comps(mid), Comps("/"));
    NoDotsParts(Comps(front), Comps(back));
    CancelOut(Comps(front), Comps(mid), Comps(back));
  }

  lemma NoDotsParts(a: seq<string>, b: seq<string>)
    requires NoDots(a + b)
    ensures NoDots(a) && NoDots(b)
  {
    assert forall i :: 0 <= i < |a| ==> a[i] == (a + b)[i];
    assert forall i :: 0 <= i < |b| ==> b[i] == (a + b)[|a| + i];
  }

  lemma CancelOut(front: seq<string>, mid: seq<string>, back: seq<string>)
    requires NoDots(front + mid) && NoDots(back)
    ensures Reduce([], front + mid + (Dots(|mid|) + back)) == front + back
  {
    ReduceConcat([], front + mid, Dots(|mid|) + back);
    ReducePlain([], front + mid);
    assert [] + (front + mid) == front + mid;
    ReduceConcat(front + mid, Dots(|mid|), back);
    ReduceDots(front + mid, |mid|);
    assert (front + mid)[..|front + mid| - |mid|] == front;
    ReducePlain(front, back);
  }

  /** The relative name is absolute itself exactly when the directory is a front of the file that a slash follows. */
  lemma RelativeIsRooted(afn: string, dir: string)
    requires Rooted(afn) && Rooted(dir) && dir[|dir| - 1] == '/' && afn != dir
    ensures Rooted(Relative(afn, dir)) <==> dir + "/" <= afn
    ensures Rooted(Relative(afn, dir)) ==> Relative(afn, dir) == afn[|dir|..]
  {
    var k, d := Fork(afn, dir), Common(afn, dir);
    var behind := dir[k + 1..];
    SlashFree(behind);
    if dir + "/" <= afn {
      assert afn[..|dir|] == dir && afn[|dir|] == '/';
      assert forall j :: 0 <= j < |dir| ==> afn[..|dir|][j] == afn[j];
      assert afn[..d][|dir| - 1] == '/';
      assert k == |dir| - 1 && behind == "";
    }
    assert k < |dir| - 1 ==> behind[|behind| - 1] == '/';
    if Rooted(Relative(afn, dir)) {
      assert k == |dir| - 1;
      assert dir[..k + 1] == dir;
    }
  }

  /**
   * Seen from `dir`, the relative name of a file leads back to the file, exactly unless the file's
   * name is that of the directory with an empty component behind it.
   */
  lemma RelativeRoundTrip(afn: string, dir: string)
    requires Normal(afn) && Normal(dir) && dir[|dir| - 1] == '/' && afn != dir
    ensures Absolute(Relative(afn, dir), dir) == afn <==> !(dir + "/" <= afn)
  {
    hide Comps, Reduce, Fork, NoDots;
    var rel := Relative(afn, dir);
    RelativeIsRooted(afn, dir);
    if Rooted(rel) {
      var front := afn[..|dir|];
      assert afn == front + rel;
      CompsConcat(front, rel);
      NoDotsParts(Comps(front), Comps(rel));
      NormalIsFixed(rel);
    } else {
      WayBack(afn, dir, Fork(afn, dir));
      NormalizeRooted(dir + rel);
      RenderOfComps(afn);
    }
  }

  lemma NormalCons(c: string, rest: string)
    requires '/' !in c && !IsDots(c) && (rest == "" || Normal(rest))
    ensures Normal("/" + c + rest)
  {
    CompsOfCons(c, rest);
  }

  lemma ExampleNames()
    ensures Normal("/a//b") && Normal("/a/") && Normal("/b")
  {
    hide Comps, Normal;
    NormalCons("b", "");
    assert "/" + "b" + "" == "/b";
    NormalCons("", "/b");
    assert "/" + "" + "/b" == "//b";
    NormalCons("a", "//b");
    assert "/" + "a" + "//b" == "/a//b";
    NormalCons("", "");
    assert "/" + "" + "" == "/";
    NormalCons("a", "/");
    assert "/" + "a" + "/" == "/a/";
  }

  /** The directory "/a/" and a file with an empty component behind it: the way back leads astray. */
  lemma EmptyComponentLost()
    ensures Normal("/a//b") && Normal("/a/")
    ensures Relative("/a//b", "/a/") == "/b"
    ensures Absolute(Relative("/a//b", "/a/"), "/a/") == "/b" != "/a//b"
  {
    hide Comps, Relative, Normalize, NoDots;
    var file, dir := "/a//b", "/a/";
    ExampleNames();
    assert file[|dir|..] == "/b";
    assert dir + "/" <= file;
    RelativeIsRooted(file, dir);
    NormalIsFixed("/b");
  }

  // ----- The nearest way -----

  /** The directories `ds`, each with its slash. */
  function Below(ds: seq<string>): (s: string) {
    if ds == [] then "" else ds[0] + "/" + Below(ds[1..])
  }

  /** One step up for each of them, and then `n`. */
  function UpTo(ds: seq<string>, n: string): (s: string) {
    if ds == [] then n else "../" + UpTo(ds[1..], n)
  }

  /** Behind their common front `p` and its slash, the directory goes down through `ds`, and the file does not go the first step of it. */
  ghost predicate Parts(afn: string, dir: string, p: string, ds: seq<string>, n: string) {
    && (p == "" || Rooted(p)) && Plain(ds)
    && dir == p + "/" + Below(ds) && afn == p + "/" + n
    && (if ds == [] then n != "" else !(ds[0] + "/" <= n))
  }

  lemma {:induction false} BelowIs(ds: seq<string>)
    requires Plain(ds)
    ensures Slashes(Below(ds)) == |ds|
    ensures "/" + Below(ds) == Render(ds) + "/"
    ensures ds != [] ==> ds[0] + "/" <= Below(ds)
  {
    if ds != [] {
      BelowIs(ds[1..]);
      SlashesConcat(ds[0] + "/", Below(ds[1..]));
      SlashesConcat(ds[0], "/");
      SlashFree(ds[0]);
      assert "/" + (ds[0] + "/" + Below(ds[1..])) == "/" + ds[0] + ("/" + Below(ds[1..]));
      assert "/" + ds[0] + (Render(ds[1..]) + "/") == "/" + ds[0] + Render(ds[1..]) + "/";
    }
  }

  lemma {:induction false} UpToIs(ds: seq<string>, n: string)
    ensures Ups(|ds|) + n == UpTo(ds, n)
  {
    if ds != [] {
      UpToIs(ds[1..], n);
      assert "../" + Ups(|ds| - 1) + n == "../" + (Ups(|ds| - 1) + n);
    } else {
      assert "" + n == n;
    }
  }

  /** The ways part behind the common front. */
  lemma ForkIs(afn: string, dir: string, p: string, ds: seq<string>, n: string)
    requires Parts(afn, dir, p, ds, n)
    ensures Rooted(afn) && Rooted(dir) && Fork(afn, dir) == |p|
  {
    hide Fork, Below;
    var k := Fork(afn, dir);
    assert afn[|p|] == '/' && afn[..|p| + 1] == p + "/" == dir[..|p| + 1];
    assert afn[|p| + 1..] == n && dir[|p| + 1..] == Below(ds);
    BelowNothing();
    BelowIs(ds);
    if ds != [] && k > |p| {
      SameStep(afn, dir, |p|, k, ds[0]);
    }
  }

  lemma BelowNothing()
    ensures Below([]) == ""
  {
  }

  /** A common slash further on would be behind the first step down. */
  lemma SameStep(a: string, b: string, i: nat, k: nat, d: string)
    requires i < k < |a| && k < |b| && a[k] == '/' && a[..k + 1] == b[..k + 1]
    requires d + "/" <= b[i + 1..] && '/' !in d
    ensures d + "/" <= a[i + 1..]
  {
    var s, t := a[i + 1..k + 1], b[i + 1..k + 1];
    assert s == a[..k + 1][i + 1..] && t == b[..k + 1][i + 1..];
    assert b[k] == b[..k + 1][k];
    assert b[i + 1..][k - i - 1] == '/';
    assert forall j :: 0 <= j < |d| ==> b[i + 1..][j] == (d + "/")[j] == d[j];
    assert |d| <= k - i - 1;
    assert s == t;
    assert forall j :: 0 <= j <= |d| ==> a[i + 1..][j] == s[j] && b[i + 1..][j] == t[j] == (d + "/")[j];
  }

  /** The relative name goes up just to the last directory that is common, and down from there. */
  lemma NearestWay(afn: string, dir: string, p: string, ds: seq<string>, n: string)
    requires Parts(afn, dir, p, ds, n)
    ensures Rooted(afn) && Rooted(dir) && Relative(afn, dir) == UpTo(ds, n)
  {
    hide Fork, Below, UpTo;
    ForkIs(afn, dir, p, ds, n);
    assert afn[|p| + 1..] == n && dir[|p| + 1..] == Below(ds);
    BelowIs(ds);
    UpToIs(ds, n);
  }

  lemma {:induction false} DirsOf(m: string) returns (ds: seq<string>)
    requires m == "" || m[|m| - 1] == '/'
    ensures Plain(ds) && m == Below(ds)
    decreases |m|
  {
    if m == "" {
      return [];
    }
    var k := Find(m, '/');
    assert k < |m|;
    var more := DirsOf(m[k + 1..]);
    assert m == m[..k] + "/" + m[k + 1..];
    ds := [m[..k]] + more;
    assert ds[1..] == more;
  }

  /** A name cut at the fork, and that the file does not go the first step down. */
  lemma AtFork(a: string, k: nat)
    requires k < |a| && a[k] == '/'
    ensures a == a[..k] + "/" + a[k + 1..]
  {
  }

  lemma StepInBoth(a: string, b: string, i: nat, step: string)
    requires i <= |a| && i <= |b| && a[..i] == b[..i] && step != "" && step <= a[i..] && step <= b[i..]
    ensures var j := i + |step|; j <= |a| && j <= |b| && a[..j] == b[..j] && a[j - 1] == step[|step| - 1]
  {
    assert a[i..][..|step|] == step == b[i..][..|step|];
    assert a[..i + |step|] == a[..i] + step && b[..i + |step|] == b[..i] + step;
    assert a[..i + |step|][i + |step| - 1] == step[|step| - 1];
  }

  lemma NoCommonStep(afn: string, dir: string, d: string)
    requires Rooted(afn) && Rooted(dir) && d + "/" <= dir[Fork(afn, dir) + 1..]
    ensures !(d + "/" <= afn[Fork(afn, dir) + 1..])
  {
    hide Fork;
    if d + "/" <= afn[Fork(afn, dir) + 1..] {
      StepInBoth(afn, dir, Fork(afn, dir) + 1, d + "/");
    }
  }

  /** Every file and every directory with a slash at its end have such parts. */
  lemma PartsOf(afn: string, dir: string) returns (p: string, ds: seq<string>, n: string)
    requires Rooted(afn) && Rooted(dir) && dir[|dir| - 1] == '/' && afn != dir
    ensures Parts(afn, dir, p, ds, n)
  {
    hide Below, Fork;
    var k := Fork(afn, dir);
    assert afn[..k] == afn[..k + 1][..k] && dir[..k] == dir[..k + 1][..k] && dir[k] == dir[..k + 1][k] && afn[k] == afn[..k + 1][k];
    p, n := afn[..k], afn[k + 1..];
    AtFork(afn, k);
    AtFork(dir, k);
    ds := DirsOf(dir[k + 1..]);
    BelowNothing();
    if ds != [] {
      BelowIs(ds);
      NoCommonStep(afn, dir, ds[0]);
    }
  }

  /** The steps take off the last directories. */
  lemma StepsLead(p: string, ds: seq<string>, end: string, k: nat)
    requires (p == "" || Rooted(p)) && Plain(ds) && k <= |ds|
    requires NoDots(Comps(p) + ds) && NoDots(Comps("/" + end))
    ensures var s := p + Render(ds) + ("/" + Ups(k) + end);
            Rooted(s) && Reduce([], Comps(s)) == Comps(p) + ds[..|ds| - k] + Comps("/" + end)
  {
    hide Comps, Reduce, Render, Ups, NoDots;
    var near, far := ds[..|ds| - k], ds[|ds| - k..];
    assert Comps(p) + ds == Comps(p) + near + far;
    CompsConcat(p, Render(ds));
    CompsOfRender(ds);
    CompsOfUps(k, end);
    CompsConcat(p + Render(ds), "/" + Ups(k) + end);
    CancelOut(Comps(p) + near, far, Comps("/" + end));
  }

  lemma BehindSlash(n: string, c: string, rest: string)
    requires "/" + n == "/" + c + rest && rest != "" && rest[0] == '/'
    ensures c + "/" <= n
  {
    assert n == ("/" + n)[1..] && ("/" + c + rest)[1..] == c + rest;
    assert rest == "/" + rest[1..] && c + rest == (c + "/") + rest[1..];
  }

  /** A first component with more behind it is a step down. */
  lemma StepTaken(n: string)
    requires |Comps("/" + n)| >= 2
    ensures Comps("/" + n)[0] + "/" <= n
  {
    var c, rest := Unfold("/" + n);
    assert Comps("/" + n)[0] == c && |Comps(rest)| >= 1;
    assert rest != "" by { CompsOfNothing(); }
    hide Comps;
    BehindSlash(n, c, rest);
  }

  lemma CompsOfNothing()
    ensures Comps("") == []
  {
  }

  lemma DirParts(dir: string, p: string, ds: seq<string>)
    requires Normal(dir) && (p == "" || Rooted(p)) && Plain(ds) && dir == p + "/" + Below(ds)
    ensures dir == p + Render(ds) + "/" && NoDots(Comps(p) + ds)
  {
    hide Comps, Below, NoDots, Render;
    BelowIs(ds);
    Shift(p, Below(ds), Render(ds));
    CompsConcat(p, Render(ds));
    CompsOfRender(ds);
    CompsConcat(p + Render(ds), "/");
    NoDotsParts(Comps(p) + ds, Comps("/"));
  }

  lemma Shift(p: string, below: string, rendered: string)
    requires "/" + below == rendered + "/"
    ensures p + "/" + below == p + rendered + "/"
  {
    assert p + "/" + below == p + ("/" + below);
    assert p + rendered + "/" == p + (rendered + "/");
  }

  lemma EndParts(afn: string, j: nat)
    requires Normal(afn) && j < |afn| && afn[j] == '/'
    ensures NoDots(Comps("/" + afn[j + 1..]))
  {
    hide Comps, NoDots;
    AtFork(afn, j);
    var q, end := afn[..j], afn[j + 1..];
    assert afn == q + ("/" + end);
    CompsConcat(q, "/" + end);
    NoDotsParts(Comps(q), Comps("/" + end));
  }

  lemma FileParts(p: string, n: string)
    requires p == "" || Rooted(p)
    ensures Comps(p + "/" + n) == Comps(p) + Comps("/" + n)
  {
    hide Comps;
    assert p + "/" + n == p + ("/" + n);
    CompsConcat(p, "/" + n);
  }

  /** A rooted end of the name is taken for an absolute name. */
  lemma RootedEnd(end: string)
    requires Rooted(end) && NoDots(Comps("/" + end))
    ensures Normalize(end) == end
  {
    CompsConcat("/", end);
    NoDotsParts(Comps("/"), Comps(end));
    NormalIsFixed(end);
  }

  /** Fewer steps up, and down along any other end of the file's name, lead somewhere else. */
  lemma NoShorterWay(afn: string, dir: string, p: string, ds: seq<string>, n: string, k: nat, j: nat)
    requires Normal(afn) && Normal(dir) && Parts(afn, dir, p, ds, n)
    requires k < |ds| && j < |afn| && afn[j] == '/'
    ensures Absolute(UpTo(ds[..k], afn[j + 1..]), dir) != afn
  {
    hide Comps, Reduce, NoDots, Ups, Below, UpTo, Normalize, Render;
    var end := afn[j + 1..];
    var rel := UpTo(ds[..k], end);
    UpToIs(ds[..k], end);
    DirParts(dir, p, ds);
    EndParts(afn, j);
    FileParts(p, n);
    if Rooted(rel) {
      NoSteps(end);
      RootedEnd(end);
    } else {
      StepsLead(p, ds, end, k);
      var list := Comps(p) + ds[..|ds| - k] + Comps("/" + end);
      assert p + Render(ds) + "/" + (Ups(k) + end) == p + Render(ds) + ("/" + Ups(k) + end);
      NormalizeRooted(dir + rel);
      RenderOfComps(p);
      RenderOfComps("/" + end);
      CompsOfRender(list);
      OtherWay(p, ds, n, k, end);
    }
  }

  lemma NoSteps(end: string)
    ensures Ups(0) + end == end
  {
    assert "" + end == end;
  }

  lemma OtherList(front: seq<string>, near: seq<string>, more: seq<string>, comps: seq<string>)
    requires near != [] && more != [] && front + near + more == front + comps
    ensures |comps| >= 2 && comps[0] == near[0]
  {
    assert front + near + more == front + (near + more);
    assert (front + (near + more))[|front|..] == near + more && (front + comps)[|front|..] == comps;
  }

  /** The components of the file are not those that the wrong way leads to. */
  lemma OtherWay(p: string, ds: seq<string>, n: string, k: nat, end: string)
    requires (p == "" || Rooted(p)) && k < |ds| && !(ds[0] + "/" <= n)
    ensures var list := Comps(p) + ds[..|ds| - k] + Comps("/" + end);
            list != Comps(p) + Comps("/" + n) && list != []
  {
    var near := ds[..|ds| - k];
    assert near[0] == ds[0] && Comps("/" + end) != [];
    hide Comps;
    if Comps(p) + near + Comps("/" + end) == Comps(p) + Comps("/" + n) {
      OtherList(Comps(p), near, Comps("/" + end), Comps("/" + n));
      StepTaken(n);
    }
  }
}
