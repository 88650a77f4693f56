/**
 * `absolute_filename` and `relative_filename` of lib-src/ootags.c on NUL-terminated strings:
 * the loop that deletes "/." and "/dirname/.." in place, and the name that leads back.
 */
module PathNames {
  import opened PathSpec

  const END: char := '\0'

  ghost predicate CString(s: string) {
    END !in s
  }

  /** The first `len` characters of `res` are the string it holds. */
  ghost predicate Holds(res: array<char>, len: int)
    reads res
  {
    0 <= len < res.Length && res[len] == END && CString(res[..len])
  }

  /** `concat`, and `savestr` when the second string is empty: a fresh buffer holding both. */
  method Concat(s1: string, s2: string) returns (res: array<char>)
    requires CString(s1) && CString(s2)
    ensures fresh(res) && Holds(res, |s1| + |s2|) && res[..|s1| + |s2|] == s1 + s2
  {
    var s := s1 + s2;
    res := new char[|s| + 1];
    forall k | 0 <= k < |s| {
      res[k] := s[k];
    }
    res[|s|] := END;
    assert res[..|s|] == s;
  }

  /** `strchr (res + from, c)`: an index, or -1 for a null pointer. */
  method StrChr(res: array<char>, from: int, c: char, ghost len: int) returns (r: int)
    requires Holds(res, len) && 0 <= from <= len && c != END
    ensures r == -1 ==> c !in res[from..len]
    ensures r != -1 ==> from <= r < len && res[r] == c && c !in res[from..r]
  {
    r := from;
    while res[r] != END
      invariant from <= r <= len && c !in res[from..r]
      decreases len - r
    {
      if res[r] == c {
        return;
      }
      assert res[from..r + 1] == res[from..r] + [res[r]];
      r := r + 1;
    }
    return -1;
  }

  /** `strcpy (res + to, res + from)`, meant to shift the end of the string to the left. */
  method ShiftLeft(res: array<char>, to: int, from: int, ghost len: int)
    requires Holds(res, len) && 0 <= to <= from <= len
    modifies res
    ensures Holds(res, len - (from - to))
    ensures res[..len - (from - to)] == old(res[..len])[..to] + old(res[..len])[from..]
  {
    ghost var s := res[..len];
    var at := from;
    while res[at] != END
      invariant from <= at <= len && res[len] == END
      invariant forall k :: 0 <= k < to ==> res[k] == s[k]
      invariant forall k :: to <= k < to + (at - from) ==> res[k] == s[k + (from - to)]
      invariant forall k :: at <= k < len ==> res[k] == s[k]
      decreases len - at
    {
      res[to + (at - from)] := res[at];
      at := at + 1;
    }
    res[to + (at - from)] := END;
    Shifted(res[..to + (at - from)], s, to, from);
  }

  lemma Shifted(r: string, s: string, to: int, from: int)
    requires 0 <= to <= from <= |s| && |r| == |s| - (from - to)
    requires forall k :: 0 <= k < |r| ==> r[k] == s[if k < to then k else k + (from - to)]
    ensures r == s[..to] + s[from..]
  {
  }

  // ----- absolute_filename -----

  /** What the deletion loop keeps: the part before `slashp` is read, and lies on the stack; the rest is still to be read. */
  ghost predicate Reading(s: string, slashp: int, head: string, stack: seq<string>, target: string) {
    && 0 <= slashp <= |s|
    && '/' !in head && Plain(stack) && s[..slashp] == head + Render(stack)
    && (s[slashp..] == "" || Rooted(s[slashp..]))
    && head + Render(Reduce(stack, Comps(s[slashp..]))) == target
  }

  lemma StartReading(s: string, slashp: int)
    requires 0 <= slashp <= |s| && '/' !in s[..slashp] && (slashp < |s| ==> s[slashp] == '/')
    ensures Reading(s, slashp, Head(s), [], Head(s) + Render(Reduce([], Comps(s[|Head(s)|..]))))
  {
    FindIs(s, '/', slashp);
    assert Head(s) + "" == Head(s);
  }

  /** The end of the string, or of the slashes in it, ends the reading. */
  lemma EndReading(s: string, slashp: int, head: string, stack: seq<string>, target: string)
    requires Reading(s, slashp, head, stack, target) && slashp == |s|
    ensures s == target
  {
  }

  /** The component that is read: `c` lies behind the slash at `slashp`, and `rest` behind it. */
  ghost predicate At(s: string, slashp: int, c: string, rest: string) {
    && 0 <= slashp && slashp + 1 + |c| <= |s|
    && '/' !in c && (rest == "" || Rooted(rest))
    && s[slashp] == '/' && s[slashp + 1..slashp + 1 + |c|] == c && s[slashp + 1 + |c|..] == rest
  }

  lemma AtMeans(s: string, slashp: int, c: string, rest: string)
    requires At(s, slashp, c, rest)
    ensures Rooted(s[slashp..]) && Comps(s[slashp..]) == [c] + Comps(rest)
  {
    hide Comps;
    assert s[slashp..] == "/" + c + rest;
    CompsOfCons(c, rest);
  }

  lemma NextComponent(s: string, slashp: int, head: string, stack: seq<string>, target: string) returns (c: string, rest: string)
    requires Reading(s, slashp, head, stack, target) && slashp < |s|
    ensures At(s, slashp, c, rest)
  {
    hide Comps, Render, Reduce;
    var t := s[slashp..];
    c, rest := Unfold(t);
    assert t[1..1 + |c|] == c && t[1 + |c|..] == rest && t[0] == '/';
  }

  /** The tests of the loop on the characters behind the slash tell which component is read. */
  lemma ReadDots(a: seq<char>, s: string, slashp: int, c: string, rest: string)
    requires At(s, slashp, c, rest) && CString(s) && s + [END] <= a
    ensures slashp + 1 <= |s| && slashp + 1 + |c| <= |s|
    ensures a[slashp + 1] == '.' ==> slashp + 2 <= |s|
    ensures a[slashp + 1] == '.' && a[slashp + 2] == '.' ==> slashp + 3 <= |s|
    ensures c == ".." <==> a[slashp + 1] == '.' && a[slashp + 2] == '.' && (a[slashp + 3] == '/' || a[slashp + 3] == END)
    ensures c == "." <==> a[slashp + 1] == '.' && (a[slashp + 2] == '/' || a[slashp + 2] == END)
  {
    assert a[|s|] == END && forall k :: 0 <= k < |s| ==> a[k] == s[k];
    assert rest != "" ==> s[slashp + 1 + |c|] == rest[0];
    forall k | 0 <= k < |c| ensures s[slashp + 1 + k] == c[k] {
      assert s[slashp + 1..slashp + 1 + |c|][k] == c[k];
    }
  }

  /** "/." is deleted. */
  lemma DotStep(s: string, slashp: int, head: string, stack: seq<string>, target: string, rest: string)
    requires Reading(s, slashp, head, stack, target) && At(s, slashp, ".", rest)
    ensures Reading(s[..slashp] + s[slashp + 2..], slashp, head, stack, target)
  {
    AtMeans(s, slashp, ".", rest);
    assert (["."] + Comps(rest))[1..] == Comps(rest);
    var t := s[..slashp] + s[slashp + 2..];
    assert t[..slashp] == s[..slashp] && t[slashp..] == rest;
  }

  /** "/dirname/.." is deleted, or "/.." if there is no name before it. */
  lemma DotDotStep(s: string, slashp: int, head: string, stack: seq<string>, target: string, rest: string, cp: int)
    requires Reading(s, slashp, head, stack, target) && At(s, slashp, "..", rest)
    requires -1 <= cp < slashp && (forall k :: cp < k < slashp ==> s[k] != '/') && (cp >= 0 ==> s[cp] == '/')
    ensures var cut := if cp < 0 then slashp else cp;
            Reading(s[..cut] + s[slashp + 3..], cut, head, Push(stack, ".."), target)
  {
    hide Render, Comps;
    AtMeans(s, slashp, "..", rest);
    assert ([".."] + Comps(rest))[1..] == Comps(rest);
    hide Reduce;
    var cut := if cp < 0 then slashp else cp;
    CutOut(s, cut, slashp + 3);
    if stack == [] {
      RenderNothing();
      assert s[..slashp] == head;
      NoSlashBefore(s, slashp, cp);
    } else {
      var up, top := stack[..|stack| - 1], stack[|stack| - 1];
      RenderSnoc(up, top);
      assert up + [top] == stack && Push(stack, "..") == up;
      var p := head + Render(up);
      assert s[..slashp] == p + "/" + top;
      OneLastSlash(s[..slashp], p, top, cp);
      assert s[..cp] == s[..slashp][..cp] == p;
    }
  }

  lemma NoSlashBefore(s: string, slashp: int, cp: int)
    requires 0 <= slashp <= |s| && '/' !in s[..slashp]
    requires cp < slashp && (cp >= 0 ==> s[cp] == '/')
    ensures cp < 0
  {
    assert forall k :: 0 <= k < slashp ==> s[k] == s[..slashp][k];
  }

  lemma RenderNothing()
    ensures Render([]) == ""
  {
  }

  lemma CutOut(s: string, cut: int, from: int)
    requires 0 <= cut <= from <= |s|
    ensures (s[..cut] + s[from..])[..cut] == s[..cut] && (s[..cut] + s[from..])[cut..] == s[from..]
  {
  }

  /** There is one last slash. */
  lemma OneLastSlash(s: string, p: string, top: string, cp: int)
    requires s == p + "/" + top && '/' !in top
    requires -1 <= cp < |s| && (forall k :: cp < k < |s| ==> s[k] != '/') && (cp >= 0 ==> s[cp] == '/')
    ensures cp == |p|
  {
    assert s[|p|] == '/';
    assert forall k :: |p| < k < |s| ==> s[k] == top[k - |p| - 1];
  }

  /** Any other component is read onto the stack. */
  lemma NameStep(s: string, slashp: int, head: string, stack: seq<string>, target: string, c: string, rest: string)
    requires Reading(s, slashp, head, stack, target) && At(s, slashp, c, rest) && !IsDots(c)
    ensures Reading(s, slashp + 1 + |c|, head, stack + [c], target)
  {
    hide Render, Comps;
    AtMeans(s, slashp, c, rest);
    assert ([c] + Comps(rest))[1..] == Comps(rest);
    hide Reduce;
    RenderSnoc(stack, c);
    ReadUpTo(s, slashp, c);
    var a, b := head, Render(stack);
    assert a + (b + "/" + c) == (a + b) + "/" + c;
    assert Push(stack, c) == stack + [c];
  }

  lemma ReadUpTo(s: string, slashp: int, c: string)
    requires 0 <= slashp && slashp + 1 + |c| <= |s| && s[slashp] == '/' && s[slashp + 1..slashp + 1 + |c|] == c
    ensures s[..slashp + 1 + |c|] == s[..slashp] + "/" + c
  {
  }

  /** `do cp--; while (cp >= res && !filename_is_absolute (cp));`: the slash before the one at `slashp`, or -1. */
  method SlashBefore(res: array<char>, slashp: int) returns (cp: int)
    requires 0 <= slashp < res.Length
    ensures -1 <= cp < slashp && (cp >= 0 ==> res[cp] == '/')
    ensures forall k :: cp < k < slashp ==> res[k] != '/'
  {
    cp := slashp - 1;
    while cp >= 0 && res[cp] != '/'
      invariant -1 <= cp < slashp
      invariant forall k :: cp < k < slashp ==> res[k] != '/'
    {
      cp := cp - 1;
    }
  }

  /** The deletion of "/dirname/.." at the slash in front of the two dots. */
  method GoUp(res: array<char>, at: int, ghost len: int, ghost head: string, ghost stack: seq<string>, ghost target: string,
              ghost rest: string)
    returns (slashp: int, ghost len': int, ghost stack': seq<string>)
    requires Holds(res, len) && 0 <= at < at + 3 <= len
    requires Reading(res[..len], at, head, stack, target) && At(res[..len], at, "..", rest)
    modifies res
    ensures Holds(res, len') && 0 <= slashp <= len'
    ensures Reading(res[..len'], slashp, head, stack', target)
    ensures len' - slashp < len - at
  {
    hide Reading, Comps, Render, Reduce, At, CString;
    var cp := SlashBefore(res, at);
    DotDotStep(res[..len], at, head, stack, target, rest, cp);
    if cp < 0 {
      cp := at;
    }
    ShiftLeft(res, cp, at + 3, len);
    len' := len - (at + 3 - cp);
    slashp := cp;
    stack' := Push(stack, "..");
  }

  /** The deletion of "/." at the slash in front of the dot. */
  method DropDot(res: array<char>, at: int, ghost len: int, ghost head: string, ghost stack: seq<string>, ghost target: string,
                 ghost rest: string)
    returns (ghost len': int)
    requires Holds(res, len) && 0 <= at < at + 2 <= len
    requires Reading(res[..len], at, head, stack, target) && At(res[..len], at, ".", rest)
    modifies res
    ensures len' == len - 2 && Holds(res, len') && Reading(res[..len'], at, head, Push(stack, "."), target)
  {
    hide Reading, Comps, Render, Reduce, At, CString;
    DotStep(res[..len], at, head, stack, target, rest);
    ShiftLeft(res, at, at + 2, len);
    len' := len - 2;
  }

  /** A name is passed over, to the slash behind it. */
  method PassName(res: array<char>, at: int, ghost len: int, ghost head: string, ghost stack: seq<string>, ghost target: string,
                  ghost c: string, ghost rest: string)
    returns (slashp: int)
    requires Holds(res, len) && 0 <= at < len
    requires Reading(res[..len], at, head, stack, target) && At(res[..len], at, c, rest) && !IsDots(c)
    ensures slashp == -1 || at < slashp <= len
    ensures Reading(res[..len], if slashp < 0 then len else slashp, head, stack + [c], target)
  {
    hide Reading, Comps, Render, Reduce, At, CString;
    NameStep(res[..len], at, head, stack, target, c, rest);
    slashp := StrChr(res, at + 1, '/', len);
    NextSlash(res[..len], at, c, rest, slashp);
  }

  /** One turn of the deletion loop at the slash at `at`. */
  method Turn(res: array<char>, at: int, ghost len: int, ghost head: string, ghost stack: seq<string>, ghost target: string)
    returns (slashp: int, ghost len': int, ghost stack': seq<string>)
    requires Holds(res, len) && 0 <= at < len && Reading(res[..len], at, head, stack, target)
    modifies res
    ensures Holds(res, len') && -1 <= slashp <= len'
    ensures Reading(res[..len'], if slashp < 0 then len' else slashp, head, stack', target)
    ensures slashp >= 0 ==> len' - slashp < len - at
  {
    hide Reading, Comps, Render, Reduce, At, CString;
    ghost var s := res[..len];
    ghost var c, rest := NextComponent(s, at, head, stack, target);
    ReadDots(res[..], s, at, c, rest);
    slashp, len', stack' := at, len, Push(stack, c);
    if res[slashp + 1] == '.' {
      if res[slashp + 2] == '.' && (res[slashp + 3] == '/' || res[slashp + 3] == END) {
        slashp, len', stack' := GoUp(res, at, len, head, stack, target, rest);
        return;
      } else if res[slashp + 2] == '/' || res[slashp + 2] == END {
        len' := DropDot(res, at, len, head, stack, target, rest);
        return;
      }
    }
    slashp := PassName(res, at, len, head, stack, target, c, rest);
  }

  lemma NextSlash(s: string, at: int, c: string, rest: string, r: int)
    requires At(s, at, c, rest)
    requires r == -1 ==> '/' !in s[at + 1..]
    requires r != -1 ==> at + 1 <= r < |s| && s[r] == '/' && '/' !in s[at + 1..r]
    ensures at + 1 + |c| == if r < 0 then |s| else r
  {
    assert rest != "" ==> s[at + 1 + |c|] == rest[0] == '/';
    var end := if r < 0 then |s| else r;
    assert forall k :: at + 1 <= k < end ==> s[at + 1..end][k - at - 1] == s[k];
    assert forall k :: at + 1 <= k < at + 1 + |c| ==> s[k] == c[k - at - 1];
    assert s[at + 1..end] == if r < 0 then s[at + 1..] else s[at + 1..r];
  }

  /** The deletion loop of `absolute_filename`. */
  method DeleteDots(res: array<char>, ghost s: string) returns (ghost len: int)
    requires Holds(res, |s|) && res[..|s|] == s
    modifies res
    ensures Holds(res, len) && res[..len] == Head(s) + Render(Reduce([], Comps(s[|Head(s)|..])))
  {
    hide Reading, Comps, Render, Reduce, Head;
    len := |s|;
    ghost var head, stack: seq<string> := Head(s), [];
    ghost var target := head + Render(Reduce([], Comps(s[|head|..])));
    var slashp := StrChr(res, 0, '/', len);
    assert s[0..] == s;
    StartReading(s, if slashp < 0 then len else slashp);
    while slashp != -1 && res[slashp] != END
      invariant Holds(res, len) && -1 <= slashp <= len
      invariant Reading(res[..len], if slashp < 0 then len else slashp, head, stack, target)
      decreases if slashp < 0 then -1 else len - slashp
    {
      slashp, len, stack := Turn(res, slashp, len, head, stack, target);
    }
    EndReading(res[..len], if slashp < 0 then len else slashp, head, stack, target);
  }

  /** `absolute_filename`. */
  method AbsoluteFilename(file: string, dir: string) returns (name: string)
    requires CString(file) && CString(dir)
    ensures name == Absolute(file, dir) && CString(name)
  {
    hide Comps, Render, Reduce, Head;
    var res;
    ghost var s := if Rooted(file) then file else dir + file;
    if file != "" && file[0] == '/' {
      res := Concat(file, "");
      assert file + "" == file;
    } else {
      res := Concat(dir, file);
    }
    ghost var len := DeleteDots(res, s);
    var end := StrLen(res, len);
    if res[0] == END {
      return "/";
    } else {
      return res[..end];
    }
  }

  method StrLen(res: array<char>, ghost len: int) returns (n: int)
    requires Holds(res, len)
    ensures n == len
  {
    n := 0;
    while res[n] != END
      invariant 0 <= n <= len
      decreases len - n
    {
      n := n + 1;
    }
  }

  // ----- relative_filename -----

  /** The character at `i` of a string, with the NUL behind its end. */
  function CharOrEnd(s: string, i: nat): char {
    if i < |s| then s[i] else END
  }

  lemma CommonIs(a: string, b: string, d: nat)
    requires d <= |a| && d <= |b| && a[..d] == b[..d]
    requires d < |a| && d < |b| ==> a[d] != b[d]
    ensures Common(a, b) == d
  {
    var c := Common(a, b);
    assert forall k :: 0 <= k < c ==> a[..c][k] == a[k] && b[..c][k] == b[k];
    assert forall k :: 0 <= k < d ==> a[..d][k] == a[k] && b[..d][k] == b[k];
  }

  lemma LastSlashIs(s: string, k: nat)
    requires Rooted(s) && k < |s| && s[k] == '/' && forall j :: k < j < |s| ==> s[j] != '/'
    ensures LastSlash(s) == k
  {
    var l := LastSlash(s);
    assert l <= k && k <= l;
  }

  /** The two loops that find where the ways part. */
  method FindFork(afn: string, dir: string) returns (k: nat)
    requires CString(afn) && CString(dir) && Rooted(afn) && Rooted(dir) && afn != dir
    ensures k == Fork(afn, dir)
    ensures k < |afn| && k < |dir| && afn[k] == '/' && afn[..k + 1] == dir[..k + 1]
    ensures forall j :: k < j < |afn| && j < |dir| && afn[j] == '/' ==> afn[..j + 1] != dir[..j + 1]
  {
    var p := 0;
    while CharOrEnd(afn, p) == CharOrEnd(dir, p)
      invariant p <= |afn| && p <= |dir| && afn[..p] == dir[..p]
      decreases |afn| - p
    {
      if p == |afn| || p == |dir| {
        NulEnds(afn, dir, p);
        assert false;
      }
      assert afn[..p + 1] == afn[..p] + [afn[p]] && dir[..p + 1] == dir[..p] + [dir[p]];
      p := p + 1;
    }
    CommonIs(afn, dir, p);
    ghost var d := p;
    p := p - 1;
    while afn[p] != '/'
      invariant 0 <= p < d
      invariant forall j :: p < j < d ==> afn[j] != '/'
      decreases p
    {
      p := p - 1;
    }
    k := p;
    LastSlashIs(afn[..d], k);
  }

  /** Equal strings are all that is alike up to the NUL of one of them. */
  lemma NulEnds(a: string, b: string, p: nat)
    requires CString(a) && CString(b) && p <= |a| && p <= |b| && a[..p] == b[..p]
    requires CharOrEnd(a, p) == CharOrEnd(b, p) && (p == |a| || p == |b|)
    ensures a == b
  {
    NulIsBehind(a, p);
    NulIsBehind(b, p);
  }

  lemma NulIsBehind(a: string, p: nat)
    requires CString(a) && p <= |a|
    ensures CharOrEnd(a, p) == END <==> p == |a|
  {
    assert p < |a| ==> a[p] in a;
  }

  /** The loop that counts the slashes of `dir` behind `from`. */
  method CountSlashes(dir: string, from: nat) returns (i: nat)
    requires from <= |dir|
    ensures i == Slashes(dir[from..])
  {
    i := 0;
    var dp := from;
    while dp < |dir|
      invariant from <= dp <= |dir|
      invariant i + Slashes(dir[dp..]) == Slashes(dir[from..])
    {
      assert dir[dp..][1..] == dir[dp + 1..];
      if dir[dp] == '/' {
        i := i + 1;
      }
      dp := dp + 1;
    }
  }

  /** `strcat`, with `len` the length of the string in `res`. */
  method StrCat(res: array<char>, len: nat, t: string)
    requires Holds(res, len) && len + |t| < res.Length && CString(t)
    modifies res
    ensures Holds(res, len + |t|) && res[..len + |t|] == old(res[..len]) + t
  {
    ghost var s := res[..len];
    forall k | 0 <= k < |t| {
      res[len + k] := t[k];
    }
    res[len + |t|] := END;
    assert forall k :: 0 <= k < len ==> res[k] == s[k];
    assert forall k :: len <= k < len + |t| ==> res[k] == t[k - len];
    assert res[..len + |t|] == s + t;
  }

  /** The loop that puts `n` times "../" into an empty string. */
  method PutUps(res: array<char>, n: nat)
    requires Holds(res, 0) && 3 * n < res.Length
    modifies res
    ensures Holds(res, 3 * n) && res[..3 * n] == Ups(n)
  {
    hide Ups, CString;
    NoNuls("", 0);
    UpsEnds(n);
    var i, len := n, 0;
    while i > 0
      invariant 0 <= i <= n && len == 3 * (n - i)
      invariant Holds(res, len) && res[..len] + Ups(i) == Ups(n)
    {
      UpsEnds(i);
      assert res[..len] + ("../" + Ups(i - 1)) == res[..len] + "../" + Ups(i - 1);
      StrCat(res, len, "../");
      len := len + 3;
      i := i - 1;
    }
    UpsEnds(0);
    assert res[..len] + "" == res[..len];
  }

  /**
   * `relative_filename`, with `cwd` the static variable; a directory that is the file itself would
   * take its first loop past the end of both strings.  The buffer is just as long as the name and its NUL.
   */
  method RelativeFilename(file: string, dir: string, cwd: string) returns (res: array<char>)
    requires CString(file) && CString(dir) && CString(cwd)
    requires Rooted(file) || Rooted(cwd)
    requires Rooted(dir) && Absolute(file, cwd) != dir
    ensures fresh(res) && Rooted(Absolute(file, cwd))
    ensures res.Length >= 1 && Holds(res, res.Length - 1)
    ensures res[..res.Length - 1] == Relative(Absolute(file, cwd), dir)
    ensures forall p: string, ds: seq<string>, n: string | Parts(Absolute(file, cwd), dir, p, ds, n) :: res[..res.Length - 1] == UpTo(ds, n)
  {
    hide Fork, Absolute, Slashes, CString, Ups, Relative, Parts, UpTo;
    RootedAbsolute(file, cwd);
    var afn := AbsoluteFilename(file, cwd);
    var k := FindFork(afn, dir);
    var fp := afn[k + 1..];
    var i := CountSlashes(dir, k + 1);
    NoNuls(afn, k + 1);
    RelativeIs(afn, dir);
    res := new char[3 * i + |fp| + 1];
    res[0] := END;
    PutUps(res, i);
    StrCat(res, 3 * i, fp);
    forall p: string, ds: seq<string>, n: string | Parts(afn, dir, p, ds, n) ensures res[..res.Length - 1] == UpTo(ds, n) {
      NearestWay(afn, dir, p, ds, n);
    }
  }

  lemma UpsEnds(i: nat)
    ensures Ups(i) == if i == 0 then "" else "../" + Ups(i - 1)
    ensures "" + Ups(i) == Ups(i)
  {
  }

  lemma RelativeIs(afn: string, dir: string)
    requires Rooted(afn) && Rooted(dir)
    ensures var k := Fork(afn, dir);
            Relative(afn, dir) == Ups(Slashes(dir[k + 1..])) + afn[k + 1..]
  {
  }

  lemma RootedAbsolute(file: string, dir: string)
    requires Rooted(file) || Rooted(dir)
    ensures Rooted(Absolute(file, dir))
  {
    AbsoluteIsNormal(file, dir);
  }

  lemma NoNuls(s: string, k: nat)
    requires CString(s) && k <= |s|
    ensures CString(s[k..]) && CString("") && CString("../")
  {
  }

  lemma AbsoluteIsNormal(file: string, dir: string)
    requires Rooted(file) || Rooted(dir)
    ensures Normal(Absolute(file, dir))
  {
    NormalizeIsNormal(if Rooted(file) then file else dir + file);
  }

  /**
   * A file named relative to `dir` and resolved there again: the result is the file's absolute name,
   * exactly unless that name has `dir` and then an empty component in front.
   */
  method ThereAndBack(file: string, dir: string, cwd: string) returns (name: string)
    requires CString(file) && CString(dir) && CString(cwd)
    requires Rooted(file) || Rooted(cwd)
    requires Normal(dir) && dir[|dir| - 1] == '/' && Absolute(file, cwd) != dir
    ensures name == Absolute(file, cwd) <==> !(dir + "/" <= Absolute(file, cwd))
  {
    AbsoluteIsNormal(file, cwd);
    RelativeRoundTrip(Absolute(file, cwd), dir);
    var relative := RelativeFilename(file, dir, cwd);
    name := AbsoluteFilename(relative[..relative.Length - 1], dir);
  }
}
