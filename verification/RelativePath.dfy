/**
 Relative paths between canonical absolute directories, of common/path.c.
 */
module RelativePath {
  import opened Options
  const NUL: char := '\0'

  // ---------------------------------------------------------------- components

  /** The length of the first component. */
  function Run(s: string): (n: nat)
    ensures n <= |s| && (n < |s| ==> s[n] == '/')
  {
    if s == "" || s[0] == '/' then 0 else 1 + Run(s[1..])
  }

  /** The components of a path, absolute or relative. */
  function Comps(s: string): seq<string>
    decreases |s|
  {
    if s == "" then []
    else if s[0] == '/' then Comps(s[1..])
    else [s[..Run(s)]] + Comps(s[Run(s)..])
  }

  /** A string that can follow a component. */
  predicate Follows(s: string) {
    s == "" || s[0] == '/'
  }

  lemma {:induction false} RunOfConcat(p: string, x: string)
    requires Follows(x)
    ensures Run(p + x) == Run(p)
  {
    if p == "" {
      assert p + x == x;
    } else if p[0] != '/' {
      RunOfConcat(p[1..], x);
      assert (p + x)[1..] == p[1..] + x;
    }
  }

  lemma {:induction false} CompsOfConcat(p: string, x: string)
    requires Follows(x)
    ensures Comps(p + x) == Comps(p) + Comps(x)
    decreases |p|
  {
    if p == "" {
      assert p + x == x;
    } else if p[0] == '/' {
      CompsOfConcat(p[1..], x);
      assert (p + x)[1..] == p[1..] + x;
    } else {
      CompsOfConcat(p[Run(p)..], x);
      CompsOfComponent(p, x);
    }
  }

  lemma CompsOfComponent(p: string, x: string)
    requires Follows(x) && p != "" && p[0] != '/' && Comps(p[Run(p)..] + x) == Comps(p[Run(p)..]) + Comps(x)
    ensures Comps(p + x) == Comps(p) + Comps(x)
  {
    hide Comps;
    var n, q := Run(p), p + x;
    RunOfConcat(p, x);
    assert q[..n] == p[..n] && q[n..] == p[n..] + x;
    CompsStep(p);
    CompsStep(q);
  }

  lemma CompsStep(s: string)
    requires s != "" && s[0] != '/'
    ensures Comps(s) == [s[..Run(s)]] + Comps(s[Run(s)..])
  {
  }

  /** What comes after the root: components that are not empty, each after one slash. */
  predicate Tail(s: string)
    decreases |s|
  {
    s == "" || (s[0] == '/' && |s| > 1 && s[1] != '/' && Tail(s[1..][Run(s[1..])..]))
  }

  predicate NoDots(cs: seq<string>) {
    forall i :: 0 <= i < |cs| ==> cs[i] != "." && cs[i] != ".."
  }

  /** A canonical absolute path. */
  predicate Canonical(s: string) {
    (s == "/" || (s != "" && Tail(s))) && NUL !in s && NoDots(Comps(s))
  }

  function Slashes(s: string): nat {
    if s == "" then 0 else (if s[0] == '/' then 1 else 0) + Slashes(s[1..])
  }

  lemma {:induction false} SlashesOfRun(s: string)
    ensures Slashes(s) == Slashes(s[Run(s)..])
  {
    if s == "" || s[0] == '/' {
      assert s[0..] == s;
    } else {
      SlashesOfRun(s[1..]);
      assert s[1..][Run(s[1..])..] == s[Run(s)..];
    }
  }

  /** A tail has as many slashes as components. */
  lemma {:induction false} SlashesAreComps(s: string)
    requires Tail(s)
    ensures Slashes(s) == |Comps(s)|
    decreases |s|
  {
    if s != "" {
      var t := s[1..];
      SlashesOfRun(t);
      SlashesAreComps(t[Run(t)..]);
    }
  }

  /** A tail can be split before every slash. */
  lemma {:induction false} TailOfTail(s: string, i: nat)
    requires Tail(s) && i <= |s| && Follows(s[i..])
    ensures Tail(s[i..])
    decreases |s|
  {
    if 0 < i {
      var t := s[1..];
      var n := Run(t);
      RunHasNoSlash(t, i - 1);
      assert t[n..][i - 1 - n..] == s[i..];
      TailOfTail(t[n..], i - 1 - n);
    } else {
      assert s[0..] == s;
    }
  }

  lemma {:induction false} RunHasNoSlash(s: string, i: nat)
    requires i <= |s| && (i < |s| ==> s[i] == '/')
    ensures Run(s) <= i
  {
    if s != "" && s[0] != '/' {
      RunHasNoSlash(s[1..], i - 1);
    }
  }

  // ---------------------------------------------------------------- resolution

  /** Where a relative path leads. */
  function Resolve(base: seq<string>, rel: seq<string>): seq<string>
    decreases |rel|
  {
    if rel == [] then base
    else if rel[0] == "." then Resolve(base, rel[1..])
    else if rel[0] == ".." then Resolve(if base == [] then [] else base[..|base| - 1], rel[1..])
    else Resolve(base + [rel[0]], rel[1..])
  }

  function Ups(n: nat): seq<string> {
    seq(n, _ => "..")
  }

  lemma {:induction false} ResolveUps(a: seq<string>, b: seq<string>, rest: seq<string>)
    ensures Resolve(a + b, Ups(|b|) + rest) == Resolve(a, rest)
  {
    if b == [] {
      assert a + b == a && Ups(0) + rest == rest;
    } else {
      var n := |b| - 1;
      ResolveUps(a, b[..n], rest);
      assert (a + b)[..|a| + n] == a + b[..n];
      assert (Ups(|b|) + rest)[1..] == Ups(n) + rest && (Ups(|b|) + rest)[0] == "..";
    }
  }

  lemma {:induction false} ResolveDown(a: seq<string>, x: seq<string>)
    requires NoDots(x)
    ensures Resolve(a, x) == a + x
    decreases |x|
  {
    if x == [] {
      assert a + x == a;
    } else {
      ResolveDown(a + [x[0]], x[1..]);
      assert a + [x[0]] + x[1..] == a + x;
    }
  }

  // ---------------------------------------------------------------- the common part

  /** A character of a C string, or its terminator. */
  function At(s: string, i: nat): char
    requires i <= |s|
  {
    if i == |s| then NUL else s[i]
  }

  /** The component after a slash. */
  function First(s: string): string
    requires s != ""
  {
    s[1..][..Run(s[1..])]
  }

  lemma {:induction false} RunIs(s: string, n: nat)
    requires n <= |s| && '/' !in s[..n] && (n < |s| ==> s[n] == '/')
    ensures Run(s) == n
  {
    if n > 0 {
      assert s[0] == s[..n][0] && s[1..][..n - 1] == s[..n][1..];
      RunIs(s[1..], n - 1);
    }
  }

  lemma {:induction false} RunPast(s: string, n: nat)
    requires n <= |s| && '/' !in s[..n]
    ensures n <= Run(s)
  {
    if n > 0 {
      assert s[0] == s[..n][0] && s[1..][..n - 1] == s[..n][1..];
      RunPast(s[1..], n - 1);
    }
  }

  /** Two paths that are the same after a slash, up to different characters before the next one, part there. */
  lemma PartWays(x: string, y: string, n: nat)
    requires x != "" && y != "" && n <= |x[1..]| && n <= |y[1..]| && x[1..][..n] == y[1..][..n] && '/' !in x[1..][..n]
    requires n < |x[1..]| ==> n == |y[1..]| || x[1..][n] != y[1..][n]
    requires n == |x[1..]| || x[1..][n] == '/' ==> n < |y[1..]| && y[1..][n] != '/'
    ensures First(x) != First(y)
  {
    var s, t := x[1..], y[1..];
    RunPast(s, n);
    RunPast(t, n);
    if n == |s| || s[n] == '/' {
      RunIs(s, n);
      assert '/' !in t[..n + 1] by {
        assert t[..n + 1] == t[..n] + [t[n]];
      }
      RunPast(t, n + 1);
    } else {
      assert '/' !in s[..n + 1] by {
        assert s[..n + 1] == s[..n] + [s[n]];
      }
      RunPast(s, n + 1);
      assert First(x)[n] == s[n];
      assert |First(y)| > n ==> First(y)[n] == t[n];
    }
  }

  /** The scan for the common leading directories */
  method FindCommon(dir: string, base: string) returns (i: nat, lastSlash: nat)
    requires Canonical(dir) && Canonical(base)
    ensures i <= |dir| && i <= |base| && (i == |dir| == |base| <==> dir == base)
    ensures lastSlash <= |dir| && lastSlash <= |base| && dir[..lastSlash] == base[..lastSlash]
    ensures Follows(dir[lastSlash..]) && Follows(base[lastSlash..])
    ensures dir != base && lastSlash < |dir| && lastSlash < |base| ==> First(dir[lastSlash..]) != First(base[lastSlash..])
  {
    hide Tail, Comps, Run;
    Beginning(dir);
    Beginning(base);
    lastSlash := 0;
    i := 1;
    while true
      invariant 1 <= i <= |dir| && i <= |base| && dir[..i] == base[..i]
      invariant lastSlash < i && dir[lastSlash] == '/' && '/' !in dir[lastSlash + 1..i]
      decreases |dir| - i
    {
      var dirC, baseC := At(dir, i), At(base, i);
      if dirC == NUL {
        if baseC == '/' {
          lastSlash := i;
        } else if dir != base {
          Parting(dir, base, lastSlash, i);
        }
        break;
      } else if dirC == '/' {
        if baseC == '/' || baseC == NUL {
          lastSlash := i;
        }
        if baseC != '/' {
          if baseC != NUL {
            Parting(dir, base, lastSlash, i);
          }
          break;
        }
      } else {
        if dirC != baseC {
          Parting(dir, base, lastSlash, i);
          break;
        }
      }
      assert dir[..i + 1] == dir[..i] + [dir[i]] && base[..i + 1] == base[..i] + [base[i]];
      i := i + 1;
    }
    assert dir[..lastSlash] == dir[..i][..lastSlash] == base[..i][..lastSlash] == base[..lastSlash];
    assert dir[..|dir|] == dir && base[..|base|] == base;
  }

  lemma Beginning(s: string)
    requires Canonical(s)
    ensures s != "" && s[0] == '/' && forall i :: 0 <= i < |s| ==> s[i] != NUL
  {
  }

  lemma Parting(dir: string, base: string, last: nat, i: nat)
    requires last < i <= |dir| && i <= |base| && dir[..i] == base[..i] && '/' !in dir[last + 1..i]
    requires i < |dir| ==> i == |base| || dir[i] != base[i]
    requires i == |dir| || dir[i] == '/' ==> i < |base| && base[i] != '/'
    ensures First(dir[last..]) != First(base[last..])
  {
    var x, y, n := dir[last..], base[last..], i - last - 1;
    assert x[1..] == dir[last + 1..] && y[1..] == base[last + 1..];
    assert dir[last + 1..i] == dir[..i][last + 1..] && base[last + 1..i] == base[..i][last + 1..];
    assert x[1..][..n] == dir[last + 1..i] && y[1..][..n] == base[last + 1..i];
    PartWays(x, y, n);
  }

  // ---------------------------------------------------------------- the relative path

  /** How many components two paths have in common at the beginning. */
  function Common(a: seq<string>, b: seq<string>): (k: nat)
    ensures k <= |a| && k <= |b|
  {
    if a == [] || b == [] || a[0] != b[0] then 0 else 1 + Common(a[1..], b[1..])
  }

  lemma {:induction false} CommonIs(p: seq<string>, a: seq<string>, b: seq<string>)
    requires a == [] || b == [] || a[0] != b[0]
    ensures Common(p + a, p + b) == |p|
  {
    if p == [] {
      assert p + a == a && p + b == b;
    } else {
      CommonIs(p[1..], a, b);
      assert (p + a)[1..] == p[1..] + a && (p + b)[1..] == p[1..] + b;
    }
  }

  /** The shortest way from `base` to `dir`: up to where they part, and down again. */
  function Way(dir: seq<string>, base: seq<string>): seq<string> {
    if dir == base then ["."]
    else Ups(|base| - Common(dir, base)) + dir[Common(dir, base)..]
  }

  lemma {:induction false} CommonTaken(a: seq<string>, b: seq<string>)
    ensures a[..Common(a, b)] == b[..Common(a, b)]
  {
    if a != [] && b != [] && a[0] == b[0] {
      CommonTaken(a[1..], b[1..]);
      var k := Common(a[1..], b[1..]);
      assert a[..k + 1] == [a[0]] + a[1..][..k] && b[..k + 1] == [b[0]] + b[1..][..k];
    }
  }

  /** The way leads to where it should, and is a dot exactly when there is nowhere to go. */
  lemma WayLeads(dir: seq<string>, base: seq<string>)
    requires NoDots(dir)
    ensures Resolve(base, Way(dir, base)) == dir
    ensures Way(dir, base) == ["."] <==> dir == base
  {
    if dir == base {
      assert ["."][1..] == [];
    } else {
      var k := Common(dir, base);
      CommonTaken(dir, base);
      ResolveUps(base[..k], base[k..], dir[k..]);
      assert base[..k] + base[k..] == base;
      ResolveDown(dir[..k], dir[k..]);
      assert dir[..k] + dir[k..] == dir;
      assert Way(dir, base) != [] ==> Way(dir, base)[0] == ".." || Way(dir, base)[0] == dir[k];
    }
  }

  /** ".." as often as needed, separated by slashes. */
  function UpString(n: nat): string {
    if n == 0 then "" else if n == 1 then ".." else UpString(n - 1) + "/.."
  }

  /** Components with single slashes between them. */
  function Joined(cs: seq<string>): string {
    if cs == [] then "" else if |cs| == 1 then cs[0] else cs[0] + "/" + Joined(cs[1..])
  }

  lemma {:induction false} JoinedConcat(a: seq<string>, b: seq<string>)
    requires a != [] && b != []
    ensures Joined(a + b) == Joined(a) + ("/" + Joined(b))
  {
    if |a| == 1 {
      assert (a + b)[1..] == b;
      assert a[0] + "/" + Joined(b) == a[0] + ("/" + Joined(b));
    } else {
      JoinedConcat(a[1..], b);
      assert (a + b)[1..] == a[1..] + b;
      assert a[0] + "/" + (Joined(a[1..]) + ("/" + Joined(b))) == a[0] + "/" + Joined(a[1..]) + ("/" + Joined(b));
    }
  }

  lemma {:induction false} UpsJoined(n: nat)
    requires n > 0
    ensures UpString(n) == Joined(Ups(n))
  {
    if n > 1 {
      UpsJoined(n - 1);
      assert Ups(n) == Ups(n - 1) + [".."];
      JoinedConcat(Ups(n - 1), [".."]);
    }
  }

  /** What comes after the root is its components, joined. */
  lemma {:induction false} TailJoined(s: string)
    requires s != "" && Tail(s)
    ensures Comps(s) != [] && s[1..] == Joined(Comps(s))
    decreases |s|
  {
    var t := s[1..];
    var n := Run(t);
    var rest := t[n..];
    assert Comps(s) == Comps(t) == [t[..n]] + Comps(rest);
    assert t == t[..n] + rest;
    if rest != "" {
      TailJoined(rest);
      assert rest == "/" + rest[1..];
      JoinedConcat([t[..n]], Comps(rest));
    }
  }

  /** A path that begins with a component, has single slashes between components and ends with one. */
  ghost predicate IsRelative(s: string) {
    s != "" && s[0] != '/' && s[|s| - 1] != '/' && forall i :: 0 <= i < |s| - 1 ==> s[i] != '/' || s[i + 1] != '/'
  }

  predicate AreComps(cs: seq<string>) {
    forall i :: 0 <= i < |cs| ==> cs[i] != "" && '/' !in cs[i]
  }

  /** Joined components are a relative path. */
  lemma {:induction false} JoinedIsRelative(cs: seq<string>)
    requires cs != [] && AreComps(cs)
    ensures IsRelative(Joined(cs))
  {
    if |cs| > 1 {
      JoinedIsRelative(cs[1..]);
      RelativeConcat(cs[0], Joined(cs[1..]));
    } else {
      assert forall i :: 0 <= i < |cs[0]| ==> cs[0][i] in cs[0];
    }
  }

  lemma RelativeConcat(c: string, r: string)
    requires c != "" && '/' !in c && IsRelative(r)
    ensures IsRelative(c + "/" + r)
  {
    var s := c + "/" + r;
    assert forall i :: 0 <= i < |c| ==> s[i] == c[i] && c[i] in c;
    assert s[|c|] == '/';
    assert forall i :: 0 <= i < |r| ==> s[|c| + 1 + i] == r[i];
    forall i | 0 <= i < |s| - 1 ensures s[i] != '/' || s[i + 1] != '/' {
      if i > |c| {
        assert s[i] == r[i - |c| - 1] && s[i + 1] == r[i - |c|];
      }
    }
  }

  lemma {:induction false} CompsAreComps(s: string)
    ensures AreComps(Comps(s))
    decreases |s|
  {
    if s != "" {
      if s[0] == '/' {
        CompsAreComps(s[1..]);
      } else {
        CompsAreComps(s[Run(s)..]);
        RunIsComp(s);
      }
    }
  }

  lemma {:induction false} RunIsComp(s: string)
    ensures '/' !in s[..Run(s)]
  {
    if s != "" && s[0] != '/' {
      RunIsComp(s[1..]);
      assert s[..Run(s)] == [s[0]] + s[1..][..Run(s[1..])];
    }
  }

  lemma WayIsComps(dir: seq<string>, base: seq<string>)
    requires AreComps(dir)
    ensures AreComps(Way(dir, base))
  {
  }

  /** The first part of the result: up from `base` to the last common slash */
  method Ascend(base: string, lastSlash: nat) returns (rel: Option<string>)
    requires lastSlash <= |base| && Tail(base[lastSlash..]) && NUL !in base
    ensures var n := |Comps(base[lastSlash..])|; rel == if n == 0 then None else Some(UpString(n))
  {
    hide Tail, Comps;
    SlashesAreComps(base[lastSlash..]);
    rel := None;
    var i := lastSlash;
    ghost var count := 0;
    while At(base, i) != NUL
      invariant lastSlash <= i <= |base| && count + Slashes(base[i..]) == Slashes(base[lastSlash..])
      invariant rel == if count == 0 then None else Some(UpString(count))
      decreases |base| - i
    {
      assert base[i..][1..] == base[i + 1..];
      if base[i] == '/' {
        if rel.Some? {
          assert rel.value + "/" + ".." == rel.value + "/..";
          rel := Some(rel.value + "/" + "..");
        } else {
          rel := Some("..");
        }
        count := count + 1;
      }
      i := i + 1;
    }
  }

  /** There is a component of its own after position `i`. */
  predicate HasOwn(s: string, i: nat)
    requires i <= |s|
  {
    At(s, i) == '/' && At(s, i + 1) != NUL
  }

  lemma SplitComps(s: string, i: nat)
    requires i <= |s| && Follows(s[i..])
    ensures Comps(s) == Comps(s[..i]) + Comps(s[i..])
  {
    hide Comps;
    CompsOfConcat(s[..i], s[i..]);
    assert s[..i] + s[i..] == s;
  }

  /** What is left of a canonical path is empty, the root, or begins with a component. */
  lemma RestOfPath(s: string, i: nat)
    requires Canonical(s) && i <= |s| && Follows(s[i..])
    ensures if HasOwn(s, i) then i < |s| && Tail(s[i..]) else i == |s| || (i == 0 && s == "/")
  {
    hide Comps;
    if s == "/" {
      assert i == 0 || i == 1;
    } else {
      TailOfTail(s, i);
      assert i + 1 < |s| ==> s[i + 1] in s;
      TailNotSlash(s[i..]);
    }
  }

  lemma TailNotSlash(s: string)
    requires Tail(s)
    ensures s != "" ==> |s| > 1
  {
  }

  lemma CompsOfTail(s: string)
    requires s != "" && Tail(s)
    ensures Comps(s) != [] && Comps(s)[0] == First(s) && Comps(s) == Comps(s[1..])
  {
  }

  lemma NoComps()
    ensures Comps("") == [] && Comps("/") == []
  {
    assert "/"[1..] == "";
  }

  /** The components after a common part, as they follow from where the scan stopped. */
  lemma Parts(dir: string, base: string, last: nat)
    requires Canonical(dir) && Canonical(base) && dir != base
    requires last <= |dir| && last <= |base| && dir[..last] == base[..last]
    requires Follows(dir[last..]) && Follows(base[last..])
    requires last < |dir| && last < |base| ==> First(dir[last..]) != First(base[last..])
    ensures HasOwn(base, last) ==> last < |base| && Tail(base[last..])
    ensures HasOwn(dir, last) ==> last < |dir| && Tail(dir[last..])
    ensures HasOwn(base, last) <==> Comps(base[last..]) != []
    ensures HasOwn(dir, last) <==> Comps(dir[last..]) != []
    ensures HasOwn(base, last) || HasOwn(dir, last)
    ensures Comps(dir) != Comps(base)
    ensures Way(Comps(dir), Comps(base)) == Ups(|Comps(base[last..])|) + Comps(dir[last..])
  {
    hide Comps, First, Tail, Canonical;
    Beginning(dir);
    Beginning(base);
    RestOfPath(dir, last);
    RestOfPath(base, last);
    NoComps();
    SplitComps(dir, last);
    SplitComps(base, last);
    assert last == |dir| ==> dir[last..] == "" && dir[..last] == dir;
    assert last == |base| ==> base[last..] == "" && base[..last] == base;
    assert last == 0 ==> dir[last..] == dir && base[last..] == base;
    if HasOwn(dir, last) {
      CompsOfTail(dir[last..]);
      assert dir[last..][1..] == dir[last + 1..];
    }
    if HasOwn(base, last) {
      CompsOfTail(base[last..]);
    }
    WayOfParts(Comps(dir[..last]), Comps(dir[last..]), Comps(base[last..]));
  }

  lemma WayOfParts(p: seq<string>, a: seq<string>, b: seq<string>)
    requires a == [] || b == [] || a[0] != b[0]
    requires a != [] || b != []
    ensures p + a != p + b && Way(p + a, p + b) == Ups(|b|) + a
  {
    CommonIs(p, a, b);
    assert (p + a)[|p|..] == a && (p + b)[|p|..] == b;
  }

  /** The second part of the result: down to `dir` */
  method Descend(rel: Option<string>, dir: string, lastSlash: nat, ghost up: nat) returns (r: Option<string>)
    requires lastSlash < |dir| && Tail(dir[lastSlash..])
    requires rel == if up == 0 then None else Some(UpString(up))
    ensures r == Some(Joined(Ups(up) + Comps(dir[lastSlash..])))
  {
    hide Tail, Comps, UpString, Joined;
    ghost var down := Comps(dir[lastSlash..]);
    TailJoined(dir[lastSlash..]);
    assert dir[lastSlash..][1..] == dir[lastSlash + 1..];
    if rel.Some? {
      UpsJoined(up);
      JoinedConcat(Ups(up), down);
      r := Some(rel.value + "/");
      assert r.value + dir[lastSlash + 1..] == rel.value + ("/" + dir[lastSlash + 1..]);
      r := Some(r.value + dir[lastSlash + 1..]);
    } else {
      assert Ups(0) + down == down;
      r := Some(dir[lastSlash + 1..]);
    }
  }

  /** `get_relative_dir` of canonical paths: the shortest way from `base` to `dir` */
  method GetRelativeDir(dir: string, base: string) returns (rel: Option<string>)
    requires Canonical(dir) && Canonical(base)
    ensures rel == Some(Joined(Way(Comps(dir), Comps(base)))) && IsRelative(rel.value)
    ensures Comps(rel.value) == Way(Comps(dir), Comps(base))
    ensures Resolve(Comps(base), Comps(rel.value)) == Comps(dir)
    ensures rel.value == "." <==> dir == base
  {
    hide Tail, Comps, Resolve, Run, First, Canonical, Way, Joined, UpString, IsRelative, AreComps;
    var i, last := FindCommon(dir, base);
    Beginnings(dir, base);
    ghost var way := Way(Comps(dir), Comps(base));
    WayLeads(Comps(dir), Comps(base));
    JoinedWay(Comps(dir), Comps(base), dir);
    CompsOfDot();
    if At(dir, i) == NUL && At(base, i) == NUL {
      WayToItself(Comps(dir));
      rel := Some(".");
    } else {
      Parts(dir, base, last);
      rel := None;
      ghost var up := |Comps(base[last..])|;
      if At(base, last) == '/' && At(base, last + 1) != NUL {
        rel := Ascend(base, last);
        UpsJoined(up);
      }
      assert Ups(up) + [] == Ups(up);
      if At(dir, last) == '/' && At(dir, last + 1) != NUL {
        rel := Descend(rel, dir, last, up);
      }
    }
  }

  /** The joined way is a relative path with these components. */
  lemma JoinedWay(dir: seq<string>, base: seq<string>, path: string)
    requires dir == Comps(path)
    ensures IsRelative(Joined(Way(dir, base))) && Comps(Joined(Way(dir, base))) == Way(dir, base)
  {
    hide Comps, IsRelative, Joined, AreComps;
    CompsAreComps(path);
    WayIsComps(dir, base);
    WayNotEmpty(dir, base);
    JoinedIsRelative(Way(dir, base));
    CompsOfJoined(Way(dir, base));
  }

  lemma WayNotEmpty(dir: seq<string>, base: seq<string>)
    ensures Way(dir, base) != []
  {
    CommonTaken(dir, base);
    if |base| == Common(dir, base) == |dir| {
      assert dir[..|dir|] == dir && base[..|base|] == base;
    }
  }

  lemma {:induction false} CompsOfJoined(cs: seq<string>)
    requires AreComps(cs)
    ensures Comps(Joined(cs)) == cs
  {
    if cs != [] {
      CompsOfOne(cs[0]);
      if |cs| > 1 {
        CompsOfJoined(cs[1..]);
        var rest := "/" + Joined(cs[1..]);
        CompsOfConcat(cs[0], rest);
        assert rest[1..] == Joined(cs[1..]);
        assert cs[0] + rest == Joined(cs);
      }
    }
  }

  lemma CompsOfOne(c: string)
    requires c != "" && '/' !in c
    ensures Comps(c) == [c]
  {
    assert c[..|c|] == c && c[0] in c;
    RunIs(c, |c|);
    assert c[|c|..] == "";
  }

  lemma Beginnings(dir: string, base: string)
    requires Canonical(dir) && Canonical(base)
    ensures NUL !in dir && NUL !in base && NoDots(Comps(dir))
  {
  }

  lemma CompsOfDot()
    ensures Comps(".") == ["."]
  {
    assert "."[1..] == "" && "."[..1] == ".";
    assert Run(".") == 1 + Run("");
  }

  lemma WayToItself(cs: seq<string>)
    ensures Way(cs, cs) == ["."] && Joined(["."]) == "."
  {
  }
}
