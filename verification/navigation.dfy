/** Path resolution (`emulator.py`): `get_path` walks a relative path one
    segment at a time, committing only if every segment is a name of the view
    reached so far, and `cd` turns a `cd` argument (`..`, `~/`, `/`, `.` or a
    relative path) into the new current path. */
module Navigation {
  import opened PyStr
  import opened Archive

  /** The path reached from `cp` by appending `"/" + s` for each segment `s`,
      as the loop of `get_path` builds it. */
  function Descend(cp: string, segs: seq<string>): (r: string)
    ensures |r| >= |cp| + |segs| && r[..|cp|] == cp
    decreases |segs|
  {
    if segs == [] then cp
    else
      var r := Descend(cp + "/" + segs[0], segs[1..]);
      assert r[..|cp|] == r[..|cp + "/" + segs[0]|][..|cp|];
      r
  }

  /** The view in force when segment `k` of `segs` is looked up: the one
      handed in for the first segment, then the view recomputed at the path
      reached so far. */
  function ViewBefore(files: Archive, view: View, cp: string, segs: seq<string>, k: nat): View
    requires k <= |segs|
  {
    if k == 0 then view else GetFiles(files, Descend(cp, segs[..k]))
  }

  /** Every segment is a name of the view reached just before it. */
  ghost predicate Reachable(files: Archive, view: View, cp: string, segs: seq<string>) {
    forall k :: 0 <= k < |segs| ==> segs[k] in ViewBefore(files, view, cp, segs, k).entities
  }

  /** A path is reachable exactly when its first segment is a name of the
      view and the rest is reachable from the path that segment leads to. */
  lemma ReachableStep(files: Archive, view: View, cp: string, segs: seq<string>)
    requires segs != []
    ensures Reachable(files, view, cp, segs) <==>
      && segs[0] in view.entities
      && Reachable(files, GetFiles(files, cp + "/" + segs[0]), cp + "/" + segs[0], segs[1..])
  {
    var next := cp + "/" + segs[0];
    forall k | 1 <= k < |segs|
      ensures ViewBefore(files, view, cp, segs, k) == ViewBefore(files, GetFiles(files, next), next, segs[1..], k - 1)
    {
      ViewBeforeShift(files, view, cp, segs, k);
    }
    if Reachable(files, GetFiles(files, next), next, segs[1..]) && segs[0] in view.entities {
      ReachableCons(files, view, cp, segs);
    }
    if Reachable(files, view, cp, segs) {
      assert segs[0] in ViewBefore(files, view, cp, segs, 0).entities;
      ReachableTail(files, view, cp, segs);
    }
  }

  /** The view before segment `k` is the view before segment `k - 1` of the
      rest, walked from the path the first segment leads to. */
  lemma ViewBeforeShift(files: Archive, view: View, cp: string, segs: seq<string>, k: nat)
    requires 1 <= k <= |segs|
    ensures ViewBefore(files, view, cp, segs, k) ==
      ViewBefore(files, GetFiles(files, cp + "/" + segs[0]), cp + "/" + segs[0], segs[1..], k - 1)
  {
    assert segs[..k][0] == segs[0];
    assert segs[..k][1..] == segs[1..][..k - 1];
  }

  /** A listed first segment and a reachable rest make the whole path
      reachable. */
  lemma ReachableCons(files: Archive, view: View, cp: string, segs: seq<string>)
    requires segs != [] && segs[0] in view.entities
    requires forall k :: 1 <= k < |segs| ==>
      ViewBefore(files, view, cp, segs, k) == ViewBefore(files, GetFiles(files, cp + "/" + segs[0]), cp + "/" + segs[0], segs[1..], k - 1)
    requires Reachable(files, GetFiles(files, cp + "/" + segs[0]), cp + "/" + segs[0], segs[1..])
    ensures Reachable(files, view, cp, segs)
  {
    forall k | 0 <= k < |segs| ensures segs[k] in ViewBefore(files, view, cp, segs, k).entities {
      if k > 0 {
        assert segs[k] == segs[1..][k - 1];
      }
    }
  }

  /** The rest of a reachable path is reachable from where its first
      segment leads. */
  lemma ReachableTail(files: Archive, view: View, cp: string, segs: seq<string>)
    requires segs != []
    requires forall k :: 1 <= k < |segs| ==>
      ViewBefore(files, view, cp, segs, k) == ViewBefore(files, GetFiles(files, cp + "/" + segs[0]), cp + "/" + segs[0], segs[1..], k - 1)
    requires Reachable(files, view, cp, segs)
    ensures Reachable(files, GetFiles(files, cp + "/" + segs[0]), cp + "/" + segs[0], segs[1..])
  {
    var next := cp + "/" + segs[0];
    forall k | 0 <= k < |segs| - 1
      ensures segs[1..][k] in ViewBefore(files, GetFiles(files, next), next, segs[1..], k).entities
    {
      assert segs[k + 1] in ViewBefore(files, view, cp, segs, k + 1).entities;
    }
  }

  /** The loop of `get_path`: `Some` of the path reached when every segment
      is found, `None` when it breaks at a missing one. */
  function Walk(files: Archive, view: View, cp: string, segs: seq<string>): (r: Option<string>)
    ensures r == if Reachable(files, view, cp, segs) then Some(Descend(cp, segs)) else None
    decreases |segs|
  {
    if segs == [] then Some(cp)
    else
      ReachableStep(files, view, cp, segs);
      if segs[0] in view.entities then
        var next := cp + "/" + segs[0];
        Walk(files, GetFiles(files, next), next, segs[1..])
      else None
  }

  /** `get_path(filesystem, data, current_path, path)`: all or nothing. The
      result is either `cp` itself, when some segment is missing from the view
      at that step, or `cp` followed by every segment of `path`. */
  function GetPath(files: Archive, view: View, cp: string, path: string): (r: string)
    ensures r == if Reachable(files, view, cp, Segments(path)) then Descend(cp, Segments(path)) else cp
    ensures r != cp ==> |r| > |cp|
  {
    match Walk(files, view, cp, Segments(path))
    case Some(p) => p
    case None => cp
  }

  /** The current path with its last segment dropped, as `cd ..` computes it;
      "" at root. */
  function Parent(cp: string): string {
    var segs := Segments(cp);
    Canonical(segs[..|segs| - 1])
  }

  /** The argument with one leading slash removed, if it has one. */
  function DropSlash(path: string): string {
    if StartsWith(path, "/") then path[1..] else path
  }

  /** The argument with a leading `.`, and then one slash, removed. */
  function DropDot(path: string): string {
    if StartsWith(path, ".") then DropSlash(path[1..]) else path
  }

  /** `cd(filesystem, current_path, path)`. Each leading `..` moves to the
      parent and the rest of the argument, with one slash stripped, is
      resolved from there; `~/` and `/` resolve from root; anything else,
      after an optional `.` and `/`, is resolved from the current path. */
  function Cd(files: Archive, cp: string, path: string): string
    decreases |path|
  {
    if StartsWith(path, "..") then
      Cd(files, Parent(cp), DropSlash(path[2..]))
    else if StartsWith(path, "~/") || StartsWith(path, "/") then
      var p := if StartsWith(path, "~/") then path[1..] else path;
      GetPath(files, GetFiles(files, ""), "", p[1..])
    else
      GetPath(files, GetFiles(files, cp), cp, DropDot(path))
  }

  /** An argument `cd` resolves from the current path as it stands. */
  predicate Relative(path: string) {
    !StartsWith(path, ".") && !StartsWith(path, "/") && !StartsWith(path, "~/")
  }

  /** `cd` with a relative argument is all or nothing: it descends through
      every segment, or leaves the current path as it was. */
  lemma CdRelative(files: Archive, cp: string, path: string)
    requires Relative(path)
    ensures Cd(files, cp, path) ==
      if Reachable(files, GetFiles(files, cp), cp, Segments(path))
      then Descend(cp, Segments(path)) else cp
  {
  }

  /** `cd /p` and `cd ~/p` both resolve `p` from root, wherever they start. */
  lemma CdAbsolute(files: Archive, cp: string, cp': string, p: string)
    ensures Cd(files, cp, "/" + p) == Cd(files, cp', "~/" + p)
    ensures Cd(files, cp, "/" + p) ==
      if Reachable(files, GetFiles(files, ""), "", Segments(p)) then Descend("", Segments(p)) else ""
  {
    var slash, tilde := "/" + p, "~/" + p;
    assert slash[0] == '/' && tilde[0] == '~' && tilde[1] == '/';
    assert !StartsWith(slash, "..") && StartsWith(slash, "/");
    assert !StartsWith(tilde, "..") && StartsWith(tilde, "~/");
    assert slash[1..] == p && tilde[1..][1..] == p;
    assert Cd(files, cp, slash) == GetPath(files, GetFiles(files, ""), "", p);
    assert Cd(files, cp', tilde) == GetPath(files, GetFiles(files, ""), "", p);
  }

  /** A walk whose first segment is missing goes nowhere. */
  lemma GetPathFirstMissing(files: Archive, view: View, cp: string, path: string)
    requires Segments(path)[0] !in view.entities
    ensures GetPath(files, view, cp, path) == cp
  {
    assert ViewBefore(files, view, cp, Segments(path), 0) == view;
  }

  /** An empty remaining path is the one segment "", which a view holds
      only if some entry has an empty segment at that level. */
  lemma GetPathEmpty(files: Archive, cp: string)
    requires "" !in GetFiles(files, cp).entities
    ensures GetPath(files, GetFiles(files, cp), cp, "") == cp
  {
    assert Strip("", Slash) == "";
    assert Segments("") == [""];
    GetPathFirstMissing(files, GetFiles(files, cp), cp, "");
  }

  /** `cd`, `cd .` and `cd ./` stay put, unless some entry has an empty
      segment at this level (an entry name with a doubled slash). */
  lemma CdHere(files: Archive, cp: string)
    requires "" !in GetFiles(files, cp).entities
    ensures Cd(files, cp, "") == cp
    ensures Cd(files, cp, ".") == cp
    ensures Cd(files, cp, "./") == cp
  {
    CdEmpty(files, cp);
    CdDot(files, cp);
    CdDotSlash(files, cp);
  }

  lemma CdEmpty(files: Archive, cp: string)
    requires "" !in GetFiles(files, cp).entities
    ensures Cd(files, cp, "") == cp
  {
    GetPathEmpty(files, cp);
    CdFromHere(files, cp, "");
  }

  lemma CdDot(files: Archive, cp: string)
    requires "" !in GetFiles(files, cp).entities
    ensures Cd(files, cp, ".") == cp
  {
    GetPathEmpty(files, cp);
    DotArguments();
    CdFromHere(files, cp, ".");
  }

  lemma CdDotSlash(files: Archive, cp: string)
    requires "" !in GetFiles(files, cp).entities
    ensures Cd(files, cp, "./") == cp
  {
    GetPathEmpty(files, cp);
    DotArguments();
    CdFromHere(files, cp, "./");
  }

  /** `.` and `./` are resolved from the current path, and what is left of
      either once the dot and slash are dropped is empty. */
  lemma DotArguments()
    ensures !StartsWith(".", "..") && !StartsWith(".", "~/") && !StartsWith(".", "/")
    ensures !StartsWith("./", "..") && !StartsWith("./", "~/") && !StartsWith("./", "/")
    ensures DropDot(".") == "" && DropDot("./") == ""
  {
    assert "./"[1..] == "/";
    assert "."[0] != "~/"[0] && "./"[0] != "~/"[0];
    assert "."[0] != "/"[0] && "./"[0] != "/"[0];
  }

  /** An argument that starts with none of `..`, `~/` and `/` is resolved
      from the current path, less a leading `.` and slash. */
  lemma CdFromHere(files: Archive, cp: string, path: string)
    requires !StartsWith(path, "..") && !StartsWith(path, "~/") && !StartsWith(path, "/")
    ensures Cd(files, cp, path) == GetPath(files, GetFiles(files, cp), cp, DropDot(path))
  {
  }

  /** `cd ..` drops the last segment of a canonical path; at root it stays
      at root. */
  lemma ParentCanonical(segs: seq<string>)
    requires ValidSegments(segs)
    ensures segs == [] ==> Parent(Canonical(segs)) == ""
    ensures segs != [] ==> Parent(Canonical(segs)) == Canonical(segs[..|segs| - 1])
  {
    if segs == [] {
      assert Segments("") == [""];
    } else {
      LevelCanonical(segs);
    }
  }

  /** `cd ..rest` moves to the parent and resolves `rest`, less one leading
      slash, from there; if that fails, the result is the parent itself. */
  lemma CdParent(files: Archive, cp: string, rest: string)
    requires Relative(if StartsWith(rest, "/") then rest[1..] else rest)
    ensures var p := if StartsWith(rest, "/") then rest[1..] else rest;
      Cd(files, cp, ".." + rest) ==
        if Reachable(files, GetFiles(files, Parent(cp)), Parent(cp), Segments(p))
        then Descend(Parent(cp), Segments(p)) else Parent(cp)
  {
    assert (".." + rest)[2..] == rest;
    var p := if StartsWith(rest, "/") then rest[1..] else rest;
    CdRelative(files, Parent(cp), p);
  }

  lemma {:induction false} JoinSnoc(segs: seq<string>, n: string)
    requires segs != []
    ensures Join(segs + [n], '/') == Join(segs, '/') + "/" + n
  {
    if |segs| > 1 {
      JoinSnoc(segs[1..], n);
      assert (segs + [n])[1..] == segs[1..] + [n];
    }
  }

  /** Descending into one segment extends a canonical path by it. */
  lemma CanonicalSnoc(segs: seq<string>, n: string)
    ensures Canonical(segs) + "/" + n == Canonical(segs + [n])
  {
    if segs != [] {
      JoinSnoc(segs, n);
    }
  }

  /** A single name of the view, without slashes, is one step down. */
  lemma GetPathOne(files: Archive, view: View, cp: string, n: string)
    requires n in view.entities && n != [] && '/' !in n
    ensures GetPath(files, view, cp, n) == cp + "/" + n
  {
    StripNoop(n, Slash);
    SplitNoSeparator(n, '/');
    assert Segments(n) == [n];
    assert ViewBefore(files, view, cp, [n], 0) == view;
    assert Reachable(files, view, cp, [n]);
    assert Descend(cp, [n]) == Descend(cp + "/" + n, []);
  }

  /** `cd` into a listed name that is not empty and does not start with a
      dot appends that name to the current path. */
  lemma CdOneStep(files: Archive, cp: string, n: string)
    requires n in GetFiles(files, cp).entities
    requires n != [] && n[0] != '.'
    ensures '/' !in n
    ensures Cd(files, cp, n) == cp + "/" + n
  {
    EntitiesHaveNoSlash(files, cp, n);
    GetPathOne(files, GetFiles(files, cp), cp, n);
    assert n[0] in n;
    assert "."[0] == '.' && "/"[0] == '/' && "~/"[1] == '/' && ".."[0] == '.';
    assert !StartsWith(n, "..") && !StartsWith(n, "/") && !StartsWith(n, ".");
    assert |n| >= 2 ==> n[1] in n;
    assert !StartsWith(n, "~/");
    assert DropDot(n) == n;
    CdFromHere(files, cp, n);
  }

  /** On a canonical path, that is one more segment. */
  lemma CdInto(files: Archive, segs: seq<string>, n: string)
    requires ValidSegments(segs)
    requires n in GetFiles(files, Canonical(segs)).entities
    requires n != [] && n[0] != '.'
    ensures ValidSegments(segs + [n])
    ensures Cd(files, Canonical(segs), n) == Canonical(segs + [n])
  {
    CdOneStep(files, Canonical(segs), n);
    CanonicalSnoc(segs, n);
    ValidSnoc(segs, n);
  }

  lemma ValidSnoc(segs: seq<string>, n: string)
    requires ValidSegments(segs)
    requires n != [] && '/' !in n
    ensures ValidSegments(segs + [n])
  {
    forall i | 0 <= i < |segs + [n]| ensures (segs + [n])[i] != [] && '/' !in (segs + [n])[i] {
      if i < |segs| {
        assert (segs + [n])[i] == segs[i];
      }
    }
  }

  /** A bare `cd ..` resolves the empty remainder from the parent. */
  lemma CdUp(files: Archive, cp: string)
    ensures Cd(files, cp, "..") == Cd(files, Parent(cp), "")
  {
    assert StartsWith("..", "..") && ".."[2..] == "";
    assert DropSlash("") == "";
  }

  /** `..` repeated `m` times, joined by slashes: `..`, `../..`, ... */
  function Ups(m: nat): string
    requires m >= 1
  {
    if m == 1 then ".." else "../" + Ups(m - 1)
  }

  /** The segments left after going up `m` levels; root stays root. */
  function DropLast(segs: seq<string>, m: nat): (r: seq<string>)
    ensures |r| == if m <= |segs| then |segs| - m else 0
  {
    if m <= |segs| then segs[..|segs| - m] else []
  }

  /** `cd ..rest` moves to the parent and goes on with `rest`, less one
      leading slash. */
  lemma CdDotDot(files: Archive, cp: string, rest: string)
    ensures Cd(files, cp, ".." + rest) == Cd(files, Parent(cp), DropSlash(rest))
  {
    assert StartsWith(".." + rest, "..");
    assert (".." + rest)[2..] == rest;
  }

  /** `cd ../rest` from a canonical path resolves `rest` from its parent. */
  lemma CdUpThen(files: Archive, segs: seq<string>, rest: string)
    requires ValidSegments(segs)
    ensures Cd(files, Canonical(segs), "../" + rest) == Cd(files, Canonical(DropLast(segs, 1)), rest)
  {
    assert "../" + rest == ".." + ("/" + rest);
    CdDotDot(files, Canonical(segs), "/" + rest);
    assert DropSlash("/" + rest) == rest by {
      assert StartsWith("/" + rest, "/");
      assert ("/" + rest)[1..] == rest;
    }
    ParentCanonical(segs);
  }

  /** Going up one level and then `m - 1` more is going up `m`. */
  lemma DropLastStep(segs: seq<string>, m: nat)
    requires ValidSegments(segs) && m >= 2
    ensures ValidSegments(DropLast(segs, 1))
    ensures DropLast(DropLast(segs, 1), m - 1) == DropLast(segs, m)
  {
    var up := DropLast(segs, 1);
    forall i | 0 <= i < |up| ensures up[i] != [] && '/' !in up[i] {
      assert up[i] == segs[i];
    }
  }

  /** `cd ../..` (and so on, `m` times) from a canonical path goes up `m`
      levels, stopping at root, when the view it lands in has no empty name. */
  lemma CdUps(files: Archive, segs: seq<string>, m: nat)
    requires ValidSegments(segs) && m >= 1
    requires "" !in GetFiles(files, Canonical(DropLast(segs, m))).entities
    ensures Cd(files, Canonical(segs), Ups(m)) == Canonical(DropLast(segs, m))
  {
    var cur, k := segs, m;
    while k > 1
      invariant 1 <= k && ValidSegments(cur)
      invariant DropLast(cur, k) == DropLast(segs, m)
      invariant Cd(files, Canonical(segs), Ups(m)) == Cd(files, Canonical(cur), Ups(k))
    {
      assert Ups(k) == "../" + Ups(k - 1);
      CdUpThen(files, cur, Ups(k - 1));
      DropLastStep(cur, k);
      cur, k := DropLast(cur, 1), k - 1;
    }
    CdUpOnce(files, cur);
  }

  /** A bare `cd ..` from a canonical path lands at its parent. */
  lemma CdUpOnce(files: Archive, segs: seq<string>)
    requires ValidSegments(segs)
    requires "" !in GetFiles(files, Canonical(DropLast(segs, 1))).entities
    ensures Cd(files, Canonical(segs), "..") == Canonical(DropLast(segs, 1))
  {
    CdUp(files, Canonical(segs));
    ParentCanonical(segs);
    CdEmpty(files, Canonical(DropLast(segs, 1)));
  }

  /** Going into a listed directory and back out again returns to where one
      started, for a canonical current path, a name that is not empty and
      does not start with a dot, and a view with no empty name. */
  lemma CdIntoAndBack(files: Archive, segs: seq<string>, n: string)
    requires ValidSegments(segs)
    requires n in GetFiles(files, Canonical(segs)).entities
    requires n != [] && n[0] != '.'
    requires "" !in GetFiles(files, Canonical(segs)).entities
    ensures Cd(files, Cd(files, Canonical(segs), n), "..") == Canonical(segs)
  {
    CdInto(files, segs, n);
    CdUp(files, Canonical(segs + [n]));
    ParentCanonical(segs + [n]);
    assert (segs + [n])[..|segs|] == segs;
    CdEmpty(files, Canonical(segs));
  }
}
