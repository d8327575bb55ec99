/** The command dispatcher of `emulator.py`: `shell` looks at the first
    token of a command line and runs `pwd`, `ls`, `cd` or `cat`, threading
    the current path through. Output is returned as data instead of being
    written; reading an entry's bytes is a parameter. */
module Shell {
  import opened PyStr
  import opened Archive
  import opened Listing
  import opened Navigation

  /** What `cat` does with one argument: open the entry the argument
      resolves to, or report that there is none. */
  datatype CatOutcome = Opened(entry: string) | NotFound

  /** What a command writes. */
  datatype Output = Printed(text: string) | CatReport(outcomes: seq<CatOutcome>) | Silent

  /** One step of the session: the new current path and the output. */
  datatype Step = Step(path: string, out: Output)

  const NotFoundMessage := "File not found.\n"

  /** The decision `cat` makes for each of `names`, in order: open the
      entry `cd` reaches, or report that there is none. */
  function CatAll(files: Archive, cp: string, names: seq<string>): (r: seq<CatOutcome>)
    ensures |r| == |names|
  {
    if names == [] then []
    else
      var target := Cd(files, cp, names[0]);
      var first := if target != cp then Opened(Strip(target, Slash)) else NotFound;
      [first] + CatAll(files, cp, names[1..])
  }

  /** Each name is decided on its own, from the same current path: it is
      found exactly when `cd` to it moves away from the current path, and
      then the entry opened is the path reached, stripped of slashes. */
  lemma {:induction false} CatAllAt(files: Archive, cp: string, names: seq<string>, i: nat)
    requires i < |names|
    ensures CatAll(files, cp, names)[i] == NotFound <==> Cd(files, cp, names[i]) == cp
    ensures CatAll(files, cp, names)[i].Opened? ==>
      CatAll(files, cp, names)[i].entry == Strip(Cd(files, cp, names[i]), Slash)
  {
    if i > 0 {
      CatAllAt(files, cp, names[1..], i - 1);
    }
  }

  /** `cat(filesystem, current_path, args)`: the arguments after the command
      name, each resolved on its own from the same current path. */
  function Cat(files: Archive, cp: string, args: seq<string>): (r: seq<CatOutcome>)
    ensures |r| == if args == [] then 0 else |args| - 1
  {
    if args == [] then [] else CatAll(files, cp, args[1..])
  }

  /** The text `cat` writes, given `read`, the decoded contents of an entry:
      each found entry's contents and a line break, or the not-found line. */
  function CatText(outcomes: seq<CatOutcome>, read: string -> string): (text: string)
    ensures (forall i :: 0 <= i < |outcomes| ==> outcomes[i] == NotFound) ==>
      |text| == |outcomes| * |NotFoundMessage|
  {
    if outcomes == [] then []
    else
      var first := match outcomes[0]
        case Opened(entry) => read(entry) + "\n"
        case NotFound => NotFoundMessage;
      first + CatText(outcomes[1..], read)
  }

  /** The text of a sequence of outcomes is the text of its parts, in
      order. */
  lemma {:induction false} CatTextAppend(a: seq<CatOutcome>, b: seq<CatOutcome>, read: string -> string)
    ensures CatText(a + b, read) == CatText(a, read) + CatText(b, read)
  {
    if a != [] {
      assert (a + b)[0] == a[0];
      assert (a + b)[1..] == a[1..] + b;
      CatTextAppend(a[1..], b, read);
    } else {
      assert a + b == b;
    }
  }

  /** An argument that is not found writes the not-found line. */
  lemma CatTextMissing(read: string -> string)
    ensures CatText([NotFound], read) == NotFoundMessage
  {
    assert [NotFound][1..] == [];
  }

  /** A found entry writes its contents and a line break. */
  lemma CatTextOpened(entry: string, read: string -> string)
    ensures CatText([Opened(entry)], read) == read(entry) + "\n"
  {
    assert [Opened(entry)][1..] == [];
  }

  /** The archive's name without directories or extension:
      `filename.split("/")[-1].split(".")[0]`. */
  function ArchiveStem(archiveName: string): (stem: string)
    ensures '/' !in stem && '.' !in stem
  {
    var parts := Split(archiveName, '/');
    Split(parts[|parts| - 1], '.')[0]
  }

  /** The stem is read off the last slash-separated piece of the archive's
      name: it starts that piece and runs up to its first dot, or to its
      end when it has none. */
  lemma ArchiveStemOf(archiveName: string)
    ensures exists k :: (
      && 0 <= k <= |archiveName|
      && (k == 0 || archiveName[k - 1] == '/')
      && '/' !in archiveName[k..]
      && ArchiveStem(archiveName) <= archiveName[k..]
      && (k + |ArchiveStem(archiveName)| == |archiveName| || archiveName[k + |ArchiveStem(archiveName)|] == '.'))
  {
    var parts := Split(archiveName, '/');
    var last := parts[|parts| - 1];
    SplitLast(archiveName, '/');
    SplitFirst(last, '.');
    var k := |archiveName| - |last|;
    var stem := ArchiveStem(archiveName);
    assert archiveName[k..] == last;
    if k + |stem| < |archiveName| {
      assert archiveName[k + |stem|] == last[|stem|];
    }
  }

  /** What `pwd` writes, with the user name as a parameter: the archive's
      stem, a slash and the user name, then the current path and a line
      break. */
  function Pwd(archiveName: string, user: string, cp: string): (text: string)
    ensures ArchiveStem(archiveName) + "/" + user <= text
    ensures |text| > |cp| && text[|text| - |cp| - 1..] == cp + "\n"
    ensures |text| == |ArchiveStem(archiveName)| + |user| + |cp| + 2
  {
    var home := ArchiveStem(archiveName) + "/" + user;
    Suffix(home, cp + "\n");
    home + (cp + "\n")
  }

  lemma Suffix(a: string, b: string)
    ensures (a + b)[|a|..] == b
  {
  }

  /** `shell(args, filesystem, current_path)`: only `cd` changes the current
      path; a `cd` without an argument means `cd .`; an unknown command does
      nothing at all. */
  function Shell(files: Archive, archiveName: string, user: string, args: seq<string>, cp: string): (s: Step)
    requires |args| >= 1
    ensures args[0] != "cd" ==> s.path == cp
    ensures args[0] == "cd" ==> s.path == Cd(files, cp, if |args| > 1 then args[1] else ".")
    ensures args[0] !in {"pwd", "ls", "cat"} ==> s.out == Silent
  {
    if args[0] == "pwd" then Step(cp, Printed(Pwd(archiveName, user, cp)))
    else if args[0] == "ls" then Step(cp, Printed(Ls(files, cp)))
    else if args[0] == "cd" then Step(Cd(files, cp, if |args| > 1 then args[1] else "."), Silent)
    else if args[0] == "cat" then Step(cp, CatReport(Cat(files, cp, args)))
    else Step(cp, Silent)
  }

  /** The current path after a sequence of command lines, each already split
      on spaces, as the console and script drivers feed them to `shell`. */
  function Run(files: Archive, archiveName: string, user: string, lines: seq<seq<string>>, cp: string): string
    requires forall i :: 0 <= i < |lines| ==> |lines[i]| >= 1
  {
    if lines == [] then cp
    else Run(files, archiveName, user, lines[1..], Shell(files, archiveName, user, lines[0], cp).path)
  }

  /** A session without a `cd` command ends where it started. */
  lemma {:induction false} RunWithoutCd(files: Archive, archiveName: string, user: string, lines: seq<seq<string>>, cp: string)
    requires forall i :: 0 <= i < |lines| ==> |lines[i]| >= 1 && lines[i][0] != "cd"
    ensures Run(files, archiveName, user, lines, cp) == cp
  {
    if lines != [] {
      RunWithoutCd(files, archiveName, user, lines[1..], cp);
    }
  }

  /** A bare `cd` stays put, unless some entry has an empty segment at this
      level. */
  lemma ShellBareCd(files: Archive, archiveName: string, user: string, cp: string)
    requires "" !in GetFiles(files, cp).entities
    ensures Shell(files, archiveName, user, ["cd"], cp).path == cp
  {
    CdHere(files, cp);
  }

  /** `cat` on a name that `cd` cannot resolve reports it as not found. */
  lemma CatMissing(files: Archive, cp: string, name: string)
    requires Relative(name)
    requires !Reachable(files, GetFiles(files, cp), cp, Segments(name))
    ensures Cat(files, cp, ["cat", name]) == [NotFound]
  {
    CdRelative(files, cp, name);
    CatUnmoved(files, cp, name);
  }

  /** `cat` reports a name as not found exactly when `cd` to it stays put. */
  lemma CatUnmoved(files: Archive, cp: string, name: string)
    ensures Cat(files, cp, ["cat", name]) == [NotFound] <==> Cd(files, cp, name) == cp
  {
    assert ["cat", name][1..] == [name];
    CatAllAt(files, cp, [name], 0);
    var r := CatAll(files, cp, [name]);
    assert Cat(files, cp, ["cat", name]) == r;
    assert r == [NotFound] <==> r[0] == NotFound;
  }

  /** `cat` on a listed name (a directory as much as a file) treats it as
      found, and goes on to open the entry at the path `cd` reached. */
  lemma CatListedName(files: Archive, cp: string, n: string)
    requires n in GetFiles(files, cp).entities
    requires n != [] && n[0] != '.'
    ensures Cat(files, cp, ["cat", n]) == [Opened(Strip(cp + "/" + n, Slash))]
  {
    CdOneStep(files, cp, n);
    assert Cd(files, cp, n) != cp by {
      assert |cp + "/" + n| > |cp|;
    }
    assert ["cat", n][1..] == [n];
    CatAllAt(files, cp, [n], 0);
  }

  /** `cat /p` from below root, where `p` cannot be reached: `cd` falls back
      to root, which differs from the current path, so `cat` goes on to open
      the entry named by the empty string instead of reporting "not found". */
  lemma CatAbsoluteMissing(files: Archive, cp: string, p: string)
    requires cp != ""
    requires !Reachable(files, GetFiles(files, ""), "", Segments(p))
    ensures Cat(files, cp, ["cat", "/" + p]) == [Opened("")]
  {
    CdAbsolute(files, cp, cp, p);
    assert ["cat", "/" + p][1..] == ["/" + p];
    CatAllAt(files, cp, ["/" + p], 0);
    assert Strip("", Slash) == "";
  }
}
