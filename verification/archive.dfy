/** The directory view that `get_files` derives from the archive's flat list
    of entry names (`emulator.py`). The archive is the sequence of its entries'
    file names, in archive order; directories exist only as shared prefixes. */
module Archive {
  import opened PyStr

  /** A value, or nothing: what an entry contributes to a view when it has no
      segment at that level (the `IndexError` the loop swallows). */
  datatype Option<T> = None | Some(value: T)

  type Archive = seq<string>

  const Slash: set<char> := {'/'}

  /** What `get_files` returns, less `per_line`: the hierarchy level of the
      current path, the width of the longest name (at least 1) and the set of
      names one level below the current path. `per_line` is only ever compared
      with a count, which `LineFull` does exactly. */
  datatype View = View(level: nat, length: nat, entities: set<string>)

  /** The slash-separated segments of a name, once slashes are stripped from
      both of its ends. */
  function Segments(name: string): (segs: seq<string>)
    ensures |segs| >= 1
    ensures forall i :: 0 <= i < |segs| ==> '/' !in segs[i]
  {
    Split(Strip(name, Slash), '/')
  }

  /** Hierarchy level of a current path: how many segments it has, 0 at root. */
  function Level(currentPath: string): (n: nat)
    ensures n == 0 <==> Strip(currentPath, Slash) == []
    ensures n != 0 ==> n == Count(Strip(currentPath, Slash), '/') + 1
  {
    var key := Strip(currentPath, Slash);
    if |key| == 0 then 0 else |Split(key, '/')|
  }

  /** The name entry `f` contributes to the view whose stripped current path
      is `key` and whose level is `level`: its segment at `level`, provided it
      has one and its raw name contains `key`. */
  function EntryName(f: string, key: string, level: nat): Option<string> {
    var segs := Segments(f);
    if level < |segs| && Contains(f, key) then Some(segs[level]) else None
  }

  /** Whether `e` is the segment at `level` of entry `f`, which holds `key`. */
  predicate Shows(f: string, key: string, level: nat, e: string) {
    && Contains(f, key)
    && level < |Segments(f)|
    && Segments(f)[level] == e
  }

  /** The loop of `get_files` over the names the entries contribute, in
      archive order: the set of names and the running maximum name length,
      starting from 1. */
  function Scan(names: seq<Option<string>>): (r: (set<string>, nat))
    ensures forall e :: e in r.0 <==> Some(e) in names
    ensures r.1 >= 1
    ensures forall e :: e in r.0 ==> |e| <= r.1
    ensures r.1 == 1 || exists e :: e in r.0 && |e| == r.1
  {
    if names == [] then ({}, 1)
    else
      var init := names[..|names| - 1];
      var prev := Scan(init);
      assert names == init + [names[|names| - 1]];
      match names[|names| - 1]
      case None =>
        prev
      case Some(name) =>
        (prev.0 + {name}, if |name| > prev.1 then |name| else prev.1)
  }

  /** What each entry contributes to the view at `key` and `level`, in
      archive order. */
  function EntryNames(files: Archive, key: string, level: nat): seq<Option<string>> {
    seq(|files|, i requires 0 <= i < |files| => EntryName(files[i], key, level))
  }

  /** `get_files(filesystem, current_path)`. */
  function GetFiles(files: Archive, currentPath: string): (v: View)
    ensures v.level == Level(currentPath)
    ensures v.length >= 1
    ensures forall e :: e in v.entities ==> |e| <= v.length
    ensures v.length == 1 || exists e :: e in v.entities && |e| == v.length
  {
    var level := Level(currentPath);
    var scan := Scan(EntryNames(files, Strip(currentPath, Slash), level));
    View(level, scan.1, scan.0)
  }

  /** A name is in the view exactly when it is the segment at the current
      level of some entry whose raw name contains the stripped current path;
      entries with too few segments are skipped. */
  lemma ViewEntities(files: Archive, currentPath: string)
    ensures forall e :: e in GetFiles(files, currentPath).entities <==>
      exists i :: 0 <= i < |files| && Shows(files[i], Strip(currentPath, Slash), Level(currentPath), e)
  {
    var level := Level(currentPath);
    var key := Strip(currentPath, Slash);
    forall e ensures e in GetFiles(files, currentPath).entities <==>
      exists i :: 0 <= i < |files| && Shows(files[i], key, level, e)
    {
      EntryNamesShow(files, key, level, e);
    }
  }

  /** Some entry contributes `e` exactly when some entry shows `e`. */
  lemma EntryNamesShow(files: Archive, key: string, level: nat, e: string)
    ensures Some(e) in EntryNames(files, key, level) <==>
      exists i :: 0 <= i < |files| && Shows(files[i], key, level, e)
  {
    var names := EntryNames(files, key, level);
    forall i | 0 <= i < |files|
      ensures names[i] == Some(e) <==> Shows(files[i], key, level, e)
    {
      EntryNameShows(files[i], key, level, e);
    }
  }

  /** An entry contributes `e` exactly when it shows `e`. */
  lemma EntryNameShows(f: string, key: string, level: nat, e: string)
    ensures EntryName(f, key, level) == Some(e) <==> Shows(f, key, level, e)
  {
  }

  /** No name in a view holds a slash: each is one segment of an entry. */
  lemma EntitiesHaveNoSlash(files: Archive, currentPath: string, e: string)
    requires e in GetFiles(files, currentPath).entities
    ensures '/' !in e
  {
    ViewEntities(files, currentPath);
  }

  /** At root every entry contributes its first segment, whatever it is. */
  lemma RootEntities(files: Archive)
    ensures GetFiles(files, "").entities == set i | 0 <= i < |files| :: Segments(files[i])[0]
  {
    ViewEntities(files, "");
    assert Strip("", Slash) == [];
    forall i | 0 <= i < |files|
      ensures Shows(files[i], [], 0, Segments(files[i])[0])
    {
      assert [] <= files[i];
    }
  }

  /** A canonical current path: "" at root, otherwise a slash before each of
      its segments, none of them empty or holding a slash. This is the shape
      `cd` builds. */
  function Canonical(segs: seq<string>): string {
    if segs == [] then "" else "/" + Join(segs, '/')
  }

  predicate ValidSegments(segs: seq<string>) {
    forall i :: 0 <= i < |segs| ==> segs[i] != [] && '/' !in segs[i]
  }

  lemma {:induction false} JoinEnds(segs: seq<string>)
    requires |segs| >= 1 && ValidSegments(segs)
    ensures Join(segs, '/') != []
    ensures Join(segs, '/')[0] == segs[0][0]
    ensures Join(segs, '/')[|Join(segs, '/')| - 1] == segs[|segs| - 1][|segs[|segs| - 1]| - 1]
  {
    if |segs| > 1 {
      JoinEnds(segs[1..]);
      var rest := Join(segs[1..], '/');
      assert Join(segs, '/') == segs[0] + "/" + rest;
      assert segs[1..][|segs| - 2] == segs[|segs| - 1];
      assert (segs[0] + "/" + rest)[0] == segs[0][0];
      assert (segs[0] + "/" + rest)[|segs[0]| + 1 + |rest| - 1] == rest[|rest| - 1];
    }
  }

  /** A canonical path strips to the slash-join of its segments. */
  lemma StripCanonical(segs: seq<string>)
    requires ValidSegments(segs)
    ensures Strip(Canonical(segs), Slash) == Join(segs, '/')
  {
    if segs != [] {
      JoinEnds(segs);
      StripLeadingSeparator(Join(segs, '/'), '/');
    }
  }

  /** The hierarchy level of a canonical path is its number of segments. */
  lemma LevelCanonical(segs: seq<string>)
    requires ValidSegments(segs)
    ensures Level(Canonical(segs)) == |segs|
    ensures segs != [] ==> Segments(Canonical(segs)) == segs
  {
    StripCanonical(segs);
    if segs != [] {
      JoinEnds(segs);
      SplitJoin(segs, '/');
    }
  }
}
