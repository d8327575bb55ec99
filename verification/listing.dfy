/** `ls` (`emulator.py`): the names of the current directory's view, in
    sorted order, each padded to a fixed cell width, a line break after every
    line's worth of cells and one more at the end. The text is returned
    instead of being written to standard output. */
module Listing {
  import opened PyStr
  import opened Archive

  /** A sequence in strictly increasing string order: sorted, no repeats. */
  predicate StrictlySorted(s: seq<string>) {
    forall i, j :: 0 <= i < j < |s| ==> Less(s[i], s[j])
  }

  /** Inserts `x` into a strictly sorted sequence unless it is already there. */
  function Insert(x: string, s: seq<string>): (r: seq<string>)
    requires StrictlySorted(s)
    ensures StrictlySorted(r)
    ensures forall y :: y in r <==> y == x || y in s
  {
    if s == [] then [x]
    else if x == s[0] then s
    else if Less(x, s[0]) then
      forall j | 0 <= j < |s| ensures Less(x, s[j]) {
        if j > 0 {
          LessTransitive(x, s[0], s[j]);
        }
      }
      [x] + s
    else
      LessTotal(x, s[0]);
      var rest := Insert(x, s[1..]);
      assert forall y :: y in rest ==> Less(s[0], y);
      [s[0]] + rest
  }

  /** The names the entries contribute, collected in sorted order without
      repeats: the sequence `sorted(data['entities'])` iterates over. */
  function SortedNames(names: seq<Option<string>>): (r: seq<string>)
    ensures StrictlySorted(r)
    ensures forall e :: e in r <==> Some(e) in names
  {
    if names == [] then []
    else
      var init := names[..|names| - 1];
      var prev := SortedNames(init);
      assert names == init + [names[|names| - 1]];
      match names[|names| - 1]
      case None => prev
      case Some(name) => Insert(name, prev)
  }

  /** The sorted names of the view at `currentPath`. */
  function SortedEntities(files: Archive, currentPath: string): (r: seq<string>)
    ensures StrictlySorted(r)
    ensures forall e :: e in r <==> e in GetFiles(files, currentPath).entities
  {
    SortedNames(EntryNames(files, Strip(currentPath, Slash), Level(currentPath)))
  }

  /** Two strictly sorted sequences with the same elements are equal: the
      order `ls` prints a set of names in is determined by the set. */
  lemma {:induction false} SortedUnique(a: seq<string>, b: seq<string>)
    requires StrictlySorted(a) && StrictlySorted(b)
    requires forall e :: e in a <==> e in b
    ensures a == b
  {
    assert a != [] ==> a[0] in b;
    assert b != [] ==> b[0] in a;
    if a != [] && b != [] {
      if a[0] != b[0] {
        var i :| 0 <= i < |a| && a[i] == b[0];
        var j :| 0 <= j < |b| && b[j] == a[0];
        assert i > 0 && j > 0;
        LessTransitive(a[0], a[i], a[0]);
        LessIrreflexive(a[0]);
      }
      forall e ensures e in a[1..] <==> e in b[1..] {
        if e in a[1..] {
          var i :| 1 <= i < |a| && a[i] == e;
          assert Less(a[0], e);
          LessIrreflexive(e);
          assert e in b && b == [b[0]] + b[1..];
        }
        if e in b[1..] {
          var j :| 1 <= j < |b| && b[j] == e;
          assert Less(b[0], e);
          LessIrreflexive(e);
          assert e in a && a == [a[0]] + a[1..];
        }
      }
      SortedUnique(a[1..], b[1..]);
    }
  }

  /** `" " * n` (empty for a negative `n`, as in Python). */
  function Spaces(n: int): (r: string)
    ensures |r| == if n > 0 then n else 0
    ensures forall k :: 0 <= k < |r| ==> r[k] == ' '
    decreases n
  {
    if n <= 0 then [] else [' '] + Spaces(n - 1)
  }

  /** One name followed by `length - len(name) + 4` spaces. */
  function Cell(e: string, length: nat): (r: string)
    ensures |r| >= |e| && r[..|e|] == e
    ensures |e| <= length ==> |r| == length + 4
    ensures forall k :: |e| <= k < |r| ==> r[k] == ' '
  {
    var r := e + Spaces(length - |e| + 4);
    assert r[..|e|] == e;
    r
  }

  /** The cells of `es`, side by side. */
  function Cells(es: seq<string>, length: nat): string {
    if es == [] then [] else Cell(es[0], length) + Cells(es[1..], length)
  }

  /** `c >= per_line` with `per_line = 80 / (length + 4)`, compared exactly
      over the integers: `c >= 80 / w` holds iff `c * w >= 80` for `w > 0`. */
  predicate LineFull(c: nat, length: nat) {
    c * (length + 4) >= 80
  }

  /** The number of cells on a full line: the least count that fills one,
      that is `ceil(80 / (length + 4))`. */
  function PerLine(length: nat): (k: nat)
    ensures k >= 1
    ensures LineFull(k, length) && !LineFull(k - 1, length)
  {
    var w := length + 4;
    var k := (80 + w - 1) / w;
    assert 80 + w - 1 == k * w + (80 + w - 1) % w;
    assert (k - 1) * w == k * w - w;
    k
  }

  /** A line is full exactly when it holds at least `PerLine` cells. */
  lemma LineFullIff(c: nat, length: nat)
    ensures LineFull(c, length) <==> c >= PerLine(length)
  {
    var k := PerLine(length);
    if c >= k {
      MulMono(k, c, length + 4);
    } else {
      MulMono(c, k - 1, length + 4);
    }
  }

  /** Multiplying by the cell width keeps the order of counts. */
  lemma MulMono(a: nat, b: nat, w: nat)
    requires a <= b
    ensures a * w <= b * w
  {
    assert b * w == a * w + (b - a) * w;
  }

  /** The loop of `ls` from a line that already holds `c` cells. */
  function Layout(es: seq<string>, length: nat, c: nat): (r: string)
    ensures r != [] && r[|r| - 1] == '\n'
  {
    if es == [] then "\n"
    else if LineFull(c + 1, length) then Cell(es[0], length) + "\n" + Layout(es[1..], length, 0)
    else Cell(es[0], length) + Layout(es[1..], length, c + 1)
  }

  /** The listing laid out line by line: `PerLine(length)` cells and a line
      break per full line, then the cells left over and the final line break
      (so a listing that fills its last line ends in an empty line). */
  function Rows(es: seq<string>, length: nat): string {
    RowsOf(es, length, PerLine(length))
  }

  /** The same layout with `k` cells to a full line. */
  function RowsOf(es: seq<string>, length: nat, k: nat): string
    requires k >= 1
    decreases |es|
  {
    if |es| < k then Cells(es, length) + "\n"
    else Cells(es[..k], length) + "\n" + RowsOf(es[k..], length, k)
  }

  /** The reference layout from a line with room for `n` more cells: those
      cells and a line break, then full lines of `k`; or, when fewer than
      `n` names remain, the names and the final line break. */
  function RowsFrom(es: seq<string>, length: nat, n: nat, k: nat): string
    requires k >= 1
  {
    if |es| < n then Cells(es, length) + "\n"
    else Cells(es[..n], length) + "\n" + RowsOf(es[n..], length, k)
  }

  /** The loop of `ls`, started `c` cells into a line, lays the names out
      in rows of `PerLine(length)`. */
  lemma {:induction false} LayoutRows(es: seq<string>, length: nat, c: nat)
    requires c < PerLine(length)
    ensures Layout(es, length, c) == RowsFrom(es, length, PerLine(length) - c, PerLine(length))
  {
    var k := PerLine(length);
    if es != [] {
      LineFullIff(c + 1, length);
      if c + 1 == k {
        LayoutRows(es[1..], length, 0);
        LastCellOfLine(es, length, c);
      } else {
        LayoutRows(es[1..], length, c + 1);
        NextCellOfLine(es, length, c);
      }
    }
  }

  /** The cell that fills a line is followed by a line break and a fresh
      line. */
  lemma LastCellOfLine(es: seq<string>, length: nat, c: nat)
    requires es != [] && c + 1 == PerLine(length)
    requires Layout(es[1..], length, 0) == RowsFrom(es[1..], length, PerLine(length), PerLine(length))
    ensures Layout(es, length, c) == RowsFrom(es, length, 1, PerLine(length))
  {
    var k := PerLine(length);
    assert LineFull(c + 1, length);
    assert Layout(es, length, c) == Cell(es[0], length) + "\n" + Layout(es[1..], length, 0);
    RowsFromFresh(es[1..], length, k);
    RowsFromLast(es, length, k);
  }

  /** Room for a whole line is the reference layout itself. */
  lemma RowsFromFresh(es: seq<string>, length: nat, k: nat)
    requires k >= 1
    ensures RowsFrom(es, length, k, k) == RowsOf(es, length, k)
  {
  }

  /** Room for one more cell: that cell, a line break, then full lines. */
  lemma RowsFromLast(es: seq<string>, length: nat, k: nat)
    requires es != [] && k >= 1
    ensures RowsFrom(es, length, 1, k) == Cell(es[0], length) + "\n" + RowsOf(es[1..], length, k)
  {
    assert es[..1] == [es[0]] && es[..1][1..] == [];
    assert Cells(es[..1], length) == Cell(es[0], length);
  }

  /** A cell that does not fill its line is followed directly by the rest of
      the line. */
  lemma NextCellOfLine(es: seq<string>, length: nat, c: nat)
    requires es != [] && c + 1 < PerLine(length)
    requires Layout(es[1..], length, c + 1) == RowsFrom(es[1..], length, PerLine(length) - (c + 1), PerLine(length))
    ensures Layout(es, length, c) == RowsFrom(es, length, PerLine(length) - c, PerLine(length))
  {
    var k := PerLine(length);
    LineFullIff(c + 1, length);
    assert Layout(es, length, c) == Cell(es[0], length) + Layout(es[1..], length, c + 1);
    RowsFromStep(es, length, k - c, k);
  }

  /** With room for two or more cells, the first cell is followed directly
      by the layout of the rest with one cell less of room. */
  lemma RowsFromStep(es: seq<string>, length: nat, n: nat, k: nat)
    requires es != [] && n >= 2 && k >= 1
    ensures RowsFrom(es, length, n, k) == Cell(es[0], length) + RowsFrom(es[1..], length, n - 1, k)
  {
    if |es| < n {
      assert Cells(es, length) == Cell(es[0], length) + Cells(es[1..], length);
    } else {
      CellsHead(es, n, length);
    }
  }

  /** The first `n` cells are the first cell followed by the next `n - 1`. */
  lemma CellsHead(es: seq<string>, n: nat, length: nat)
    requires 1 <= n <= |es|
    ensures Cells(es[..n], length) == Cell(es[0], length) + Cells(es[1..][..n - 1], length)
    ensures es[1..][n - 1..] == es[n..]
  {
    assert es[..n][1..] == es[1..][..n - 1];
    assert es[..n][0] == es[0];
  }

  /** `ls(filesystem, current_path)`, returning what it writes. */
  function Ls(files: Archive, currentPath: string): (out: string)
    ensures out != [] && out[|out| - 1] == '\n'
  {
    var view := GetFiles(files, currentPath);
    Layout(SortedEntities(files, currentPath), view.length, 0)
  }

  /** What `ls` prints: the view's names in sorted order, in cells of
      `length + 4` characters, `PerLine(length)` to a line. */
  lemma LsIsRows(files: Archive, currentPath: string, es: seq<string>)
    requires StrictlySorted(es)
    requires forall e :: e in es <==> e in GetFiles(files, currentPath).entities
    ensures Ls(files, currentPath) == Rows(es, GetFiles(files, currentPath).length)
  {
    var length := GetFiles(files, currentPath).length;
    SortedUnique(SortedEntities(files, currentPath), es);
    assert Ls(files, currentPath) == Layout(es, length, 0);
    LayoutFromStart(es, length);
  }

  /** The loop of `ls`, started on an empty line, is the reference layout. */
  lemma LayoutFromStart(es: seq<string>, length: nat)
    ensures Layout(es, length, 0) == Rows(es, length)
  {
    LayoutRows(es, length, 0);
    RowsFromFresh(es, length, PerLine(length));
  }

  /** Every cell `ls` prints is exactly `length + 4` characters wide. */
  lemma CellsFit(files: Archive, currentPath: string, e: string)
    requires e in GetFiles(files, currentPath).entities
    ensures |Cell(e, GetFiles(files, currentPath).length)| == GetFiles(files, currentPath).length + 4
  {
  }

  /** An empty directory still lists as one line break. */
  lemma LsEmpty(files: Archive, currentPath: string)
    requires GetFiles(files, currentPath).entities == {}
    ensures Ls(files, currentPath) == "\n"
  {
    EmptyWithoutElements(SortedEntities(files, currentPath));
  }

  lemma EmptyWithoutElements(s: seq<string>)
    ensures (forall e :: e !in s) ==> s == []
  {
    if s != [] {
      assert s[0] in s;
    }
  }
}
