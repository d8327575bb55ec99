/** `erase_version` (`package_dependencies.py`): reduces each PyPI
    requirement string (`requests (>=2.0)`, `idna<4,>=2.5; extra == "x"`) to a
    bare lower-case package name. */
module Requirements {
  import opened PyStr

  /** The characters deleted outright. */
  const Brackets: set<char> := {'(', ')', '[', ']'}

  /** The characters the name is cut at, in the order `erase_version` looks
      them up: version comparisons, environment markers and exclusions. */
  const OperatorChars: seq<char> := ['>', '<', ';', '!', '=', '~']

  /** The ASCII characters Python's `str.strip()` removes. */
  const Whitespace: set<char> :=
    {' ', '\t', '\n', '\r', '\U{000B}', '\U{000C}', '\U{001C}', '\U{001D}', '\U{001E}', '\U{001F}'}

  const Quote: set<char> := {'"'}

  predicate IsOperator(c: char) {
    c in OperatorChars
  }

  /** The four `replace` calls: every bracket and parenthesis removed, all
      else kept in order. */
  function Unbracket(s: string): (r: string)
    ensures forall c :: c in r <==> c in s && c !in Brackets
    ensures forall i :: 0 <= i < |r| ==> r[i] !in Brackets
  {
    Remove(Remove(Remove(Remove(s, '('), ')'), '['), ']')
  }

  /** The four `replace` calls work piecewise: the bracket-free form of a
      concatenation is the concatenation of the parts' bracket-free forms. */
  lemma UnbracketAppend(a: string, b: string)
    ensures Unbracket(a + b) == Unbracket(a) + Unbracket(b)
  {
    RemoveAppend(a, b, '(');
    var a1, b1 := Remove(a, '('), Remove(b, '(');
    RemoveAppend(a1, b1, ')');
    var a2, b2 := Remove(a1, ')'), Remove(b1, ')');
    RemoveAppend(a2, b2, '[');
    var a3, b3 := Remove(a2, '['), Remove(b2, '[');
    RemoveAppend(a3, b3, ']');
  }

  /** One character is dropped if it is a bracket and kept otherwise; with
      `UnbracketAppend`, every other character stays, in order. */
  lemma UnbracketOne(x: char)
    ensures Unbracket([x]) == if x in Brackets then [] else [x]
  {
    RemoveOne(x, '(');
    RemoveOne(x, ')');
    RemoveOne(x, '[');
    RemoveOne(x, ']');
  }

  /** `d.find(c) if d.find(c) != -1 else len(d)` */
  function IndexOr(d: string, c: char): (k: nat)
    ensures k <= |d|
    ensures c !in d[..k]
    ensures k < |d| ==> d[k] == c
  {
    var f := Find(d, c);
    if f != -1 then f else |d|
  }

  /** `min(indexes)` over the characters `ops`: each character's `IndexOr`,
      the smallest of them, and the length of `d` when `ops` is empty (every
      index is at most that length, so it never lowers the minimum). */
  function FirstOf(d: string, ops: seq<char>): (k: nat)
    ensures k <= |d|
    decreases |ops|
  {
    if ops == [] then |d|
    else
      var here := IndexOr(d, ops[0]);
      var rest := FirstOf(d, ops[1..]);
      if here <= rest then here else rest
  }

  /** The smallest of the indexes is the first position holding any of the
      characters, or the length of `d` when none occurs. */
  lemma {:induction false} FirstOfFirst(d: string, ops: seq<char>)
    ensures var k := FirstOf(d, ops);
      && (forall i :: 0 <= i < k ==> d[i] !in ops)
      && (k < |d| ==> d[k] in ops)
    decreases |ops|
  {
    if ops != [] {
      FirstOfFirst(d, ops[1..]);
      var here := IndexOr(d, ops[0]);
      assert forall i :: 0 <= i < here ==> d[i] != ops[0] by {
        assert forall i :: 0 <= i < here ==> d[i] == d[..here][i];
      }
    }
  }

  /** Where the name ends: `min(indexes)` over the six operator characters. */
  function Cut(d: string): (k: nat)
    ensures k <= |d|
  {
    FirstOf(d, OperatorChars)
  }

  /** The cut falls at the first operator character, or at the end when
      there is none. */
  lemma CutFirst(d: string)
    ensures forall i :: 0 <= i < Cut(d) ==> !IsOperator(d[i])
    ensures Cut(d) < |d| ==> IsOperator(d[Cut(d)])
  {
    FirstOfFirst(d, OperatorChars);
  }

  /** One requirement string's package name: brackets removed, cut before
      the first operator character, whitespace and then double quotes
      stripped from both ends, lower-cased. */
  function Normalize(dependency: string): string {
    var d := Unbracket(dependency);
    var k := Cut(d);
    Lower(Strip(Strip(d[..k], Whitespace), Quote))
  }

  /** Brackets and operator characters: none of them survives `Normalize`. */
  const Cleared: set<char> := Brackets + {'>', '<', ';', '!', '=', '~'}

  /** What `Normalize` leaves: no bracket, no operator character, no
      upper-case letter, no double quote at either end. */
  predicate NormalShape(name: string) {
    && (forall i :: 0 <= i < |name| ==> name[i] !in Brackets && !IsOperator(name[i]) && !IsUpper(name[i]))
    && (name != [] ==> name[0] != '"' && name[|name| - 1] != '"')
  }

  /** Every normalised name has the shape `NormalShape` describes. */
  lemma NormalizeShape(dependency: string)
    ensures NormalShape(Normalize(dependency))
  {
    var d := Unbracket(dependency);
    var p := d[..Cut(d)];
    var t := Strip(Strip(p, Whitespace), Quote);
    assert Normalize(dependency) == Lower(t);
    CutClear(d);
    StripsAvoid(p);
    LoweredShape(t);
  }

  /** The part before the cut holds no bracket and no operator character. */
  lemma CutClear(d: string)
    requires forall i :: 0 <= i < |d| ==> d[i] !in Brackets
    ensures forall i :: 0 <= i < |d[..Cut(d)]| ==> d[..Cut(d)][i] !in Cleared
  {
    CutFirst(d);
    CutAvoids(d, Cut(d));
  }

  /** Lowering the stripped name keeps it clear of brackets, operator
      characters and quotes at its ends, and removes every upper-case
      letter. */
  lemma LoweredShape(t: string)
    requires forall i :: 0 <= i < |t| ==> t[i] !in Cleared
    requires t != [] ==> t[0] !in Quote && t[|t| - 1] !in Quote
    ensures NormalShape(Lower(t))
  {
    ClearedChars();
    LowerAvoids(t, Cleared);
    LowerQuoteEnds(t);
    var name := Lower(t);
    forall i | 0 <= i < |name|
      ensures name[i] !in Brackets && !IsOperator(name[i]) && !IsUpper(name[i])
    {
      assert name[i] !in Cleared && name[i] == LowerChar(t[i]);
    }
  }

  lemma CutAvoids(d: string, k: nat)
    requires k <= |d|
    requires forall i :: 0 <= i < |d| ==> d[i] !in Brackets
    requires forall i :: 0 <= i < k ==> !IsOperator(d[i])
    ensures forall i :: 0 <= i < |d[..k]| ==> d[..k][i] !in Cleared
  {
    ClearedChars();
  }

  /** Neither strip brings back a character the name no longer holds. */
  lemma StripsAvoid(p: string)
    requires forall i :: 0 <= i < |p| ==> p[i] !in Cleared
    ensures var t := Strip(Strip(p, Whitespace), Quote);
      forall i :: 0 <= i < |t| ==> t[i] !in Cleared
  {
    StripAvoids(p, Whitespace, Cleared);
    StripAvoids(Strip(p, Whitespace), Quote, Cleared);
  }

  /** Lowering a string with no double quote at its ends puts none there. */
  lemma LowerQuoteEnds(s: string)
    requires s != [] ==> s[0] != '"' && s[|s| - 1] != '"'
    ensures Lower(s) != [] ==> Lower(s)[0] != '"' && Lower(s)[|Lower(s)| - 1] != '"'
  {
  }

  lemma ClearedChars()
    ensures forall c :: c in Cleared <==> c in Brackets || IsOperator(c)
    ensures forall c :: c in Cleared ==> !('a' <= c <= 'z')
  {
  }

  /** A requirement whose bracket-free form has no operator character and
      nothing to strip at either end normalises to its lower-case form. */
  lemma NormalizeClean(dependency: string)
    requires var d := Unbracket(dependency);
      && (forall i :: 0 <= i < |d| ==> !IsOperator(d[i]))
      && (d != [] ==> d[0] !in Whitespace + Quote && d[|d| - 1] !in Whitespace + Quote)
    ensures Normalize(dependency) == Lower(Unbracket(dependency))
  {
    var d := Unbracket(dependency);
    CutFirst(d);
    assert d[..Cut(d)] == d;
    StripNoop(d, Whitespace);
    StripNoop(d, Quote);
  }

  /** Everything from the first operator character on is ignored: the
      version specifier after the name (`requests>=2.0`, `pkg (>=1.0)`)
      does not change the name. */
  lemma NormalizeCut(a: string, op: char, b: string)
    requires forall i :: 0 <= i < |a| ==> !IsOperator(a[i])
    requires IsOperator(op)
    ensures Normalize(a + [op] + b) == Normalize(a)
  {
    var dependency := a + [op] + b;
    var d, u := Unbracket(dependency), Unbracket(a);
    NamePartAround(a, op, b);
    NormalizeIsFinish(dependency, d);
    NormalizeIsFinish(a, u);
  }

  /** The part `Normalize` keeps of `a + [op] + b`, before stripping and
      lowering, is the part it keeps of `a`. */
  lemma NamePartAround(a: string, op: char, b: string)
    requires forall i :: 0 <= i < |a| ==> !IsOperator(a[i])
    requires IsOperator(op)
    ensures var d, u := Unbracket(a + [op] + b), Unbracket(a);
      d[..Cut(d)] == u[..Cut(u)]
  {
    var u := Unbracket(a);
    var d := Unbracket(a + [op] + b);
    UnbracketAround(a, op, b);
    UnbracketKeepsOperatorFree(a);
    CutAtOperator(u, op, Unbracket(b));
  }

  /** `Normalize` in terms of the bracket-free requirement `d`. */
  lemma NormalizeIsFinish(dependency: string, d: string)
    requires d == Unbracket(dependency)
    ensures Normalize(dependency) == Lower(Strip(Strip(d[..Cut(d)], Whitespace), Quote))
  {
  }

  /** An operator character is not a bracket, so it survives between the
      bracket-free forms of what comes before and after it. */
  lemma UnbracketAround(a: string, op: char, b: string)
    requires IsOperator(op)
    ensures Unbracket(a + [op] + b) == Unbracket(a) + [op] + Unbracket(b)
  {
    UnbracketOne(op);
    assert op !in Brackets;
    UnbracketAppend(a, [op]);
    assert Unbracket(a + [op]) == Unbracket(a) + [op];
    UnbracketAppend(a + [op], b);
  }

  /** Removing brackets brings in no operator character. */
  lemma UnbracketKeepsOperatorFree(a: string)
    requires forall i :: 0 <= i < |a| ==> !IsOperator(a[i])
    ensures forall i :: 0 <= i < |Unbracket(a)| ==> !IsOperator(Unbracket(a)[i])
  {
    var u := Unbracket(a);
    forall i | 0 <= i < |u| ensures !IsOperator(u[i]) {
      assert u[i] in u;
      var j :| 0 <= j < |a| && a[j] == u[i];
    }
  }

  /** Before an operator-free prefix and an operator, the cut falls right
      at the operator, where it would fall at the end of the prefix alone. */
  lemma CutAtOperator(u: string, op: char, r: string)
    requires forall i :: 0 <= i < |u| ==> !IsOperator(u[i])
    requires IsOperator(op)
    ensures Cut(u + [op] + r) == |u| == Cut(u)
    ensures (u + [op] + r)[..Cut(u + [op] + r)] == u[..Cut(u)]
  {
    var d := u + [op] + r;
    OperatorAfter(u, op, r);
    CutAt(d, |u|);
    CutAt(u, |u|);
  }

  /** `u + [op] + r` starts with `u` and holds `op` right after it. */
  lemma OperatorAfter(u: string, op: char, r: string)
    requires forall i :: 0 <= i < |u| ==> !IsOperator(u[i])
    requires IsOperator(op)
    ensures var d := u + [op] + r;
      && d[..|u|] == u
      && (forall i :: 0 <= i < |u| ==> !IsOperator(d[i]))
      && IsOperator(d[|u|])
  {
    var d := u + [op] + r;
    assert forall i :: 0 <= i < |u| ==> d[i] == u[i];
    assert d[..|u|] == u;
  }

  /** The cut falls at `k` when no operator character comes before `k` and
      one sits at `k`, or `k` is the end. */
  lemma CutAt(d: string, k: nat)
    requires k <= |d|
    requires forall i :: 0 <= i < k ==> !IsOperator(d[i])
    requires k < |d| ==> IsOperator(d[k])
    ensures Cut(d) == k
  {
    CutFirst(d);
  }

  /** A name without brackets is its own bracket-free form. */
  lemma UnbracketClean(s: string)
    requires forall i :: 0 <= i < |s| ==> s[i] !in Brackets
    ensures Unbracket(s) == s
  {
    assert '(' !in s && ')' !in s && '[' !in s && ']' !in s;
    RemoveAbsent(s, '(');
    RemoveAbsent(s, ')');
    RemoveAbsent(s, '[');
    RemoveAbsent(s, ']');
  }

  /** Normalising a name a second time leaves it alone, unless the first
      pass uncovered whitespace at one of its ends (a quoted name with
      blanks inside the quotes). */
  lemma NormalizeIdempotent(dependency: string)
    requires var name := Normalize(dependency);
      name != [] ==> name[0] !in Whitespace && name[|name| - 1] !in Whitespace
    ensures Normalize(Normalize(dependency)) == Normalize(dependency)
  {
    NormalizeShape(dependency);
    NormalizeFixed(Normalize(dependency));
  }

  /** A name with nothing `Normalize` would remove, cut, strip or lower is
      its own normal form. */
  lemma NormalizeFixed(name: string)
    requires forall i :: 0 <= i < |name| ==> name[i] !in Brackets && !IsOperator(name[i]) && !IsUpper(name[i])
    requires name != [] ==> name[0] !in Whitespace + Quote && name[|name| - 1] !in Whitespace + Quote
    ensures Normalize(name) == name
  {
    UnbracketClean(name);
    NormalizeClean(name);
    LowerNoUpper(name);
  }

  /** The loop of `erase_version`, with the step applied to each
      requirement as the parameter `name`: one result per requirement, in
      order. */
  method NameEach(name: string -> string, dependencies: seq<string>) returns (names: seq<string>)
    ensures |names| == |dependencies|
    ensures forall i :: 0 <= i < |dependencies| ==> names[i] == name(dependencies[i])
  {
    names := [];
    var i := 0;
    while i < |dependencies|
      invariant i <= |dependencies|
      invariant |names| == i
      invariant forall j :: 0 <= j < i ==> names[j] == name(dependencies[j])
    {
      names := names + [name(dependencies[i])];
      i := i + 1;
    }
  }

  /** `erase_version(dependencies)`: the package name of each requirement,
      in order. */
  method EraseVersion(dependencies: seq<string>) returns (names: seq<string>)
    ensures |names| == |dependencies|
    ensures forall i :: 0 <= i < |dependencies| ==> names[i] == Normalize(dependencies[i])
  {
    names := NameEach(Normalize, dependencies);
  }
}
