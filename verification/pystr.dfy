/** The Python `str` operations the shell and the requirement normaliser rely
    on, over `string` (= `seq<char>`). `lower()` and `strip()` are modelled on
    their ASCII behaviour only. */
module PyStr {

  /** `s.startswith(p)` */
  predicate StartsWith(s: string, p: string) {
    p <= s
  }

  /** Number of occurrences of the character `c` in `s`. */
  function Count(s: string, c: char): nat {
    if s == [] then 0 else (if s[0] == c then 1 else 0) + Count(s[1..], c)
  }

  /** `s.lstrip(cs)`: drops every leading character that is in `cs`. */
  function LStrip(s: string, cs: set<char>): (r: string)
    ensures |r| <= |s| && r == s[|s| - |r|..]
    ensures forall k :: 0 <= k < |s| - |r| ==> s[k] in cs
    ensures r != [] ==> r[0] !in cs
  {
    if s != [] && s[0] in cs then
      var r := LStrip(s[1..], cs);
      assert forall k :: 1 <= k < |s| - |r| ==> s[k] == s[1..][k - 1];
      r
    else s
  }

  /** `s.rstrip(cs)`: drops every trailing character that is in `cs`. */
  function RStrip(s: string, cs: set<char>): (r: string)
    ensures |r| <= |s| && r == s[..|r|]
    ensures forall k :: |r| <= k < |s| ==> s[k] in cs
    ensures r != [] ==> r[|r| - 1] !in cs
  {
    if s != [] && s[|s| - 1] in cs then RStrip(s[..|s| - 1], cs) else s
  }

  /** `s.strip(cs)`: the slice of `s` left once the characters of `cs` are
      removed from both ends; nothing in the middle is touched. */
  function Strip(s: string, cs: set<char>): (r: string)
    ensures r != [] ==> r[0] !in cs && r[|r| - 1] !in cs
    ensures |s| - |LStrip(s, cs)| + |r| <= |s|
    ensures r == s[|s| - |LStrip(s, cs)|..|s| - |LStrip(s, cs)| + |r|]
    ensures forall k :: 0 <= k < |s| - |LStrip(s, cs)| ==> s[k] in cs
    ensures forall k :: |s| - |LStrip(s, cs)| + |r| <= k < |s| ==> s[k] in cs
  {
    var l := LStrip(s, cs);
    var r := RStrip(l, cs);
    SuffixPrefix(s, l, r, cs);
    r
  }

  /** A prefix `r` of a suffix `l` of `s` is a slice of `s`, and what `r`
      leaves of `l` is what it leaves at the end of `s`. */
  lemma SuffixPrefix(s: string, l: string, r: string, cs: set<char>)
    requires |l| <= |s| && l == s[|s| - |l|..]
    requires |r| <= |l| && r == l[..|r|]
    requires forall k :: |r| <= k < |l| ==> l[k] in cs
    ensures r == s[|s| - |l|..|s| - |l| + |r|]
    ensures forall k :: |s| - |l| + |r| <= k < |s| ==> s[k] in cs
  {
    var off := |s| - |l|;
    forall k | off + |r| <= k < |s| ensures s[k] in cs {
      assert s[k] == l[k - off];
    }
  }

  /** Stripping adds no character: what `s` avoids, the result avoids. */
  lemma StripAvoids(s: string, cs: set<char>, bad: set<char>)
    requires forall i :: 0 <= i < |s| ==> s[i] !in bad
    ensures forall i :: 0 <= i < |Strip(s, cs)| ==> Strip(s, cs)[i] !in bad
  {
    var off := |s| - |LStrip(s, cs)|;
    SliceAvoids(s, off, off + |Strip(s, cs)|, bad);
  }

  lemma SliceAvoids(s: string, i: nat, j: nat, bad: set<char>)
    requires i <= j <= |s|
    requires forall k :: 0 <= k < |s| ==> s[k] !in bad
    ensures forall k :: 0 <= k < j - i ==> s[i..j][k] !in bad
  {
    forall k | 0 <= k < j - i ensures s[i..j][k] !in bad {
      assert s[i..j][k] == s[i + k];
    }
  }

  /** Lowering adds no character other than lower-case letters. */
  lemma LowerAvoids(s: string, bad: set<char>)
    requires forall i :: 0 <= i < |s| ==> s[i] !in bad
    requires forall c :: c in bad ==> !('a' <= c <= 'z')
    ensures forall i :: 0 <= i < |Lower(s)| ==> Lower(s)[i] !in bad
  {
  }

  /** Stripping a string whose ends are already outside `cs` changes nothing. */
  lemma StripNoop(s: string, cs: set<char>)
    requires s != [] ==> s[0] !in cs && s[|s| - 1] !in cs
    ensures Strip(s, cs) == s
  {
  }

  /** `("/" + t).strip("/") == t` when `t` has no slash at either end. */
  lemma StripLeadingSeparator(t: string, c: char)
    requires t != [] ==> t[0] != c && t[|t| - 1] != c
    ensures Strip([c] + t, {c}) == t
  {
    assert ([c] + t)[1..] == t;
    assert LStrip([c] + t, {c}) == LStrip(t, {c}) == t;
  }

  /** `s.split(sep)` for a one-character separator: every piece, including
      empty ones between adjacent separators, in order. */
  function Split(s: string, sep: char): (r: seq<string>)
    ensures |r| == Count(s, sep) + 1
    ensures forall i :: 0 <= i < |r| ==> sep !in r[i]
    ensures Join(r, sep) == s
  {
    if s == [] then [[]]
    else
      var rest := Split(s[1..], sep);
      if s[0] == sep then [[]] + rest
      else [[s[0]] + rest[0]] + rest[1..]
  }

  /** `sep.join(parts)` */
  function Join(parts: seq<string>, sep: char): string {
    if |parts| == 0 then []
    else if |parts| == 1 then parts[0]
    else parts[0] + [sep] + Join(parts[1..], sep)
  }

  lemma {:induction false} SplitNoSeparator(s: string, sep: char)
    requires sep !in s
    ensures Split(s, sep) == [s]
  {
    if s != [] {
      SplitNoSeparator(s[1..], sep);
    }
  }

  lemma {:induction false} SplitAppend(a: string, sep: char, b: string)
    requires sep !in a
    ensures Split(a + [sep] + b, sep) == [a] + Split(b, sep)
  {
    if a == [] {
      SplitSeparator(sep, b);
    } else {
      SplitAppend(a[1..], sep, b);
      assert a + [sep] + b == [a[0]] + (a[1..] + [sep] + b);
      SplitOther(a[0], a[1..] + [sep] + b, sep);
      assert [a[0]] + a[1..] == a;
    }
  }

  /** A leading separator splits off an empty piece. */
  lemma SplitSeparator(sep: char, t: string)
    ensures Split([sep] + t, sep) == [[]] + Split(t, sep)
  {
    assert ([sep] + t)[1..] == t;
  }

  /** Any other leading character joins the first piece. */
  lemma SplitOther(c: char, t: string, sep: char)
    requires c != sep
    ensures Split([c] + t, sep) == [[c] + Split(t, sep)[0]] + Split(t, sep)[1..]
  {
    assert ([c] + t)[1..] == t;
  }

  /** The first piece of a split is a prefix of the string, ended by the
      separator or by the end of the string. */
  lemma {:induction false} SplitFirst(s: string, sep: char)
    ensures Split(s, sep)[0] <= s
    ensures |Split(s, sep)[0]| == |s| || s[|Split(s, sep)[0]|] == sep
  {
    if s != [] && s[0] != sep {
      SplitFirst(s[1..], sep);
      var p := Split(s[1..], sep)[0];
      assert Split(s, sep)[0] == [s[0]] + p;
      assert s == [s[0]] + s[1..];
    }
  }

  /** The last piece of a split is a suffix of the string, preceded by the
      separator unless it is the whole string. */
  lemma {:induction false} SplitLast(s: string, sep: char)
    ensures var r := Split(s, sep);
      && |r[|r| - 1]| <= |s|
      && r[|r| - 1] == s[|s| - |r[|r| - 1]|..]
      && (|r[|r| - 1]| == |s| || s[|s| - |r[|r| - 1]| - 1] == sep)
  {
    if s != [] {
      SplitLast(s[1..], sep);
      var rest := Split(s[1..], sep);
      var q := rest[|rest| - 1];
      assert s[1..][|s| - 1 - |q|..] == s[|s| - |q|..];
      if s[0] == sep || |rest| > 1 {
        assert Split(s, sep)[|Split(s, sep)| - 1] == q;
        if |q| < |s| - 1 {
          assert s[|s| - |q| - 1] == s[1..][|s| - 1 - |q| - 1];
        }
      } else {
        assert Join(rest, sep) == rest[0] == s[1..];
        assert Split(s, sep)[|Split(s, sep)| - 1] == [s[0]] + s[1..] == s;
      }
    }
  }

  /** Splitting undoes joining, as long as no piece holds the separator. */
  lemma {:induction false} SplitJoin(parts: seq<string>, sep: char)
    requires |parts| >= 1
    requires forall i :: 0 <= i < |parts| ==> sep !in parts[i]
    ensures Split(Join(parts, sep), sep) == parts
  {
    if |parts| == 1 {
      SplitNoSeparator(parts[0], sep);
    } else {
      SplitJoin(parts[1..], sep);
      SplitAppend(parts[0], sep, Join(parts[1..], sep));
    }
  }

  /** `needle in hay` (substring test; the empty string is in every string). */
  predicate Contains(hay: string, needle: string) {
    needle <= hay || (hay != [] && Contains(hay[1..], needle))
  }

  /** `s.find(c)`: index of the first `c`, or -1 when there is none. */
  function Find(s: string, c: char): (r: int)
    ensures r == -1 <==> c !in s
    ensures r != -1 ==> 0 <= r < |s| && s[r] == c && c !in s[..r]
  {
    if s == [] then -1
    else if s[0] == c then 0
    else
      var k := Find(s[1..], c);
      if k == -1 then -1
      else
        assert s[..k + 1] == [s[0]] + s[1..][..k];
        k + 1
  }

  /** `s.replace(c, "")` for a one-character pattern. */
  function Remove(s: string, c: char): (r: string)
    ensures forall x :: x in r <==> x in s && x != c
    ensures |r| == |s| - Count(s, c)
  {
    if s == [] then []
    else if s[0] == c then Remove(s[1..], c)
    else [s[0]] + Remove(s[1..], c)
  }

  /** `replace` works piecewise: what is removed from a concatenation is
      removed from each part, and the parts stay in order. */
  lemma {:induction false} RemoveAppend(a: string, b: string, c: char)
    ensures Remove(a + b, c) == Remove(a, c) + Remove(b, c)
  {
    if a != [] {
      assert (a + b)[0] == a[0];
      assert (a + b)[1..] == a[1..] + b;
      RemoveAppend(a[1..], b, c);
    } else {
      assert a + b == b;
    }
  }

  /** On one character, `replace` drops it if it is `c` and keeps it
      otherwise. */
  lemma RemoveOne(x: char, c: char)
    ensures Remove([x], c) == if x == c then [] else [x]
  {
    assert [x][1..] == [];
  }

  /** Removing a character that does not occur changes nothing. */
  lemma {:induction false} RemoveAbsent(s: string, c: char)
    requires c !in s
    ensures Remove(s, c) == s
  {
    if s != [] {
      assert s == [s[0]] + s[1..];
      RemoveAbsent(s[1..], c);
    }
  }

  predicate IsUpper(c: char) {
    'A' <= c <= 'Z'
  }

  /** ASCII `c.lower()`. */
  function LowerChar(c: char): (d: char)
    ensures !IsUpper(d)
    ensures !IsUpper(c) ==> d == c
    ensures IsUpper(c) ==> d as int == c as int + 32
  {
    if IsUpper(c) then (c as int + 32) as char else c
  }

  /** ASCII `s.lower()`: every character lowered in place. */
  function Lower(s: string): (r: string)
    ensures |r| == |s|
    ensures forall i :: 0 <= i < |s| ==> r[i] == LowerChar(s[i])
  {
    if s == [] then [] else [LowerChar(s[0])] + Lower(s[1..])
  }

  /** Python's ordering of strings: code point by code point, a proper prefix
      first. This is the order `sorted` puts names in. */
  predicate Less(a: string, b: string) {
    if a == [] then b != []
    else if b == [] then false
    else if a[0] != b[0] then a[0] < b[0]
    else Less(a[1..], b[1..])
  }

  lemma {:induction false} LessIrreflexive(a: string)
    ensures !Less(a, a)
  {
    if a != [] {
      LessIrreflexive(a[1..]);
    }
  }

  lemma {:induction false} LessTransitive(a: string, b: string, c: string)
    requires Less(a, b) && Less(b, c)
    ensures Less(a, c)
  {
    if a != [] && b != [] && c != [] && a[0] == b[0] == c[0] {
      LessTransitive(a[1..], b[1..], c[1..]);
    }
  }

  lemma {:induction false} LessTotal(a: string, b: string)
    requires a != b
    ensures Less(a, b) || Less(b, a)
  {
    if a != [] && b != [] && a[0] == b[0] {
      assert a == [a[0]] + a[1..] && b == [b[0]] + b[1..];
      LessTotal(a[1..], b[1..]);
    }
  }

  /** Lowering a string without upper-case letters changes nothing. */
  lemma LowerNoUpper(s: string)
    requires forall i :: 0 <= i < |s| ==> !IsUpper(s[i])
    ensures Lower(s) == s
  {
  }
}
