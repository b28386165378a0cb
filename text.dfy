/// The operations on Python `str` values that the processor uses, over
/// `seq<char>`: `strip`, `startswith`, `split`, `join`, `lower` and the
/// ordering `sorted` applies to file names.
module Text {

  /** The characters of which Python's `str.isspace()` holds; `str.strip()`
      with no argument removes exactly these from both ends. */
  const Whitespace: set<char> := {
    '\t', '\n', '\U{000B}', '\U{000C}', '\r', '\U{001C}', '\U{001D}', '\U{001E}', '\U{001F}', ' ',
    '\U{0085}', '\U{00A0}', '\U{1680}',
    '\U{2000}', '\U{2001}', '\U{2002}', '\U{2003}', '\U{2004}', '\U{2005}', '\U{2006}',
    '\U{2007}', '\U{2008}', '\U{2009}', '\U{200A}',
    '\U{2028}', '\U{2029}', '\U{202F}', '\U{205F}', '\U{3000}'
  }

  /** `s.lstrip(cs)`: the suffix of `s` left after dropping the longest prefix
      made only of characters of `cs`. */
  function TrimLeft(s: string, cs: set<char>): (r: string)
    ensures |r| <= |s| && r == s[|s| - |r|..]
    ensures forall i :: 0 <= i < |s| - |r| ==> s[i] in cs
    ensures r != [] ==> r[0] !in cs
  {
    if s != [] && s[0] in cs then TrimLeft(s[1..], cs) else s
  }

  /** `s.rstrip(cs)`: the prefix of `s` left after dropping the longest suffix
      made only of characters of `cs`. */
  function TrimRight(s: string, cs: set<char>): (r: string)
    ensures |r| <= |s| && r == s[..|r|]
    ensures forall i :: |r| <= i < |s| ==> s[i] in cs
    ensures r != [] ==> r[|r| - 1] !in cs
  {
    if s != [] && s[|s| - 1] in cs then TrimRight(s[..|s| - 1], cs) else s
  }

  /** `s.strip(cs)`: empty exactly when every character of `s` is in `cs`,
      otherwise it begins and ends with a character outside `cs`. */
  function StripChars(s: string, cs: set<char>): (r: string)
    ensures |r| <= |s|
    ensures r == [] <==> forall i :: 0 <= i < |s| ==> s[i] in cs
    ensures r != [] ==> r[0] !in cs && r[|r| - 1] !in cs
  {
    var l := TrimLeft(s, cs);
    var r := TrimRight(l, cs);
    assert r != [] ==> r[0] == l[0];
    r
  }

  /** `s.strip()`. */
  function Strip(s: string): string {
    StripChars(s, Whitespace)
  }

  /** Every character of `s` is one of `cs`: `not s.strip(cs)`. */
  predicate Within(s: string, cs: set<char>) {
    forall i :: 0 <= i < |s| ==> s[i] in cs
  }

  /** `not s.strip()`: the string is empty or all whitespace. */
  predicate IsBlank(s: string) {
    Within(s, Whitespace)
  }

  /** `s.startswith(p)`. */
  predicate StartsWith(s: string, p: string) {
    |p| <= |s| && s[..|p|] == p
  }

  /** `sep.join(parts)`. */
  function Join(sep: string, parts: seq<string>): string {
    if parts == [] then ""
    else if |parts| == 1 then parts[0]
    else parts[0] + sep + Join(sep, parts[1..])
  }

  /** `s.split(sep)` for a one-character separator: the pieces between the
      separators, empty pieces included, never an empty list. */
  function Split(s: string, sep: char): (parts: seq<string>)
    ensures |parts| >= 1
  {
    if s == [] then [""] else Extend(s[0], sep, Split(s[1..], sep))
  }

  /** The pieces of `[c] + t` from those of `t`: a separator starts a new
      empty piece, any other character joins the first piece. */
  function Extend(c: char, sep: char, pieces: seq<string>): (r: seq<string>)
    requires |pieces| >= 1
    ensures |r| >= 1
  {
    if c == sep then [""] + pieces else [[c] + pieces[0]] + pieces[1..]
  }

  /** `c.lower()` on the ASCII letters; every other character is kept. */
  function LowerChar(c: char): char {
    if 'A' <= c <= 'Z' then (c as int + 32) as char else c
  }

  /** `s.lower()`, character by character. */
  function Lower(s: string): (r: string)
    ensures |r| == |s| && forall i :: 0 <= i < |s| ==> r[i] == LowerChar(s[i])
  {
    seq(|s|, i requires 0 <= i < |s| => LowerChar(s[i]))
  }

  /** Python's `a <= b` on strings: code-point lexicographic order. */
  predicate Below(a: string, b: string) {
    a == [] || (b != [] && (a[0] < b[0] || (a[0] == b[0] && Below(a[1..], b[1..]))))
  }

  // ---------------------------------------------------------------------------
  // strip

  /** Stripping twice strips nothing more. */
  lemma StripIdempotent(s: string)
    ensures Strip(Strip(s)) == Strip(s)
  {
    var r := Strip(s);
    if r != [] {
      assert TrimLeft(r, Whitespace) == r;
      assert TrimRight(r, Whitespace) == r;
    }
  }

  /** A stripped string is empty exactly when the original was blank. */
  lemma StripEmptyIffBlank(s: string)
    ensures Strip(s) == [] <==> IsBlank(s)
  {
  }

  /** Dropping the leading characters of `cs` from a concatenation: the
      prefix is consumed whole only when it is made of them. */
  lemma {:induction false} TrimLeftConcat(a: string, b: string, cs: set<char>)
    ensures TrimLeft(a + b, cs) == if TrimLeft(a, cs) == [] then TrimLeft(b, cs) else TrimLeft(a, cs) + b
  {
    if a == [] {
      assert a + b == b;
    } else if a[0] in cs {
      assert (a + b)[1..] == a[1..] + b;
      TrimLeftConcat(a[1..], b, cs);
    } else {
      assert (a + b)[0] == a[0];
    }
  }

  /** A stripped string starts with a non-blank prefix `p` exactly when the
      left-stripped one does: trailing whitespace cannot reach into `p`. */
  lemma StripStartsWith(s: string, p: string)
    requires forall i :: 0 <= i < |p| ==> p[i] !in Whitespace
    ensures StartsWith(Strip(s), p) <==> StartsWith(TrimLeft(s, Whitespace), p)
  {
    StripCharsStartsWith(s, p, Whitespace);
  }

  /** `StripStartsWith` for any set of stripped characters. */
  lemma StripCharsStartsWith(s: string, p: string, cs: set<char>)
    requires forall i :: 0 <= i < |p| ==> p[i] !in cs
    ensures StartsWith(StripChars(s, cs), p) <==> StartsWith(TrimLeft(s, cs), p)
  {
    var l := TrimLeft(s, cs);
    var r := TrimRight(l, cs);
    assert StripChars(s, cs) == r;
    if StartsWith(l, p) && p != [] {
      assert l[|p| - 1] == p[|p| - 1];
      assert |p| <= |r|;
      assert r[..|p|] == l[..|p|];
    }
    if StartsWith(r, p) {
      assert l[..|p|] == r[..|p|];
    }
  }

  // ---------------------------------------------------------------------------
  // split and join

  /** Putting a piece's first character back. */
  lemma JoinPrepend(sep: string, c: string, parts: seq<string>)
    requires |parts| >= 1
    ensures Join(sep, [c + parts[0]] + parts[1..]) == c + Join(sep, parts)
  {
    var ps := [c + parts[0]] + parts[1..];
    if |parts| > 1 {
      assert ps[1..] == parts[1..];
    }
  }

  /** `sep.join(s.split(sep)) == s`. */
  lemma {:induction false} JoinSplit(s: string, sep: char)
    ensures Join([sep], Split(s, sep)) == s
  {
    if s != [] {
      var rest := Split(s[1..], sep);
      JoinSplit(s[1..], sep);
      if s[0] == sep {
        assert ([""] + rest)[1..] == rest;
      } else {
        JoinPrepend([sep], [s[0]], rest);
      }
      assert [s[0]] + s[1..] == s;
    }
  }

  /** No piece holds the separator. */
  lemma {:induction false} SplitSeparatorFree(s: string, sep: char)
    ensures forall p <- Split(s, sep) :: sep !in p
  {
    if s != [] {
      SplitSeparatorFree(s[1..], sep);
      var rest := Split(s[1..], sep);
      if s[0] != sep {
        assert rest[0] in rest;
        assert forall p <- rest[1..] :: p in rest;
      }
    }
  }

  /** A string without the separator is a single piece. */
  lemma {:induction false} SplitNoSep(s: string, sep: char)
    requires sep !in s
    ensures Split(s, sep) == [s]
  {
    if s != [] {
      assert sep !in s[1..];
      SplitNoSep(s[1..], sep);
      assert [s[0]] + s[1..] == s;
    }
  }

  /** Splitting at a separator splits the two sides independently. */
  lemma {:induction false} SplitAround(a: string, b: string, sep: char)
    ensures Split(a + [sep] + b, sep) == Split(a, sep) + Split(b, sep)
  {
    if a == [] {
      assert a + [sep] + b == [sep] + b;
      SplitCons(sep, b, sep);
    } else {
      var t := a[1..];
      assert a + [sep] + b == [a[0]] + (t + [sep] + b);
      assert a == [a[0]] + t;
      SplitAround(t, b, sep);
      SplitAroundStep(a[0], t, b, sep);
    }
  }

  /** The inductive step of `SplitAround`: one more leading character. */
  lemma SplitAroundStep(c: char, t: string, b: string, sep: char)
    requires Split(t + [sep] + b, sep) == Split(t, sep) + Split(b, sep)
    ensures Split([c] + (t + [sep] + b), sep) == Split([c] + t, sep) + Split(b, sep)
  {
    SplitCons(c, t + [sep] + b, sep);
    SplitCons(c, t, sep);
    ExtendConcat(c, sep, Split(t, sep), Split(b, sep));
  }

  /** Extending the pieces of a concatenation touches only the first part. */
  lemma ExtendConcat(c: char, sep: char, ra: seq<string>, rb: seq<string>)
    requires |ra| >= 1
    ensures Extend(c, sep, ra + rb) == Extend(c, sep, ra) + rb
  {
    if c != sep {
      assert (ra + rb)[0] == ra[0];
      assert (ra + rb)[1..] == ra[1..] + rb;
    }
  }

  /** Splitting a string after its first character. */
  lemma SplitCons(c: char, t: string, sep: char)
    ensures Split([c] + t, sep) == Extend(c, sep, Split(t, sep))
  {
    assert ([c] + t)[0] == c && ([c] + t)[1..] == t;
  }

  /** `sep.join(parts).split(sep) == parts` when no part holds the separator. */
  lemma {:induction false} SplitJoin(parts: seq<string>, sep: char)
    requires |parts| >= 1
    requires forall p <- parts :: sep !in p
    ensures Split(Join([sep], parts), sep) == parts
  {
    if |parts| == 1 {
      SplitNoSep(parts[0], sep);
    } else {
      assert parts[0] in parts;
      SplitNoSep(parts[0], sep);
      assert forall p <- parts[1..] :: p in parts;
      SplitJoin(parts[1..], sep);
      SplitAround(parts[0], Join([sep], parts[1..]), sep);
      assert [parts[0]] + parts[1..] == parts;
    }
  }

  /** A joined string lies within `cs` only if every part does; with a
      separator within `cs`, the converse holds too. */
  lemma {:induction false} JoinWithin(sep: string, parts: seq<string>, cs: set<char>)
    ensures Within(Join(sep, parts), cs) ==> forall p <- parts :: Within(p, cs)
    ensures Within(sep, cs) && (forall p <- parts :: Within(p, cs)) ==> Within(Join(sep, parts), cs)
  {
    if |parts| > 1 {
      var j := Join(sep, parts[1..]);
      JoinWithin(sep, parts[1..], cs);
      var whole := parts[0] + sep + j;
      assert forall i :: 0 <= i < |parts[0]| ==> whole[i] == parts[0][i];
      assert forall i :: 0 <= i < |j| ==> whole[|parts[0]| + |sep| + i] == j[i];
      assert forall i :: 0 <= i < |sep| ==> whole[|parts[0]| + i] == sep[i];
      assert forall p <- parts :: p == parts[0] || p in parts[1..];
      if Within(sep, cs) && Within(parts[0], cs) && Within(j, cs) {
        forall i | 0 <= i < |whole|
          ensures whole[i] in cs
        {
          if i >= |parts[0]| + |sep| {
            assert whole[i] == j[i - |parts[0]| - |sep|];
          }
        }
      }
    }
  }

  // ---------------------------------------------------------------------------
  // ordering

  /** String order is total. */
  lemma {:induction false} BelowTotal(a: string, b: string)
    ensures Below(a, b) || Below(b, a)
  {
    if a != [] && b != [] && a[0] == b[0] {
      BelowTotal(a[1..], b[1..]);
    }
  }

  /** String order is transitive. */
  lemma {:induction false} BelowTransitive(a: string, b: string, c: string)
    requires Below(a, b) && Below(b, c)
    ensures Below(a, c)
  {
    if a != [] && a[0] == b[0] && b[0] == c[0] {
      BelowTransitive(a[1..], b[1..], c[1..]);
    }
  }
}
