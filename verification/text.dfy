/**
 * The JavaScript string and path operations the .gitignore check relies on:
 * `String.prototype.split` with a one-character separator, its inverse
 * `Array.prototype.join`, `String.prototype.trim`, and `path.basename`.
 */
module Text {

  /** ECMAScript WhiteSpace and LineTerminator code points: what `trim` removes. */
  predicate IsWhitespace(c: char) {
    || c == '\t' || c == '\n' || c == '\U{0B}' || c == '\U{0C}' || c == '\r' || c == ' '
    || c == '\U{A0}' || c == '\U{1680}' || ('\U{2000}' <= c <= '\U{200A}')
    || c == '\U{2028}' || c == '\U{2029}' || c == '\U{202F}' || c == '\U{205F}'
    || c == '\U{3000}' || c == '\U{FEFF}'
  }

  /** Every character of `s` from `lo` up to `hi` is whitespace. */
  predicate WhitespaceIn(s: string, lo: int, hi: int) {
    forall i :: lo <= i < hi && 0 <= i < |s| ==> IsWhitespace(s[i])
  }

  predicate AllWhitespace(s: string) {
    WhitespaceIn(s, 0, |s|)
  }

  /**
   * `s.split(sep)`: the maximal pieces between separators, in order. There is
   * always at least one piece, and none contains the separator.
   */
  function Split(s: string, sep: char): (parts: seq<string>)
    ensures |parts| >= 1
    ensures forall i :: 0 <= i < |parts| ==> sep !in parts[i]
    decreases |s|
  {
    if s == [] then [[]]
    else if s[0] == sep then [[]] + Split(s[1..], sep)
    else
      var rest := Split(s[1..], sep);
      [[s[0]] + rest[0]] + rest[1..]
  }

  /** `parts.join(sep)`. */
  function Join(parts: seq<string>, sep: char): string
    decreases |parts|
  {
    if |parts| == 0 then []
    else if |parts| == 1 then parts[0]
    else parts[0] + [sep] + Join(parts[1..], sep)
  }

  /** Joining the pieces back with the separator restores the string. */
  lemma {:induction false} JoinSplit(s: string, sep: char)
    ensures Join(Split(s, sep), sep) == s
    decreases |s|
  {
    if s == [] {
    } else if s[0] == sep {
      JoinSplit(s[1..], sep);
      assert s == [sep] + s[1..];
    } else {
      var rest := Split(s[1..], sep);
      JoinSplit(s[1..], sep);
      assert s == [s[0]] + s[1..];
      if |rest| > 1 {
        assert rest == [rest[0]] + rest[1..];
        assert Join(rest, sep) == rest[0] + [sep] + Join(rest[1..], sep);
      }
    }
  }

  /** Splitting a piece that holds no separator, followed by more text, extends the first piece. */
  lemma {:induction false} SplitPrefix(p: string, t: string, sep: char)
    requires sep !in p
    ensures Split(p + t, sep) == [p + Split(t, sep)[0]] + Split(t, sep)[1..]
    decreases |p|
  {
    if p != [] {
      var ts := Split(t, sep);
      assert (p + t)[0] == p[0];
      assert (p + t)[1..] == p[1..] + t;
      SplitPrefix(p[1..], t, sep);
      var rest := Split(p[1..] + t, sep);
      assert rest[0] == p[1..] + ts[0];
      assert rest[1..] == ts[1..];
      assert Split(p + t, sep) == [[p[0]] + rest[0]] + rest[1..];
      assert [p[0]] + (p[1..] + ts[0]) == p + ts[0];
    } else {
      assert p + t == t;
      assert p + Split(t, sep)[0] == Split(t, sep)[0];
      assert Split(t, sep) == [Split(t, sep)[0]] + Split(t, sep)[1..];
    }
  }

  /** Splitting text around one separator splits each side. */
  lemma SplitAround(a: string, b: string, sep: char)
    requires sep !in a
    ensures Split(a + [sep] + b, sep) == [a] + Split(b, sep)
  {
    SplitPrefix(a, [sep] + b, sep);
    assert ([sep] + b)[0] == sep;
    assert ([sep] + b)[1..] == b;
    assert Split([sep] + b, sep) == [[]] + Split(b, sep);
    assert a + [] == a;
    assert a + [sep] + b == a + ([sep] + b);
  }

  /** Pieces free of the separator come back unchanged from joining and splitting. */
  lemma {:induction false} SplitJoin(parts: seq<string>, sep: char)
    requires |parts| >= 1
    requires forall i :: 0 <= i < |parts| ==> sep !in parts[i]
    ensures Split(Join(parts, sep), sep) == parts
    decreases |parts|
  {
    if |parts| > 1 {
      SplitJoin(parts[1..], sep);
      SplitAround(parts[0], Join(parts[1..], sep), sep);
      assert parts == [parts[0]] + parts[1..];
    } else {
      SplitPrefix(parts[0], [], sep);
      assert parts[0] + [] == parts[0];
    }
  }

  /** Splitting text that ends in a separator and more text appends that text's pieces. */
  lemma {:induction false} SplitAppend(s: string, t: string, sep: char)
    ensures Split(s + [sep] + t, sep) == Split(s, sep) + Split(t, sep)
    decreases |s|
  {
    if s == [] {
      assert s + [sep] + t == [sep] + t;
      assert ([sep] + t)[1..] == t;
    } else {
      assert (s + [sep] + t)[0] == s[0];
      assert (s + [sep] + t)[1..] == s[1..] + [sep] + t;
      SplitAppend(s[1..], t, sep);
      if s[0] != sep {
        var rest := Split(s[1..], sep);
        assert Split(s[1..] + [sep] + t, sep) == rest + Split(t, sep);
      }
    }
  }

  /** A line added after a separator-terminated (or empty) text, and terminated itself, is one of the pieces. */
  lemma LineOfItsOwn(text: string, line: string, sep: char)
    requires sep !in line
    requires text == [] || text[|text| - 1] == sep
    ensures line in Split(text + line + [sep], sep)
  {
    SplitAround(line, [], sep);
    assert line + [sep] == line + [sep] + [];
    if text == [] {
      assert text + line + [sep] == line + [sep];
    } else {
      var c := text[..|text| - 1];
      assert text + line + [sep] == c + [sep] + (line + [sep]);
      SplitAppend(c, line + [sep], sep);
    }
  }

  /** Scanning forward from `i`, the first position that is not whitespace (or the end). */
  function SkipLeading(s: string, i: nat): (a: nat)
    requires i <= |s|
    ensures i <= a <= |s|
    ensures WhitespaceIn(s, i, a)
    ensures a < |s| ==> !IsWhitespace(s[a])
    decreases |s| - i
  {
    if i < |s| && IsWhitespace(s[i]) then SkipLeading(s, i + 1) else i
  }

  /** Scanning backward from `j`, the end of the last character that is not whitespace (or 0). */
  function SkipTrailing(s: string, j: nat): (b: nat)
    requires j <= |s|
    ensures b <= j
    ensures WhitespaceIn(s, b, j)
    ensures 0 < b ==> !IsWhitespace(s[b - 1])
  {
    if 0 < j && IsWhitespace(s[j - 1]) then SkipTrailing(s, j - 1) else j
  }

  /**
   * `r` is `x` with leading and trailing whitespace removed: `x` is `r` at
   * offset `a`, with only whitespace before and after, and `r` neither starts
   * nor ends with whitespace.
   */
  ghost predicate TrimmedAt(x: string, a: nat, r: string) {
    && a + |r| <= |x|
    && x[a..a + |r|] == r
    && WhitespaceIn(x, 0, a)
    && WhitespaceIn(x, a + |r|, |x|)
    && (r == [] || (!IsWhitespace(r[0]) && !IsWhitespace(r[|r| - 1])))
  }

  /** `trim`: the string without its leading and trailing whitespace. */
  function Trim(s: string): (r: string)
    ensures exists a: nat :: TrimmedAt(s, a, r)
  {
    var a := SkipLeading(s, 0);
    var b := SkipTrailing(s, |s|);
    if a < b then
      assert TrimmedAt(s, a, s[a..b]);
      s[a..b]
    else
      assert TrimmedAt(s, 0, []);
      []
  }

  /** Only one string is `x` without its surrounding whitespace. */
  lemma TrimmedAtUnique(x: string, a1: nat, r1: string, a2: nat, r2: string)
    requires TrimmedAt(x, a1, r1) && TrimmedAt(x, a2, r2)
    ensures r1 == r2
  {
  }

  /** `x` without its surrounding whitespace is what `trim` returns. */
  lemma TrimmedAtIsTrim(x: string, a: nat, r: string)
    requires TrimmedAt(x, a, r)
    ensures Trim(x) == r
  {
  }

  /**
   * Whitespace around a string does not change its trimmed form: indentation
   * and a trailing carriage return are harmless.
   */
  lemma TrimPadded(p: string, s: string, q: string)
    requires AllWhitespace(p) && AllWhitespace(q)
    ensures Trim(p + s + q) == Trim(s)
  {
    var r := Trim(s);
    var a: nat :| TrimmedAt(s, a, r);
    var x := p + s + q;
    assert x[|p| + a..|p| + a + |r|] == s[a..a + |r|];
    forall i | 0 <= i < |p| + a ensures IsWhitespace(x[i]) {
      if i >= |p| { assert x[i] == s[i - |p|]; }
    }
    forall i | |p| + a + |r| <= i < |x| ensures IsWhitespace(x[i]) {
      if i < |p| + |s| { assert x[i] == s[i - |p|]; } else { assert x[i] == q[i - |p| - |s|]; }
    }
    assert TrimmedAt(x, |p| + a, r);
    TrimmedAtIsTrim(x, |p| + a, r);
  }

  /** Trimming a trimmed string changes nothing. */
  lemma TrimIdempotent(s: string)
    ensures Trim(Trim(s)) == Trim(s)
  {
  }

  /**
   * `path.basename` of a path without a trailing separator: the text after the
   * last `/`, or the whole path when it holds none.
   */
  function Basename(path: string): (r: string)
    ensures '/' !in r
    ensures |r| <= |path| && r == path[|path| - |r|..]
    ensures |r| == |path| || path[|path| - |r| - 1] == '/'
    decreases |path|
  {
    if path == [] || path[|path| - 1] == '/' then []
    else
      var r := Basename(path[..|path| - 1]);
      assert path[|path| - |r| - 1..] == path[..|path| - 1][|path| - 1 - |r|..] + [path[|path| - 1]];
      r + [path[|path| - 1]]
  }

  /** The basename of a directory joined with a file name is that file name. */
  lemma BasenameOfJoin(dir: string, name: string)
    requires '/' !in name
    ensures Basename(dir + "/" + name) == name
  {
    var p := dir + "/" + name;
    assert p[|p| - |name| - 1] == '/';
    assert p[|p| - |name|..] == name;
  }
  /** One step of `Basename`: a path ending in a character other than `/` keeps that character. */
  lemma BasenameLast(p: string)
    requires p != [] && p[|p| - 1] != '/'
    ensures Basename(p) == Basename(p[..|p| - 1]) + [p[|p| - 1]]
  {
  }

  /** Text without `/` appended to a path extends its base name by that text. */
  lemma {:induction false} BasenameAppend(s: string, t: string)
    requires '/' !in t
    ensures Basename(s + t) == Basename(s) + t
    decreases |t|
  {
    if t != [] {
      var p, t' := s + t, t[..|t| - 1];
      assert p[..|p| - 1] == s + t';
      assert p[|p| - 1] == t[|t| - 1];
      BasenameLast(p);
      BasenameAppend(s, t');
      assert t == t' + [t[|t| - 1]];
    } else {
      assert s + t == s;
    }
  }

  /** The base name depends only on what follows the last `/`: the directory before it never matters. */
  lemma {:induction false} BasenameIgnoresDir(a: string, b: string, u: string)
    ensures Basename(a + "/" + u) == Basename(b + "/" + u)
    decreases |u|
  {
    var p, q := a + "/" + u, b + "/" + u;
    if u == [] {
      assert p[|p| - 1] == '/' && q[|q| - 1] == '/';
    } else if u[|u| - 1] == '/' {
      assert p[|p| - 1] == '/' && q[|q| - 1] == '/';
    } else {
      var u' := u[..|u| - 1];
      assert p[..|p| - 1] == a + "/" + u';
      assert q[..|q| - 1] == b + "/" + u';
      assert p[|p| - 1] == u[|u| - 1] == q[|q| - 1];
      BasenameLast(p);
      BasenameLast(q);
      BasenameIgnoresDir(a, b, u');
    }
  }
}
