/**
 * The .gitignore advisory of the authentication-state saver.
 *
 * After saving, the script looks for `.gitignore` in the working directory.
 * When the file is missing it suggests creating it; when no line of it,
 * trimmed, is exactly `*.auth.json`, `auth.json` or the saved file's base
 * name, it suggests the lines to add. It never writes the file: the check is
 * a function of the file's content and the saved path, and returns only which
 * advice, if any, is printed.
 */
module Gitignore {
  import opened Wrappers
  import opened Text

  /** The two patterns the advice suggests. */
  const SharedPattern: string := "*.auth.json"
  const PlainPattern: string := "auth.json"

  /** Which advice the check prints. */
  datatype Advice = NoGitignore | PatternMissing | Covered

  predicate AdvisoryShown(a: Advice) {
    a != Covered
  }

  /**
   * A line covers the auth file when, trimmed, it equals the shared pattern,
   * `auth.json` or the file's base name exactly; no glob matching is done.
   * The script's shared pattern is `SharedPattern`; it is a parameter here so
   * that a corrected pattern can be checked against the same code.
   */
  predicate Covers(line: string, authFileName: string, shared: string) {
    var t := Trim(line);
    t == shared || t == PlainPattern || t == authFileName
  }

  /** `lines.some(...)` with the covering test. */
  function AnyCovers(lines: seq<string>, authFileName: string, shared: string): (b: bool)
    ensures b <==> exists line :: line in lines && Covers(line, authFileName, shared)
    decreases |lines|
  {
    if lines == [] then false
    else Covers(lines[0], authFileName, shared) || AnyCovers(lines[1..], authFileName, shared)
  }

  /**
   * The body of `checkGitignore(authFilePath)` with the file's content passed
   * in (`None` when `.gitignore` does not exist) and the shared pattern as a
   * parameter.
   */
  function CheckWith(shared: string, gitignore: Option<string>, authFilePath: string): (a: Advice)
    ensures a == NoGitignore <==> gitignore.None?
    ensures a == Covered <==>
      gitignore.Some? &&
      exists line :: line in Split(gitignore.value, '\n') && Covers(line, Basename(authFilePath), shared)
  {
    match gitignore
    case None => NoGitignore
    case Some(content) =>
      var name := Basename(authFilePath);
      var lines := Split(content, '\n');
      var found := AnyCovers(lines, name, shared);
      assert found <==> exists line :: line in lines && Covers(line, name, shared);
      if found then Covered else PatternMissing
  }

  /**
   * `checkGitignore(authFilePath)`: the advice is shown exactly when the file
   * is missing or none of its lines, trimmed, is `*.auth.json`, `auth.json`
   * or the auth file's base name.
   */
  function CheckGitignore(gitignore: Option<string>, authFilePath: string): (a: Advice)
    ensures a == NoGitignore <==> gitignore.None?
    ensures AdvisoryShown(a) <==>
      || gitignore.None?
      || forall line :: line in Split(gitignore.value, '\n') ==>
           Trim(line) != "*.auth.json" && Trim(line) != "auth.json" && Trim(line) != Basename(authFilePath)
  {
    CheckWith(SharedPattern, gitignore, authFilePath)
  }

  /** Two line lists that agree line by line after trimming get the same advice. */
  lemma {:induction false} SameTrimSameCover(l1: seq<string>, l2: seq<string>, name: string, shared: string)
    requires |l1| == |l2|
    requires forall i :: 0 <= i < |l1| ==> Trim(l1[i]) == Trim(l2[i])
    ensures AnyCovers(l1, name, shared) == AnyCovers(l2, name, shared)
    decreases |l1|
  {
    if l1 != [] {
      SameTrimSameCover(l1[1..], l2[1..], name, shared);
    }
  }

  /**
   * Whitespace around the lines of a .gitignore, such as indentation or the
   * carriage return of a CRLF line ending, never changes the advice.
   */
  lemma PaddingHarmless(lines: seq<string>, before: seq<string>, after: seq<string>, authFilePath: string)
    requires |lines| >= 1 && |before| == |lines| && |after| == |lines|
    requires forall i :: 0 <= i < |lines| ==> '\n' !in lines[i]
    requires forall i :: 0 <= i < |lines| ==> AllWhitespace(before[i]) && '\n' !in before[i]
    requires forall i :: 0 <= i < |lines| ==> AllWhitespace(after[i]) && '\n' !in after[i]
    ensures
      var padded := seq(|lines|, i requires 0 <= i < |lines| => before[i] + lines[i] + after[i]);
      CheckGitignore(Some(Join(padded, '\n')), authFilePath)
        == CheckGitignore(Some(Join(lines, '\n')), authFilePath)
  {
    var padded := seq(|lines|, i requires 0 <= i < |lines| => before[i] + lines[i] + after[i]);
    forall i | 0 <= i < |lines| ensures '\n' !in padded[i] && Trim(padded[i]) == Trim(lines[i]) {
      TrimPadded(before[i], lines[i], after[i]);
    }
    SplitJoin(lines, '\n');
    SplitJoin(padded, '\n');
    SameTrimSameCover(padded, lines, Basename(authFilePath), SharedPattern);
  }

  /** A pattern with no surrounding whitespace is its own trimmed form. */
  lemma TrimPattern(pattern: string)
    requires 0 < |pattern|
    requires !IsWhitespace(pattern[0]) && !IsWhitespace(pattern[|pattern| - 1])
    ensures Trim(pattern) == pattern
  {
  }

  /**
   * Adding a covering pattern as a line of its own, to a .gitignore that is
   * empty or ends with a newline, makes the check silent for every saved path.
   */
  lemma PatternLineSilences(content: string, pattern: string, shared: string, authFilePath: string)
    requires pattern == shared || pattern == PlainPattern
    requires 0 < |pattern| && '\n' !in pattern
    requires !IsWhitespace(pattern[0]) && !IsWhitespace(pattern[|pattern| - 1])
    requires content == [] || content[|content| - 1] == '\n'
    ensures CheckWith(shared, Some(content + pattern + "\n"), authFilePath) == Covered
  {
    TrimPattern(pattern);
    LineOfItsOwn(content, pattern, '\n');
    assert Covers(pattern, Basename(authFilePath), shared);
  }

  /**
   * Adding either suggested pattern as a line of its own, to a .gitignore that
   * is empty or ends with a newline, silences the advice for every saved path.
   */
  lemma SuggestedLineSilences(content: string, pattern: string, authFilePath: string)
    requires pattern == SharedPattern || pattern == PlainPattern
    requires content == [] || content[|content| - 1] == '\n'
    ensures CheckGitignore(Some(content + pattern + "\n"), authFilePath) == Covered
  {
    PatternLineSilences(content, pattern, SharedPattern, authFilePath);
  }

  /**
   * Matching is exact string equality, not globbing: a line `*.json` does not
   * cover `auth.json`, and the advice is still shown.
   */
  lemma GlobLineDoesNotCover()
    ensures CheckGitignore(Some("*.json"), "/w/auth.json") == PatternMissing
  {
    GlobLineFacts();
    assert !Covers("*.json", "auth.json", SharedPattern);
  }

  /** The base name, trimmed line and pieces of the example above. */
  lemma GlobLineFacts()
    ensures Basename("/w/auth.json") == "auth.json"
    ensures Trim("*.json") == "*.json"
    ensures Split("*.json", '\n') == ["*.json"]
  {
    BasenameExample();
    TrimPattern("*.json");
    SplitJoin(["*.json"], '\n');
  }

  lemma BasenameExample()
    ensures Basename("/w/auth.json") == "auth.json"
  {
    BasenameOfJoin("/w", "auth.json");
    assert "/w/auth.json" == "/w" + "/" + "auth.json";
  }
}
