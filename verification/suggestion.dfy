/**
 * Whether the advisory's suggested patterns make git ignore the files the
 * script saves.
 *
 * The advice names `*.auth.json` and `auth.json`, and a line holding either one
 * silences the check. `--user <name>` saves to `./<name>-auth.json`, though,
 * and git's `*.auth.json` needs a `.` before `auth.json`: it never matches
 * `<name>-auth.json`. So the check goes quiet while the session file is still
 * tracked. The corrected pattern `*-auth.json` matches every session file.
 */
module Suggestion {
  import opened Wrappers
  import opened Args
  import opened ArgsProps
  import opened Text
  import opened Glob
  import opened Gitignore

  /** The pattern that matches every `<name>-auth.json` session file. */
  const SessionPattern: string := "*-auth.json"

  /** The base name of the file a session name selects. */
  lemma SessionFileName(user: string)
    requires '/' !in user
    ensures Basename(AuthFileFor(user)) == user + "-auth.json"
  {
  }

  /** The base name of the file any session name selects ends in `-auth.json`, after the part of the name past its last `/`. */
  lemma SessionBasename(user: string)
    ensures Basename(AuthFileFor(user)) == Basename("./" + user) + "-auth.json"
  {
    assert AuthFileFor(user) == ("./" + user) + "-auth.json";
    BasenameAppend("./" + user, "-auth.json");
  }

  /**
   * The script hands the check the resolved path `<dir>/<name>-auth.json`, not
   * `./<name>-auth.json`; the check reads it only through its base name, so
   * for every directory the advice is the same as for the unresolved path.
   */
  lemma ResolvedPathSameAdvice(shared: string, gitignore: Option<string>, dir: string, user: string)
    ensures CheckWith(shared, gitignore, dir + "/" + user + "-auth.json")
         == CheckWith(shared, gitignore, AuthFileFor(user))
  {
    assert dir + "/" + user + "-auth.json" == (dir + "/" + user) + "-auth.json";
    BasenameAppend(dir + "/" + user, "-auth.json");
    BasenameIgnoresDir(dir, ".", user);
    assert "." + "/" + user == "./" + user;
    SessionBasename(user);
  }

  /** Git's `*.auth.json` and `auth.json` match no `<name>-auth.json`. */
  lemma SharedPatternMisses(name: string, user: string)
    requires name == user + "-auth.json"
    ensures !GlobMatch(SharedPattern, name) && !GlobMatch(PlainPattern, name)
  {
    assert SharedPattern == ['*'] + ".auth.json";
    StarThenLiteral(".auth.json", name);
    assert name[|name| - 10] == '-';
    LiteralMatch(PlainPattern, name);
  }

  /**
   * As written: for a run with a session name, neither suggested pattern
   * matches the saved file's name, yet a `.gitignore` holding the suggested
   * `*.auth.json` line silences the check.
   */
  lemma SuggestionMissesSessionFile(args: seq<string>, user: string)
    requires ParseArgs(args).Run? && ParseArgs(args).opts.user == Some(user)
    requires user != ""
    ensures ParseArgs(args).opts.output == Some("./" + user + "-auth.json")
    ensures !GlobMatch(SharedPattern, Basename(ParseArgs(args).opts.output.value))
    ensures !GlobMatch(PlainPattern, Basename(ParseArgs(args).opts.output.value))
    ensures CheckGitignore(Some(SharedPattern + "\n"), ParseArgs(args).opts.output.value) == Covered
  {
    var path := AuthFileFor(user);
    SessionBasename(user);
    SharedPatternMisses(Basename(path), Basename("./" + user));
    assert [] + SharedPattern + "\n" == SharedPattern + "\n";
    SuggestedLineSilences([], SharedPattern, path);
  }

  /** The check with the corrected shared pattern `*-auth.json`. */
  function CheckGitignoreFixed(gitignore: Option<string>, authFilePath: string): (a: Advice)
    ensures a == NoGitignore <==> gitignore.None?
    ensures AdvisoryShown(a) <==>
      || gitignore.None?
      || forall line :: line in Split(gitignore.value, '\n') ==>
           Trim(line) != "*-auth.json" && Trim(line) != "auth.json" && Trim(line) != Basename(authFilePath)
  {
    CheckWith(SessionPattern, gitignore, authFilePath)
  }

  /** `*-auth.json` matches every `<name>-auth.json`. */
  lemma SessionPatternMatches(name: string, user: string)
    requires name == user + "-auth.json"
    ensures GlobMatch(SessionPattern, name)
  {
    assert SessionPattern == ['*'] + "-auth.json";
    StarThenLiteral("-auth.json", name);
    assert name[|name| - 10..] == "-auth.json";
  }

  /**
   * Corrected: for a run with a session name, the suggested `*-auth.json`
   * matches the saved file's name, and a `.gitignore` holding that line
   * silences the check.
   */
  lemma FixedSuggestionIgnoresSessionFile(args: seq<string>, user: string)
    requires ParseArgs(args).Run? && ParseArgs(args).opts.user == Some(user)
    requires user != ""
    ensures ParseArgs(args).opts.output == Some("./" + user + "-auth.json")
    ensures GlobMatch(SessionPattern, Basename(ParseArgs(args).opts.output.value))
    ensures CheckGitignoreFixed(Some(SessionPattern + "\n"), ParseArgs(args).opts.output.value) == Covered
  {
    var path := AuthFileFor(user);
    SessionBasename(user);
    SessionPatternMatches(Basename(path), Basename("./" + user));
    assert [] + SessionPattern + "\n" == SessionPattern + "\n";
    PatternLineSilences([], SessionPattern, SessionPattern, path);
  }

  /**
   * Without a session name or `--output`, the script saves `./auth.json`, and
   * the suggested `auth.json` matches it (as written and corrected alike).
   */
  lemma DefaultFileIgnored(args: seq<string>)
    requires ParseArgs(args).Run? && !Truthy(ParseArgs(args).opts.user)
    requires forall k: nat :: !FlagFrom(args, 0, k, Output)
    ensures ParseArgs(args).opts.output == Some("./auth.json")
    ensures GlobMatch(PlainPattern, Basename(ParseArgs(args).opts.output.value))
  {
    OutputLastWins(args);
    BasenameOfJoin(".", "auth.json");
    assert "./auth.json" == "." + "/" + "auth.json";
    LiteralMatch(PlainPattern, "auth.json");
  }
}
