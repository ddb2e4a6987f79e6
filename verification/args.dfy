/**
 * The command-line option parser of the authentication-state saver.
 *
 * The script scans its arguments left to right, starting from fixed defaults.
 * `--url`, `--output` and `--user` each take the next argument as their value
 * (JavaScript `args[++i]`, which is `undefined` past the end of the list);
 * `--help` and `-h` print the usage text and end the process with exit code 0;
 * every other argument is skipped. After the scan a truthy user name (a
 * present, non-empty string) replaces the output path by `./<user>-auth.json`.
 */
module Args {
  import opened Wrappers

  /** The three flags that consume the following argument as their value. */
  datatype Flag = Url | Output | User

  /**
   * The options record. Each field is a string or absent: `None` stands for
   * both the initial `null` of `user` and the `undefined` a trailing flag reads.
   */
  datatype Options = Options(url: Option<string>, output: Option<string>, user: Option<string>)

  /** Outcome of parsing: the usage text with exit 0, or the options to run with. */
  datatype Parsed = Help | Run(opts: Options)

  const DefaultUrl: string := "https://example.com"
  const DefaultOutput: string := "./auth.json"
  const Defaults: Options := Options(Some(DefaultUrl), Some(DefaultOutput), None)

  /** The flag a token names, if it is one of the three value-taking flags. */
  function FlagOf(tok: string): Option<Flag> {
    if tok == "--url" then Some(Url)
    else if tok == "--output" then Some(Output)
    else if tok == "--user" then Some(User)
    else None
  }

  predicate IsHelp(tok: string) {
    tok == "--help" || tok == "-h"
  }

  function Get(o: Options, f: Flag): Option<string> {
    match f
    case Url => o.url
    case Output => o.output
    case User => o.user
  }

  /** Assigns one field; the other two are left as they were. */
  function Set(o: Options, f: Flag, v: Option<string>): (o': Options)
    ensures Get(o', f) == v
    ensures forall g :: g != f ==> Get(o', g) == Get(o, g)
  {
    match f
    case Url => o.(url := v)
    case Output => o.(output := v)
    case User => o.(user := v)
  }

  /** JavaScript `args[i]`: the element, or `undefined` past the end. */
  function At(args: seq<string>, i: nat): (v: Option<string>)
    ensures v.Some? <==> i < |args|
    ensures v.Some? ==> v.value == args[i]
  {
    if i < |args| then Some(args[i]) else None
  }

  /** JavaScript truthiness of a string-or-absent value. */
  predicate Truthy(v: Option<string>) {
    v.Some? && v.value != ""
  }

  /** The output path a session name selects. */
  function AuthFileFor(user: string): string {
    "./" + user + "-auth.json"
  }

  /**
   * The `for` loop from position `i` on, with the options built so far. A
   * value flag moves two positions, past the value it consumed; a help flag
   * ends the scan; any other argument moves one position.
   */
  function ScanFrom(args: seq<string>, i: nat, o: Options): (r: Parsed)
    ensures r.Help? ==> exists k: nat :: i <= k < |args| && IsHelp(args[k])
    ensures forall f :: r.Run? ==>
      || Get(r.opts, f) == Get(o, f)
      || Get(r.opts, f).None?
      || exists k: nat :: i < k < |args| && Get(r.opts, f) == Some(args[k])
    decreases |args| - i
  {
    if i >= |args| then Run(o)
    else if FlagOf(args[i]).Some? then
      ScanFrom(args, i + 2, Set(o, FlagOf(args[i]).value, At(args, i + 1)))
    else if IsHelp(args[i]) then Help
    else ScanFrom(args, i + 1, o)
  }

  /** The step after the loop: a truthy user name decides the output path. */
  function ApplyUser(o: Options): (o': Options)
    ensures o'.url == o.url && o'.user == o.user
    ensures Truthy(o.user) ==> o'.output == Some("./" + o.user.value + "-auth.json")
    ensures !Truthy(o.user) ==> o'.output == o.output
  {
    if Truthy(o.user) then o.(output := Some(AuthFileFor(o.user.value))) else o
  }

  /** `parseArgs` applied to the arguments after the interpreter and script name. */
  function ParseArgs(args: seq<string>): (p: Parsed)
    ensures args == [] ==>
      p == Run(Options(Some("https://example.com"), Some("./auth.json"), None))
    ensures p.Run? && Truthy(p.opts.user) ==>
      p.opts.output == Some("./" + p.opts.user.value + "-auth.json")
    ensures p.Run? && p.opts.output.None? ==> !Truthy(p.opts.user)
  {
    match ScanFrom(args, 0, Defaults)
    case Help => Help
    case Run(o) => Run(ApplyUser(o))
  }
}
