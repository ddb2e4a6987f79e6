# Playwright authentication-state saver: option parsing and .gitignore advisory

This project models the logic of `save-auth-state.js`, a Node.js script that opens a browser so that a person can log in to a website, then saves the browser's storage state (cookies and per-origin local storage) to a JSON file for later use by Playwright tooling. Everything the script does apart from three pieces of pure logic is browser, filesystem or terminal I/O. The model covers those three pieces, and one consequence of the advisory's wording:

- **Option parsing** (`parseArgs`): a left-to-right scan of the command-line arguments over fixed defaults (`https://example.com`, `./auth.json`, no user). `--url`, `--output` and `--user` each take the next argument as their value. `--help` / `-h` prints the usage text and exits with code 0. Any other argument is skipped. After the scan, a truthy user name replaces the output path with `./<user>-auth.json`. Modules `Args` (the parser) and `ArgsProps` (its properties).
- **.gitignore advisory** (`checkGitignore`): the .gitignore content is passed in, with `None` when the file does not exist. The advice is shown when the file is missing, or when no `'\n'`-separated line, once trimmed, is exactly `*.auth.json`, `auth.json` or the base name of the saved file. Module `Gitignore`, built on `Text`, which models JavaScript `split`, `join`, `trim` and `path.basename`.
- **Whether the suggested patterns work** (module `Suggestion`, with `Glob` for how git reads a pattern): the advice's `*.auth.json` does not match the `<name>-auth.json` files that `--user` produces; see Findings.
- **Saved-data summary** (the counts printed after saving): each array's length, or 0 when the field is missing. Module `Summary`.

A "flag position" (`ArgsProps.Reached`) is an index the parser's loop would read as a flag if no help token stopped it first. Position 0 is one. After a value flag the next flag position is two further on, and after any other argument it is one further on. The chain does not stop at `--help` or `-h`: positions after a help token still count, and the properties that mention them are stated only for runs, where no flag position holds a help token. The parser's properties are stated over these positions, as an independent description of the scan.

## Model

| member | source | states |
|---|---|---|
| Args.ParseArgs | skills/playwright-auth-manager/scripts/save-auth-state.js:30-80 | With no arguments the result is url `https://example.com`, output `./auth.json`, no user. Whenever the final user name is truthy, the output path is `./<user>-auth.json`. An output made undefined by a trailing `--output` survives only when the user name is falsy. |
| Args.At | skills/playwright-auth-manager/scripts/save-auth-state.js:41-47 | `args[++i]`: the argument at the index when it lies inside the list, and undefined exactly when the index is past the end. |
| Args.ScanFrom | skills/playwright-auth-manager/scripts/save-auth-state.js:38-72 | The `for`/`switch` loop from a given position. It ends in the usage text only if some later argument is `--help` or `-h`. In a run, every field either keeps its starting value, is undefined, or is an argument after the starting position. |
| Args.ApplyUser | skills/playwright-auth-manager/scripts/save-auth-state.js:74-77 | After the loop, a truthy user name sets the output path to `./<user>-auth.json`. A falsy one leaves the output as it was. The url and the user name are never changed. |
| Args.Set | skills/playwright-auth-manager/scripts/save-auth-state.js:40-48 | Each case of the switch assigns exactly one field and leaves the other two unchanged. |
| ArgsProps.ScanResolves | skills/playwright-auth-manager/scripts/save-auth-state.js:38-48 | From any starting position and options, every field the scan returns is the value after the last flag position naming it. If no flag position names it, the field keeps its starting value. |
| ArgsProps.ScanHelpIff | skills/playwright-auth-manager/scripts/save-auth-state.js:38-72 | From any starting position, the scan ends in the usage text exactly when some flag position holds `--help` or `-h`. |
| ArgsProps.HelpIff | skills/playwright-auth-manager/scripts/save-auth-state.js:49-70 | `parseArgs` ends with the usage text and exit 0, returning no options, if and only if `--help` or `-h` sits at a flag position. |
| ArgsProps.LastWins | skills/playwright-auth-manager/scripts/save-auth-state.js:32-48 | For a run, the url and the user name are the values after the last `--url` / `--user` flag position, or undefined if that flag ends the list. With no such position they are the defaults. Repeated flags: the last one wins. |
| ArgsProps.OutputLastWins | skills/playwright-auth-manager/scripts/save-auth-state.js:34-77 | When the final user name is falsy, the output path is the value after the last `--output` flag position, or `./auth.json` when there is none. |
| ArgsProps.UserOverride | skills/playwright-auth-manager/scripts/save-auth-state.js:46-77 | If the last `--user` is followed by a non-empty name, the output path is `./<name>-auth.json`, with no condition on where or how often `--output` occurs. |
| ArgsProps.FalsyUserKeepsOutput | skills/playwright-auth-manager/scripts/save-auth-state.js:46-77 | A last `--user` that ends the list, or is followed by the empty string, does not override: the output path is decided by `--output` and the default alone. |
| ArgsProps.ValueConsumed | skills/playwright-auth-manager/scripts/save-auth-state.js:38-48 | The argument after a value flag at a flag position is never itself a flag position, so `--help` there does not stop the run. The next flag position is the one after it. |
| ArgsProps.SkipHasNoEffect | skills/playwright-auth-manager/scripts/save-auth-state.js:38-72 | Deleting an argument that sits at a flag position and matches no case of the switch leaves the parse result unchanged. |
| ArgsProps.HelpAsValue | skills/playwright-auth-manager/scripts/save-auth-state.js:46-50 | `--user --help` runs with user `--help` and output `./--help-auth.json` instead of printing the usage text. |
| ArgsProps.OverrideEitherOrder | skills/playwright-auth-manager/scripts/save-auth-state.js:43-77 | `--output ./x.json --user bob` and `--user bob --output ./x.json` both give output `./bob-auth.json`. |
| Text.Split | skills/playwright-auth-manager/scripts/save-auth-state.js:98 | `split('\n')` returns at least one piece, and no piece contains the separator. |
| Text.JoinSplit | skills/playwright-auth-manager/scripts/save-auth-state.js:98 | Joining the pieces of a split with the separator gives back the original text. |
| Text.SplitJoin | skills/playwright-auth-manager/scripts/save-auth-state.js:98 | Splitting the join of one or more separator-free pieces gives back exactly those pieces. |
| Text.Trim | skills/playwright-auth-manager/scripts/save-auth-state.js:101 | `trim()` returns a slice of its input with only ECMAScript whitespace and line terminators before and after it, and it neither starts nor ends with whitespace. |
| Text.TrimmedAtUnique | skills/playwright-auth-manager/scripts/save-auth-state.js:101 | At most one string is the input with its surrounding whitespace removed, so the description `Trim` meets determines its result. |
| Text.TrimPadded | skills/playwright-auth-manager/scripts/save-auth-state.js:101 | Adding whitespace before or after a line, such as indentation or a trailing `\r`, does not change its trimmed form. |
| Text.TrimIdempotent | skills/playwright-auth-manager/scripts/save-auth-state.js:101 | Trimming an already trimmed string changes nothing. |
| Text.Basename | skills/playwright-auth-manager/scripts/save-auth-state.js:85 | The base name contains no `/`, is a suffix of the path, and is the whole path or follows a `/`: it is what comes after the last `/`. |
| Text.BasenameAppend | skills/playwright-auth-manager/scripts/save-auth-state.js:85 | Appending text without `/` to a path appends the same text to its base name. |
| Text.BasenameIgnoresDir | skills/playwright-auth-manager/scripts/save-auth-state.js:85 | The base name of `<dir>/<rest>` does not depend on `<dir>`. |
| Text.BasenameOfJoin | skills/playwright-auth-manager/scripts/save-auth-state.js:85 | The base name of `dir + "/" + name`, for a name without `/`, is `name`. |
| Gitignore.AnyCovers | skills/playwright-auth-manager/scripts/save-auth-state.js:100-105 | `lines.some(...)` holds exactly when some line, trimmed, equals the shared pattern, `auth.json` or the auth file's base name. |
| Gitignore.CheckWith | skills/playwright-auth-manager/scripts/save-auth-state.js:83-113 | The "no .gitignore" advice is given exactly when the file is absent. The check stays silent exactly when the file exists and one of its `'\n'`-separated lines covers the auth file. Otherwise the "pattern not found" advice is given. The result is only the advice: the file is never written. |
| Gitignore.CheckGitignore | skills/playwright-auth-manager/scripts/save-auth-state.js:83-113 | The advice is shown if and only if the .gitignore is absent, or none of its `'\n'`-separated lines, trimmed, is exactly `*.auth.json`, `auth.json` or the base name of the saved path. Its "no .gitignore" form is given exactly when the file is absent. |
| Gitignore.SameTrimSameCover | skills/playwright-auth-manager/scripts/save-auth-state.js:100-105 | Two line lists that agree line by line after trimming cover the same auth file names. |
| Gitignore.PaddingHarmless | skills/playwright-auth-manager/scripts/save-auth-state.js:98-105 | Surrounding every line of a .gitignore with whitespace, such as indentation or CRLF line endings, never changes the advice. |
| Gitignore.PatternLineSilences | skills/playwright-auth-manager/scripts/save-auth-state.js:98-105 | A covering pattern added on its own line to an empty or newline-terminated .gitignore makes the check silent for every saved path. |
| Gitignore.SuggestedLineSilences | skills/playwright-auth-manager/scripts/save-auth-state.js:107-111 | After either suggested line (`*.auth.json` or `auth.json`) is added on its own line to an empty or newline-terminated .gitignore, the advice is silent for every saved path. |
| Gitignore.GlobLineDoesNotCover | skills/playwright-auth-manager/scripts/save-auth-state.js:100-105 | Matching is exact, not globbing: a .gitignore whose only line is `*.json` still gets the advice for `/w/auth.json`. |
| Glob.LiteralMatch | skills/playwright-auth-manager/scripts/save-auth-state.js:110-111 | Read by git, a pattern without `*` (such as `auth.json`) matches exactly the name it spells. |
| Glob.StarThenLiteral | skills/playwright-auth-manager/scripts/save-auth-state.js:110-111 | Read by git, `*` followed by literal text (such as `*.auth.json`) matches exactly the names ending in that text. |
| Suggestion.SessionFileName | skills/playwright-auth-manager/scripts/save-auth-state.js:74-77 | For a name without `/`, the base name of the path `--user <name>` selects is `<name>-auth.json`. |
| Suggestion.SessionBasename | skills/playwright-auth-manager/scripts/save-auth-state.js:74-85 | For any session name, including one with `/` such as `team/alice`, the base name of `./<name>-auth.json` is the part of the name after its last `/`, followed by `-auth.json`. |
| Suggestion.ResolvedPathSameAdvice | skills/playwright-auth-manager/scripts/save-auth-state.js:176-191 | The check receives the resolved path `<dir>/<name>-auth.json`. For any directory and any session name, including one with `/`, the advice is the same as for `./<name>-auth.json`, because only the base name is compared. |
| Suggestion.SharedPatternMisses | skills/playwright-auth-manager/scripts/save-auth-state.js:108-111 | Neither suggested pattern, read by git, matches any `<name>-auth.json`. |
| Suggestion.SuggestionMissesSessionFile | skills/playwright-auth-manager/scripts/save-auth-state.js:74-111 | As written: for every run with a non-empty session name, including one with `/`, neither suggested pattern makes git ignore the saved file, yet a .gitignore holding the suggested `*.auth.json` line silences the check. |
| Suggestion.CheckGitignoreFixed | skills/playwright-auth-manager/scripts/save-auth-state.js:83-113 | The check with `*-auth.json` in place of `*.auth.json`: the advice is shown if and only if the file is absent or no line, trimmed, is `*-auth.json`, `auth.json` or the base name. |
| Suggestion.SessionPatternMatches | skills/playwright-auth-manager/scripts/save-auth-state.js:74-77 | `*-auth.json`, read by git, matches every `<name>-auth.json`. |
| Suggestion.FixedSuggestionIgnoresSessionFile | skills/playwright-auth-manager/scripts/save-auth-state.js:74-111 | Corrected: for every run with a non-empty session name, including one with `/`, `*-auth.json` makes git ignore the saved file, and a .gitignore holding that line silences the corrected check. |
| Suggestion.DefaultFileIgnored | skills/playwright-auth-manager/scripts/save-auth-state.js:32-111 | With no session name and no `--output`, the saved path is `./auth.json`, and the suggested `auth.json` makes git ignore it. |
| Summary.CountOf | skills/playwright-auth-manager/scripts/save-auth-state.js:183-184 | A count is the array's length, or 0 when the field is missing. It is 0 exactly when the field is missing or the array is empty. |
| Summary.Summarize | skills/playwright-auth-manager/scripts/save-auth-state.js:183-184 | The cookie and origin counts are the lengths of the two arrays, with a missing array counting as empty. |
| Summary.MissingLikeEmpty | skills/playwright-auth-manager/scripts/save-auth-state.js:183-184 | A document with a missing `cookies` or `origins` field gets the same summary as one where that array is empty. |

## Findings

| source | as written | input that shows it | evidently intended | confidence | as-written member | corrected member |
|---|---|---|---|---|---|---|
| skills/playwright-auth-manager/scripts/save-auth-state.js:91-111 | The advice suggests `*.auth.json`, and a line holding it silences the check. But `--user <name>` saves to `./<name>-auth.json`, and git's `*.auth.json` needs a `.` right before `auth.json`. | `--user bob` saves `./bob-auth.json`. With a .gitignore of `*.auth.json`, the check is silent, but git still tracks `bob-auth.json`. | Suggest, and accept, a pattern that matches the session files, such as `*-auth.json`. This covers `<name>-auth.json` files only: even corrected, a silent check does not mean git ignores the file. A lone `*-auth.json` line silences it for the default `./auth.json` and for any `--output` path, which that pattern does not match. | medium, not executed | Suggestion.SuggestionMissesSessionFile | Suggestion.FixedSuggestionIgnoresSessionFile |

## Left out

- `setup.js`: it checks for files, writes a minimal `package.json` when none exists, and runs npm/npx installs through a shell. It has no logic beyond "create or install if not already present".
- Browser launch, including the fallback from the Chrome channel to Chromium; page navigation; the blocking wait for Enter; and `context.storageState` writing (save-auth-state.js:115-177). These are calls into Playwright and terminal I/O.
- Creating the output directory (`path.dirname`, `mkdirSync`), `path.resolve`, and reading the saved JSON back: these are filesystem operations. The resolved path reaches `Gitignore.CheckGitignore` as an opaque string, and the parsed document reaches `Summary.Summarize` as a value.
- Console output, `process.exit` as a side effect, the "next steps" text, and the error hint for a missing browser executable (save-auth-state.js:179-214). Exit with code 0 after the usage text appears only as the `Help` result.
- What happens downstream when a trailing `--url` or `--output` leaves the value undefined (a navigation or path error raised by the libraries). The parser's result carries `None`, but that error path is not modelled.
- `null` and `undefined` are both `None` for the user name. After parsing, the script uses the user name only through truthiness tests, and those treat the two the same.
- Flags `--domain`, a `./.playwright-auth/{domain}-{user}.json` default path and rewriting a cookie's SameSite attribute from Strict to Lax: `save-auth-state.js` has no `--domain` flag, no `.playwright-auth` default and no SameSite rewrite, so the model follows the code and leaves them out.
- Text.Basename: models POSIX `path.basename` only, for paths without a trailing separator. The path it receives comes from `path.resolve`, which never adds one (except for the root `/`, whose base name is empty either way). On Windows, Node's `path` also splits on `\` and `path.resolve` yields `C:\…\<name>-auth.json`. The model treats `\` as an ordinary character, so its base name of such a path is the whole string, and the comparison with the base name at save-auth-state.js:104 differs from the script's there.
- Gitignore.CheckGitignore: an existing `.gitignore` that cannot be read, such as a directory or a file without read permission, is not modelled. `fs.existsSync` (save-auth-state.js:88) is true for it, and `fs.readFileSync` (:97) then throws. The catch at :204-213 prints the error, closes the browser and exits with code 1, and the "Done" and next-steps lines (:195-202) are never printed. The model's input is the content or `None`, so it has no value for this outcome.
- Glob.LiteralMatch: git's `?`, bracket expressions, escapes, negation and patterns containing `/` are not modelled. Only `*` and literal characters appear in the patterns the advisory names.
- Text.Trim: works on Unicode code points, while JavaScript strings are UTF-16. Every whitespace character `trim` removes is a single UTF-16 unit, so the two agree except on unpaired surrogates, which the model does not represent.
- Cookie and origin records carry only the fields needed to give them a shape. The document's full format is defined by Playwright.
