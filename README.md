# Env setup and Codespace start-up scripts, modelled in Dafny

This project models the three Node scripts that prepare and start the
okta-cross-app-access-mcp development environment:

- **`scripts/setup-env.js`** sets up the env files.
  - It copies each `*.env.default` file to its `.env` target when the target is missing.
  - When `CODESPACE_NAME` is set, it rewrites the four env files. Every `http://localhost:<digits>` becomes the public URL `https://<id>-<digits>.app.github.dev` of the forwarded port, and every `<your-codespace-id>` becomes the id.
  - A file is written only when its text changed.
  - It then lists the OAuth redirect URIs for ports 5001 and 5000.
- **`scripts/github/replace-env.js`** updates the env files in place.
  - It decides from an env file's path which app the file belongs to (first matching rule wins).
  - It points that app's `AUTH_SERVER`, `TODO_SERVER` and `AGENT_SERVER` lines at fixed local ports, and replaces the placeholder.
  - When the text changed, it saves the old text to `<path>.bak` and then writes the new text.
- **`scripts/start-with-expose.js`** starts the four servers under `concurrently`.
  - Inside a Codespace, it waits until all four ports answer and then runs `yarn expose:ports` once.
  - It exits with the service group's status.
  - On SIGINT or SIGTERM it interrupts, and later kills, both process groups, exactly once.
  - Outside a Codespace, it runs the group and exits with 1 if the group fails.

Layout, one module per file:

- `Wrappers`: `Option` and `Result`.
- `Text`: the JavaScript string behaviour the scripts rely on. This covers `\d+`, `\s*`, `.*$` under the `m` flag, printing a number in a template literal (with the parse-back round trip), and `replace` with a global literal pattern. Each is a hand-written scanner.
- `Codespace`: the codespace id and port URL that both env scripts compute.
- `Files`: a `FileSystem` class whose fields are the file map and the ordered log of written paths. The log makes "written only when changed" observable. `Disk` is a value snapshot of both fields.
- `SetupEnv`, `ReplaceEnv` and `StartWithExpose`: one module per script.
  - The in-place steps are methods over a `FileSystem` or over the `Supervisor` class. Each has a loop invariant that ties the state to a fold over the visited files.
  - The text transforms are functions, with lemmas about them.
- `Consistency`: how the scripts fit together. A key line written by replace-env.js becomes the Codespace URL of the same port under setup-env.js. The redirect ports are the AUTH_SERVER ports. Every mapped port is one the start script waits for.

Environment variables are `Option<string>`. `process.env.X || …` means "set and non-empty" (`Codespace.IsSet`).

The start script's processes, sockets, clock and timers become inputs and outputs:

- Inputs: exit codes, the events each probe socket reports, and the readings of `Date.now()`.
- Outputs: what the script asks of the operating system is appended to a list of `Effect`s, such as a spawn, a kill, a sleep, a delayed action or an exit. A timer's delayed action is recorded but never fires.

Some behaviour of the code is not what its comments suggest:

- `start-with-expose.js` says it runs "with retry logic", but `main` spawns `yarn expose:ports` exactly once (scripts/start-with-expose.js:124-125).
- `runExposePortsWithRetry` is never called, and each of its attempts spawns `yarn expose-ports`, with a hyphen and not detached. The model records exactly that spawn in every attempt (`StartWithExpose.RetrySpawn`).
- Outside a Codespace the status is not passed through. Any failure of the service group rejects `run`, and `main().catch` exits with 1. A group ended by a signal (exit code `null`) also gives 1.
- Inside a Codespace, `process.exit(null)` ends the script with 0.
- Outside a Codespace, `run` spawns `concurrently` attached and its handle is never stored in `child`, so `shutdown` there interrupts no group and only schedules the forced exit (`StartWithExpose.LocalRunInterrupted`).
- replace-env.js points key lines at `http://localhost:<port>`, not at the Codespace URL. Its `getCodespaceUrl` is defined but not used by `updateEnvFile`. setup-env.js is what turns those local URLs into Codespace URLs (`Consistency.KeyLineBecomesCodespaceUrl`).

## Model

| member | source | states |
|---|---|---|
| Codespace.CodespaceId | scripts/setup-env.js:45-48 | the id is `CODESPACE_NAME` when that is a non-empty string, and the literal `<your-codespace-id>` otherwise; it is never empty |
| Codespace.IsSet | scripts/setup-env.js:36 | truthiness of an environment variable: set and not the empty string; its consequences are stated by `CodespaceId`, `SetupEnvScript` and `ExitStatus` |
| Codespace.CodespaceUrl | scripts/github/replace-env.js:21-24 | the public URL of a forwarded port; `CodespaceUrlInjective` states that distinct ports get distinct URLs |
| Codespace.CodespaceUrlInjective | scripts/github/replace-env.js:21-24 | two ports of one codespace never share a public URL `https://<id>-<port>.app.github.dev` |
| Text.DigitRunOf | scripts/setup-env.js:52 | greedy `\d+` takes exactly the digits before the first non-digit |
| Text.WhitespaceRunBlank | scripts/github/replace-env.js:58 | everything greedy `\s*` consumes is JavaScript whitespace (line terminators included) |
| Text.LineLengthAfter | scripts/github/replace-env.js:58 | `.*` under the `m` flag runs to the first line terminator: terminator-free text in front only lengthens the match |
| Text.ParseNatToString | scripts/github/replace-env.js:57 | the decimal text a template literal prints for a port parses back to that port |
| Text.NatToStringInjective | scripts/github/replace-env.js:57 | different ports print differently |
| Text.ReplaceAll | scripts/setup-env.js:77 | `replace` with a global literal pattern as a left-to-right scan; `ReplaceAllFirst`, `ReplaceAllFromCopies`, `ReplaceAllNoOccurrence` and `ReplaceAllSelf` state what it does |
| Text.ReplaceAllFirst | scripts/setup-env.js:77 | a global literal replace keeps the text before the first occurrence, replaces it and resumes scanning right after it |
| Text.ReplaceAllFromCopies | scripts/setup-env.js:77 | a stretch where the placeholder does not start is copied through as it is |
| Text.ReplaceAllNoOccurrence | scripts/setup-env.js:77 | text without the placeholder is left unchanged |
| Text.ReplaceAllSelf | scripts/github/replace-env.js:74 | replacing the placeholder by itself (`CODESPACE_NAME` unset) changes nothing |
| Text.NoOccurrenceWithout | scripts/setup-env.js:77 | a pattern whose first character is absent from the text does not occur in it |
| Files.FileSystem.WriteFileSync | scripts/setup-env.js:80 | the file gets exactly the new text, every other file is unchanged, and the write is appended to the log |
| Files.FileSystem.CopyFileSync | scripts/github/replace-env.js:78 | with its source present the target gets the source's text and the write is logged; with it missing the copy fails with ENOENT and nothing changes |
| SetupEnv.CopyIfNotExists | scripts/setup-env.js:10-16 | answers true and copies `src` to `dest` exactly when `dest` is missing; otherwise answers false and changes nothing; a missing `src` is the copy's error |
| SetupEnv.CopyDefaultFiles | scripts/setup-env.js:27-31 | after the loop the disk is the left-to-right fold of the copy step over the pairs: a pair is copied only when its default exists and its target does not |
| SetupEnv.CopyDefaultsKeepsExisting | scripts/setup-env.js:27-31 | the copy loop never changes or removes an existing file, creates only listed targets and writes only targets that were missing |
| SetupEnv.DefaultFilesTargetsFresh | scripts/setup-env.js:18-23 | the four targets are distinct and none is a default file |
| SetupEnv.CopyDefaultsFills | scripts/setup-env.js:18-31 | with fresh targets, each target exists afterwards exactly when it or its default existed, and a missing target receives its default's text |
| SetupEnv.CopyDefaultsElsewhere | scripts/setup-env.js:27-31 | a path no pair targets keeps its presence and contents |
| SetupEnv.CapturedPort | scripts/setup-env.js:52 | the captured port is the non-empty maximal digit run right after `http://localhost:` |
| SetupEnv.RewriteLocalhost | scripts/setup-env.js:50-56 | `localhostToCodespaceUrl` as a left-to-right scan; `RewriteLocalhostFirst`, `RewriteLocalhostCopies` and `RewriteLocalhostNoMatch` state what it does |
| SetupEnv.RewriteLocalhostFirst | scripts/setup-env.js:50-56 | matches are rewritten left to right without overlap: text before the first match is kept, the match with all its digits becomes `https://<id>-<digits>.app.github.dev`, and scanning resumes after the digits |
| SetupEnv.RewriteLocalhostNoMatch | scripts/setup-env.js:52 | text with no `http://localhost:` directly followed by a digit passes through unchanged |
| SetupEnv.RewriteLocalhostCopies | scripts/setup-env.js:52 | a stretch where `http://localhost:<digit>` never starts is copied through unchanged, and the scan goes on after it |
| SetupEnv.RewriteLocalUrl | scripts/setup-env.js:52-55 | `http://localhost:<port>` followed by a non-digit becomes that port's Codespace URL |
| SetupEnv.CodespaceContent | scripts/setup-env.js:75-77 | the URL rewrite followed by the placeholder replacement; `CodespaceContentUntouched` and `Consistency.KeyLineBecomesCodespaceUrl` state what it does |
| SetupEnv.CodespaceContentUntouched | scripts/setup-env.js:75-77 | text with neither a local URL nor a placeholder is left as it is |
| SetupEnv.UpdateEnvFile | scripts/setup-env.js:72-85 | a missing file is skipped; otherwise the URL rewrite then the placeholder replacement is computed, and the file is written, once, only when that text differs |
| SetupEnv.UpdateEnvFiles | scripts/setup-env.js:87-90 | the disk after the loop is the fold of `updateEnvFile` over the paths in order |
| SetupEnv.UpdateAllOnlyListed | scripts/setup-env.js:87-90 | whatever each file's new text is, the rewrite loop creates no file, leaves unlisted files as they were and writes only listed paths |
| SetupEnv.CodespaceRedirects | scripts/setup-env.js:58-70 | nothing outside a Codespace; otherwise the URIs `https://<id>-<port>.app.github.dev/api/openid/callback/customer1` for 5001 and then 5000 |
| SetupEnv.SetupEnvScript | scripts/setup-env.js:27-97 | the copy loop always runs; the env-file rewrite and the redirect list happen only when `CODESPACE_NAME` is set |
| ReplaceEnv.GetCodespaceUrl | scripts/github/replace-env.js:21-24 | without `CODESPACE_NAME` the URL carries the placeholder in place of the id |
| ReplaceEnv.DetectApp | scripts/github/replace-env.js:41-47 | the four substring tests in order; `DetectAppFirstMatch` ties it to the first-match rule table and `AgentWins` to its overlap case |
| ReplaceEnv.FirstRuleIsFirstMatch | scripts/github/replace-env.js:41-47 | the rule table names an app exactly when some rule matches, and then the app of a matching rule no earlier rule pre-empts |
| ReplaceEnv.DetectAppFirstMatch | scripts/github/replace-env.js:41-47 | `detectApp` is that first-match-wins table: agent0, todo0, the agent authorization server, the todo authorization server, else null |
| ReplaceEnv.AgentWins | scripts/github/replace-env.js:42 | a path containing `agent0` is agent0's, even when it also contains `todo0` |
| ReplaceEnv.PortFor | scripts/github/replace-env.js:27-38 | a key line is rewritten only for agent0 (AUTH 5000, TODO 3001, AGENT 3000) or todo0's AUTH_SERVER (5001); never for the authorization servers or an unknown file |
| ReplaceEnv.MatchLength | scripts/github/replace-env.js:58 | a `KEY\s*=.*$` match extends past the key to the end of the text or to just before a line terminator |
| ReplaceEnv.MatchLengthLine | scripts/github/replace-env.js:58 | that line end is the first one after the `=`: the match covers the key, its blanks, the `=` and then only non-terminators |
| ReplaceEnv.FindKeyLineFrom | scripts/github/replace-env.js:58 | the search finds the leftmost position where `KEY\s*=` matches, or reports that there is none |
| ReplaceEnv.ReplaceFirstKeyLineFrom | scripts/github/replace-env.js:58 | tries positions left to right and replaces the line of the first `KEY\s*=` match; `ReplaceFirstKeyLineFirst` and `ReplaceFirstKeyLineNoMatch` state what it does |
| ReplaceEnv.ReplaceFirstKeyLine | scripts/github/replace-env.js:58 | the scan from the start of the text: the non-global `replace` |
| ReplaceEnv.ReplaceFirstKeyLineFirst | scripts/github/replace-env.js:56-71 | only the first match is replaced; the text before it and everything after its line are kept |
| ReplaceEnv.ReplaceFirstKeyLineNoMatch | scripts/github/replace-env.js:56-71 | a key with no matching line leaves the text unchanged |
| ReplaceEnv.ReplaceFirstKeyLineIdempotent | scripts/github/replace-env.js:56-71 | replacing the first line of one key a second time, with the same line, changes nothing |
| ReplaceEnv.ReplaceWrittenLineAgain | scripts/github/replace-env.js:58 | once the first matching line is replaced by `KEY=<value>` on one line, replacing that key again gives the same text |
| ReplaceEnv.KeyStepIdempotent | scripts/github/replace-env.js:56-71 | each conditional key step applied twice equals applying it once |
| ReplaceEnv.KeyStep | scripts/github/replace-env.js:55-71 | one `if (portMap[KEY][app])` block: no change without a port, else the first key line becomes `KEY="http://localhost:<port>"`; `KeyStepIdempotent` is its partner |
| ReplaceEnv.EnvContent | scripts/github/replace-env.js:55-74 | the three key steps in order, then the placeholder; `ServerFilesKeepKeys` and `UpdateEnvFile` state it |
| ReplaceEnv.KeyLineAtAgree | scripts/github/replace-env.js:58 | whether `KEY\s*=` matches depends only on the text up to a non-blank character after the key |
| ReplaceEnv.WrittenLineMatches | scripts/github/replace-env.js:58 | a written `KEY="…"` line is itself a match, ending where the line does |
| ReplaceEnv.ServerFilesKeepKeys | scripts/github/replace-env.js:55-74 | files of the authorization servers or of no known app only get the placeholder replaced, and without `CODESPACE_NAME` they are left unchanged |
| ReplaceEnv.UpdateEnvFile | scripts/github/replace-env.js:49-84 | a missing file is skipped; otherwise the three key steps and the placeholder pass are computed and, only when the text changed, the original goes to `<path>.bak` and then the new text to the file |
| ReplaceEnv.UpdateEnvFiles | scripts/github/replace-env.js:87-90 | the disk after the loop is the fold of `updateEnvFile` over the paths in order |
| ReplaceEnv.ReplaceEnvScript | scripts/github/replace-env.js:87-90 | the disk afterwards is the fold of `updateEnvFile` over the four listed env files, in their listed order |
| ReplaceEnv.UpdateAllOnlyListed | scripts/github/replace-env.js:76-83 | whatever each file's new text is, the script creates no file but listed files and their `.bak` backups, leaves every file that is neither listed nor a listed file's backup unchanged, and writes only such files |
| StartWithExpose.Run | scripts/start-with-expose.js:10-21 | detached: resolves at once with the child; otherwise resolves exactly on exit code 0, stays pending until an exit, and otherwise rejects with `<cmd> exited with code <code>` |
| StartWithExpose.CheckPort | scripts/start-with-expose.js:23-40 | the probe's answer from the socket's events; `CheckPortFirstEventDecides` ties it to the promise model `Settle` |
| StartWithExpose.RejectMessageNamesCode | scripts/start-with-expose.js:15 | the rejection message starts with the command and its code can be read back from it |
| StartWithExpose.RejectMessageSignalled | scripts/start-with-expose.js:15 | a signal death is reported as `null`, distinct from every numeric code |
| StartWithExpose.CheckPortFirstEventDecides | scripts/start-with-expose.js:23-40 | later socket events cannot change a probe's answer, and the answer is the value the promise settles with when the `once` handlers run in event order: true on a first 'connect', false on a first 'timeout' or 'error' |
| StartWithExpose.WaitForPorts | scripts/start-with-expose.js:42-51 | true only after a round in which every port answered, all clock readings so far being before the deadline and no earlier round complete; false only when a reading reaches `maxWait` with no complete round |
| StartWithExpose.ReadyOrTimedOut | scripts/start-with-expose.js:42-51 | the two outcomes exclude each other, so the answer is fixed by the clock and the probe results |
| StartWithExpose.RunExposePortsWithRetry | scripts/start-with-expose.js:53-71 | answers true exactly when one of the first `maxRetries` exit codes is 0, stopping at the first; otherwise makes all `maxRetries` attempts; the steps are attempts 1..n, each spawning `yarn expose-ports` attached, with a wait between consecutive ones |
| StartWithExpose.AttemptTraceShape | scripts/start-with-expose.js:54-67 | attempts are numbered 1..n in order, each spawns `yarn expose-ports`, each pair is separated by one wait of `delay`, and the loop never ends on a wait |
| StartWithExpose.DefaultRetryTrace | scripts/start-with-expose.js:53-67 | with the default arguments (3 attempts, 5000 ms) the loop makes at most three attempts, 5 s apart |
| StartWithExpose.ShutdownEffectsOrder | scripts/start-with-expose.js:88-108 | shutdown interrupts the service group then the expose group, skips a null handle or missing pid, escalates each interrupted group to SIGKILL after 4 s, and schedules exactly one exit, with status 0, after 5 s |
| StartWithExpose.LocalShutdownOnlyExits | scripts/start-with-expose.js:88-108 | with both handles null, shutdown signals no group and only schedules the forced exit |
| StartWithExpose.LocalRunInterrupted | scripts/start-with-expose.js:84-111 | outside a Codespace, a signal while the attached `concurrently` runs yields exactly its spawn followed by the forced exit |
| StartWithExpose.KillRequestsFilters | scripts/start-with-expose.js:88-99 | `killProcessGroup` interrupts and later kills exactly the handle's group (none without a pid) and never exits |
| StartWithExpose.Supervisor.KillProcessGroup | scripts/start-with-expose.js:88-99 | a handle with a non-zero pid gets SIGINT to its group now and SIGKILL after the grace period; otherwise nothing happens |
| StartWithExpose.Supervisor.Shutdown | scripts/start-with-expose.js:101-108 | only the first call sets `shuttingDown` and issues the shutdown effects; later calls change nothing |
| StartWithExpose.Supervisor.ShutdownTwice | scripts/start-with-expose.js:101-111 | SIGINT followed by SIGTERM shuts down once |
| StartWithExpose.Supervisor.StartServices | scripts/start-with-expose.js:116 | `concurrently` is spawned detached with the four server commands and becomes `child` |
| StartWithExpose.Supervisor.StartLocal | scripts/start-with-expose.js:132-135 | locally `concurrently` is spawned attached, and `child`, `exposeProc` and `shuttingDown` are left as they were |
| StartWithExpose.Supervisor.constructor | scripts/start-with-expose.js:84-86 | `child` and `exposeProc` start null, `shuttingDown` false, with no effect issued |
| StartWithExpose.Supervisor.ExposeWhenReady | scripts/start-with-expose.js:118-129 | when the ports become ready the script waits 5 s and spawns `yarn expose:ports` once as `exposeProc`; on timeout it spawns nothing |
| StartWithExpose.Supervisor.ServicesExited | scripts/start-with-expose.js:130 | the service group's exit ends the script with its code, 0 for a signal |
| StartWithExpose.ExitStatus | scripts/start-with-expose.js:130-141 | in a Codespace the group's status (0 for a signal); locally 0 exactly when `run` resolves and 1 exactly when it rejects |
| StartWithExpose.IsCodespaces | scripts/start-with-expose.js:7 | `CODESPACES` or `CODESPACE_NAME` is set and non-empty; `ExitStatus` states which branch it selects |
| StartWithExpose.CodespacesPassesStatusThrough | scripts/start-with-expose.js:130 | in a Codespace a numeric status is reported unchanged |
| StartWithExpose.LocalFailuresCollapse | scripts/start-with-expose.js:134-141 | locally all failures end with the same status, 1 |
| Consistency.KeyLineBecomesCodespaceUrl | scripts/github/replace-env.js:57-58 | setup-env.js turns the `KEY="http://localhost:<port>"` line replace-env.js writes into `KEY="https://<id>-<port>.app.github.dev"` |
| Consistency.KeyLineRewritten | scripts/setup-env.js:52-55 | the URL rewrite of a written key line changes only its local URL, into the Codespace URL of the same port |
| Consistency.RedirectPortsAreAuthServerPorts | scripts/setup-env.js:61 | the redirect ports, 5001 then 5000, are todo0's and agent0's AUTH_SERVER ports |
| Consistency.PortMapPortsAreProbed | scripts/start-with-expose.js:8 | every port a key line is pointed at is one the start script waits for |

## Left out

- Spawning, sockets, timers, signals and `process.exit` are operating-system effects. They are recorded as `Effect`s or supplied as inputs, and their timing and interleaving are not modelled. The `Supervisor` methods are the handlers and may be called in any order, but no timer ever fires.
- WaitForPorts: the clock input is required to reach the deadline eventually, and every probe reports an event. Probe durations and the 1 s poll sleep show only through the clock readings. The progress dots are not modelled.
- RunExposePortsWithRetry: the input supplies an exit code for every attempt. A spawn that fails with 'error' and never emits 'exit' would leave the real loop waiting forever; that case is not modelled.
- Run: only the first 'exit' event settles the promise. A child's 'error' event is not modelled.
- ExitStatus: a successful local run is taken to end the script with status 0 once `main` returns. The pending SIGINT/SIGTERM handlers and timers are not modelled.
- Exit codes are natural numbers, as the operating system reports them. A signal death is `Signalled` (`null`).
- Path resolution with `resolve(__dirname, …)` is not modelled; paths are opaque keys.
  - setup-env.js copies with paths relative to the working directory. Its rewrite loop resolves its paths against `../../` from the script's own directory, `scripts/`, which is the directory above the repository. The model treats both lists as the same repository-relative keys, so it describes the rewrite of the copied files. The code as written looks for those files outside the repository, where they are normally missing, so the loop skips them.
  - replace-env.js is an ES module that never defines `__dirname`, so its main loop would stop with a ReferenceError before touching a file. The model runs the loop as if the paths resolved.
- ReplaceEnv.EnvContent: idempotence is proved one key step at a time (`KeyStepIdempotent`), not for the three steps together, and it does not hold in general. When one line holds two keys, a later step's `.*` can swallow a line an earlier step wrote. For example, agent0's `TODO_SERVER=a AUTH_SERVER=b` followed by `AUTH_SERVER=c` changes again on a second run.
- Text.ReplaceAll: the replacement is inserted literally. JavaScript would interpret `$&`, `$1` and similar patterns if `CODESPACE_NAME` contained them.
- File contents are sequences of characters. UTF-8 decoding and encoding are not modelled.
- Console output is not modelled: messages, emoji, the redirect-URI printing format and the "next steps" text. The redirect URIs are returned instead of printed.
- scripts/github/expose-ports.js is not part of this model.
