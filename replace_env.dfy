/**
 * scripts/github/replace-env.js: for each env file, works out which app it
 * belongs to from its path, points that app's AUTH_SERVER, TODO_SERVER and
 * AGENT_SERVER lines at fixed local ports, replaces the `<your-codespace-id>`
 * placeholder with the codespace id, and, when the text changed, backs the old
 * text up to `<path>.bak` before writing the new one.
 */
module ReplaceEnv {
  import opened Wrappers
  import opened Text
  import opened Codespace
  import opened Files

  /** The files the script visits, in order (relative to the script's directory). */
  const EnvFiles: seq<string> := [
    "../../packages/agent0/.env",
    "../../packages/todo0/.env",
    "../../packages/authorization-server/.env.agent",
    "../../packages/authorization-server/.env.todo"
  ]

  /** `getCodespaceUrl(port)`. */
  function GetCodespaceUrl(name: Option<string>, port: nat): (url: string)
    ensures IsSet(name) ==> url == CodespaceUrl(name.value, NatToString(port))
    ensures !IsSet(name) ==> url == CodespaceUrl(Placeholder, NatToString(port))
  {
    CodespaceUrl(CodespaceId(name), NatToString(port))
  }

  // ----- detectApp -----

  /** The apps `detectApp` can name. */
  datatype App = Agent0 | Todo0 | AuthServerAgent | AuthServerTodo

  /** `s.includes(needle)`. */
  predicate Contains(s: string, needle: string) {
    exists i :: 0 <= i <= |s| && needle <= s[i..]
  }

  /** `detectApp(envPath)`: the first of four substring tests that succeeds decides. */
  function DetectApp(path: string): Option<App> {
    if Contains(path, "agent0") then Some(Agent0)
    else if Contains(path, "todo0") then Some(Todo0)
    else if Contains(path, "authorization-server/.env.agent") then Some(AuthServerAgent)
    else if Contains(path, "authorization-server/.env.todo") then Some(AuthServerTodo)
    else None
  }

  /** The same rules as a table, read top to bottom. */
  const AppRules: seq<(string, App)> := [
    ("agent0", Agent0),
    ("todo0", Todo0),
    ("authorization-server/.env.agent", AuthServerAgent),
    ("authorization-server/.env.todo", AuthServerTodo)
  ]

  /** The app of the first rule whose substring occurs in the path. */
  function FirstRule(rules: seq<(string, App)>, path: string): Option<App> {
    if rules == [] then None
    else if Contains(path, rules[0].0) then Some(rules[0].1)
    else FirstRule(rules[1..], path)
  }

  /**
   * The table reading names an app exactly when some rule matches, and then the
   * app of a matching rule that no earlier rule pre-empts.
   */
  lemma {:induction false} FirstRuleIsFirstMatch(rules: seq<(string, App)>, path: string)
    ensures FirstRule(rules, path).Some? <==> exists i :: 0 <= i < |rules| && Contains(path, rules[i].0)
    ensures FirstRule(rules, path).Some? ==>
      exists i :: 0 <= i < |rules| && Contains(path, rules[i].0) && rules[i].1 == FirstRule(rules, path).value
                  && forall j :: 0 <= j < i ==> !Contains(path, rules[j].0)
    decreases |rules|
  {
    if rules != [] && !Contains(path, rules[0].0) {
      var tail := rules[1..];
      FirstRuleIsFirstMatch(tail, path);
      assert forall i :: 1 <= i < |rules| ==> rules[i] == tail[i - 1];
      if FirstRule(tail, path).Some? {
        var i :| 0 <= i < |tail| && Contains(path, tail[i].0) && tail[i].1 == FirstRule(tail, path).value
                 && forall j :: 0 <= j < i ==> !Contains(path, tail[j].0);
        assert rules[i + 1] == tail[i];
      } else {
        assert forall i :: 0 <= i < |rules| ==> !Contains(path, rules[i].0) by {
          forall i | 0 <= i < |rules| ensures !Contains(path, rules[i].0) {
            if i > 0 { assert rules[i] == tail[i - 1]; }
          }
        }
      }
    } else if rules != [] {
      assert Contains(path, rules[0].0) && rules[0].1 == FirstRule(rules, path).value;
    }
  }

  /**
   * `detectApp` is first-match-wins over the rule table: it names an app exactly
   * when some rule matches, and then the app of the first matching rule.
   */
  lemma DetectAppFirstMatch(path: string)
    ensures DetectApp(path) == FirstRule(AppRules, path)
  {
    var r1 := AppRules[1..];
    var r2 := r1[1..];
    var r3 := r2[1..];
    assert r3[1..] == [];
    assert FirstRule(r3, path) == if Contains(path, "authorization-server/.env.todo") then Some(AuthServerTodo) else None;
    assert FirstRule(r2, path) == if Contains(path, "authorization-server/.env.agent") then Some(AuthServerAgent) else FirstRule(r3, path);
    assert FirstRule(r1, path) == if Contains(path, "todo0") then Some(Todo0) else FirstRule(r2, path);
  }

  /** A path naming agent0 belongs to agent0, even when it names todo0 as well. */
  lemma AgentWins(path: string)
    requires Contains(path, "agent0")
    ensures DetectApp(path) == Some(Agent0)
  {
  }

  // ----- portMap -----

  /** The keys whose lines the script rewrites, in the order it rewrites them. */
  datatype EnvKey = AuthServer | TodoServer | AgentServer

  function KeyName(key: EnvKey): string {
    match key
    case AuthServer => "AUTH_SERVER"
    case TodoServer => "TODO_SERVER"
    case AgentServer => "AGENT_SERVER"
  }

  /** `portMap[KEY][app]`, absent where the map has no entry (also for a null app). */
  function PortFor(key: EnvKey, app: Option<App>): (port: Option<nat>)
    ensures port.Some? ==> app == Some(Agent0) || (key == AuthServer && app == Some(Todo0))
    ensures port.Some? ==> port.value > 0
    ensures app == Some(Agent0) ==>
      port == Some(match key case AuthServer => 5000 case TodoServer => 3001 case AgentServer => 3000)
    ensures app == Some(Todo0) ==> port == (if key == AuthServer then Some(5001) else None)
  {
    match key
    case AuthServer =>
      if app == Some(Agent0) then Some(5000) else if app == Some(Todo0) then Some(5001) else None
    case TodoServer =>
      if app == Some(Agent0) then Some(3001) else None
    case AgentServer =>
      if app == Some(Agent0) then Some(3000) else None
  }

  // ----- updated.replace(/KEY\s*=.*$/m, `KEY="${url}"`) -----

  /** `KEY\s*=` matches at the start of `s`. */
  predicate KeyLineAt(s: string, key: string) {
    key <= s
    && |key| + WhitespaceRun(s[|key|..]) < |s|
    && s[|key| + WhitespaceRun(s[|key|..])] == '='
  }

  predicate KeyLineAtIndex(s: string, key: string, j: nat)
    requires j <= |s|
  {
    KeyLineAt(s[j..], key)
  }

  /**
   * The length of the match of `KEY\s*=.*$` at the start of `s`: through the
   * `=` and on to the end of that line, which is the end of the text or the
   * next line terminator.
   */
  function MatchLength(s: string, key: string): (n: nat)
    requires KeyLineAt(s, key)
    ensures |key| < n <= |s|
    ensures n == |s| || IsLineTerminator(s[n])
  {
    var eq := |key| + WhitespaceRun(s[|key|..]);
    eq + 1 + LineLength(s[eq + 1..])
  }

  /**
   * The line end the match stops at is the first one after the `=`: the key,
   * blanks, the `=`, then only non-terminators up to the match's end.
   */
  lemma MatchLengthLine(s: string, key: string)
    requires KeyLineAt(s, key)
    ensures var eq := |key| + WhitespaceRun(s[|key|..]);
      var n := MatchLength(s, key);
      eq < n && s[eq] == '=' && NoLineTerminator(s[eq + 1..n])
  {
    var eq := |key| + WhitespaceRun(s[|key|..]);
    var n := MatchLength(s, key);
    assert s[eq + 1..n] == s[eq + 1..][..LineLength(s[eq + 1..])];
  }

  /**
   * Replacement of the first match only (the regular expression has no `g`
   * flag): positions are tried from `i` on, left to right, and the first one
   * where `KEY\s*=` matches has its line replaced.
   */
  function ReplaceFirstKeyLineFrom(s: string, key: string, line: string, i: nat): string
    requires i <= |s|
    decreases |s| - i
  {
    if KeyLineAtIndex(s, key, i) then s[..i] + line + s[i + MatchLength(s[i..], key)..]
    else if i == |s| then s
    else ReplaceFirstKeyLineFrom(s, key, line, i + 1)
  }

  /** `s.replace(/KEY\s*=.*$/m, line)`. */
  function ReplaceFirstKeyLine(s: string, key: string, line: string): string {
    ReplaceFirstKeyLineFrom(s, key, line, 0)
  }

  /** For each position of `s`, whether `KEY\s*=` matches there. */
  function KeyLineStarts(s: string, key: string): (starts: seq<bool>)
    ensures |starts| == |s| + 1
    ensures forall j :: 0 <= j <= |s| ==> starts[j] == KeyLineAtIndex(s, key, j)
  {
    seq(|s| + 1, j requires 0 <= j <= |s| => KeyLineAtIndex(s, key, j))
  }

  /** The first true entry of `b` at or after `i`, if any. */
  function FirstTrueFrom(b: seq<bool>, i: nat): (r: Option<nat>)
    requires i <= |b|
    ensures r.Some? ==> i <= r.value < |b| && b[r.value] && forall j :: i <= j < r.value ==> !b[j]
    ensures r.None? ==> forall j :: i <= j < |b| ==> !b[j]
    decreases |b| - i
  {
    if i == |b| then None
    else if b[i] then Some(i)
    else FirstTrueFrom(b, i + 1)
  }

  /** Where the first match starts, if anywhere, searching from position `i` on. */
  function FindKeyLineFrom(s: string, key: string, i: nat): (r: Option<nat>)
    requires i <= |s|
    ensures r.Some? ==> i <= r.value <= |s| && KeyLineAtIndex(s, key, r.value)
                        && forall j :: i <= j < r.value ==> !KeyLineAtIndex(s, key, j)
    ensures r.None? ==> forall j :: i <= j <= |s| ==> !KeyLineAtIndex(s, key, j)
  {
    FirstTrueFrom(KeyLineStarts(s, key), i)
  }

  /** Text in which the key line does not occur is left unchanged. */
  lemma {:induction false} ReplaceFirstKeyLineNoMatch(s: string, key: string, line: string, i: nat)
    requires i <= |s|
    requires forall j :: i <= j <= |s| ==> !KeyLineAtIndex(s, key, j)
    ensures ReplaceFirstKeyLineFrom(s, key, line, i) == s
    decreases |s| - i
  {
    if i < |s| {
      assert !KeyLineAtIndex(s, key, i);
      ReplaceFirstKeyLineNoMatch(s, key, line, i + 1);
    }
  }

  /** The first match, and only it, is replaced; text before it and after its line is kept. */
  lemma {:induction false} ReplaceFirstKeyLineFirst(s: string, key: string, line: string, i: nat, k: nat)
    requires i <= k <= |s| && KeyLineAtIndex(s, key, k)
    requires forall j :: i <= j < k ==> !KeyLineAtIndex(s, key, j)
    ensures ReplaceFirstKeyLineFrom(s, key, line, i) == s[..k] + line + s[k + MatchLength(s[k..], key)..]
    decreases k - i
  {
    if i < k {
      assert !KeyLineAtIndex(s, key, i);
      ReplaceFirstKeyLineFirst(s, key, line, i + 1, k);
    }
  }

  /** A key with no whitespace in it; all three keys are such. */
  predicate PlainKey(key: string) {
    |key| > 0 && forall i :: 0 <= i < |key| ==> !IsJsWhitespace(key[i])
  }

  /** The greedy `\s*` only reads up to the first non-blank character. */
  lemma WhitespaceRunAgree(x: string, y: string, n: nat, p: nat)
    requires n <= |x| && n <= |y| && x[..n] == y[..n]
    requires p < n && !IsJsWhitespace(x[p])
    ensures WhitespaceRun(x) == WhitespaceRun(y) <= p
  {
    var a := WhitespaceRun(x);
    WhitespaceRunBlank(x);
    WhitespaceRunBlank(y);
    assert a <= p;
    forall i | 0 <= i <= a ensures y[i] == x[i] {
      assert x[..n][i] == y[..n][i];
    }
  }

  /**
   * Whether `KEY\s*=` matches at the start of a text depends only on the text
   * up to a non-blank character after the key.
   */
  lemma KeyLineAtAgree(x: string, y: string, key: string, n: nat, p: nat)
    requires n <= |x| && n <= |y| && x[..n] == y[..n]
    requires |key| <= p < n && !IsJsWhitespace(x[p])
    ensures KeyLineAt(x, key) == KeyLineAt(y, key)
  {
    assert x[..|key|] == x[..n][..|key|] == y[..n][..|key|] == y[..|key|];
    var m := n - |key|;
    assert x[|key|..][..m] == x[..n][|key|..] == y[..n][|key|..] == y[|key|..][..m];
    assert x[|key|..][p - |key|] == x[p];
    WhitespaceRunAgree(x[|key|..], y[|key|..], m, p - |key|);
    var eq := |key| + WhitespaceRun(x[|key|..]);
    assert x[..n][eq] == y[..n][eq];
  }

  /** The line the script writes for a key and port: `KEY="http://localhost:<port>"`. */
  function KeyLine(key: string, port: nat): string {
    key + "=" + LocalUrlValue(port)
  }

  /** The quoted value of a written key line: `"http://localhost:<port>"`. */
  function LocalUrlValue(port: nat): string {
    "\"http://localhost:" + NatToString(port) + "\""
  }

  /** The quoted local URL fits on one line. */
  lemma LocalUrlValueOneLine(port: nat)
    ensures NoLineTerminator(LocalUrlValue(port))
  {
    var opening := "\"http://localhost:";
    var closing := "\"";
    assert NoLineTerminator(opening) by {
      forall i | 0 <= i < |opening| ensures !IsLineTerminator(opening[i]) {
        assert opening[i] in opening;
      }
    }
    assert NoLineTerminator(closing);
    DigitsOneLine(NatToString(port));
    NoLineTerminatorJoin(opening, NatToString(port));
    NoLineTerminatorJoin(opening + NatToString(port), closing);
  }

  /**
   * A line `KEY=<rest>`, once written, is itself the first match, and its match
   * ends where the line does.
   */
  lemma WrittenLineMatches(key: string, rest: string, tail: string)
    requires PlainKey(key) && NoLineTerminator(rest)
    requires |tail| > 0 ==> IsLineTerminator(tail[0])
    ensures var t := key + "=" + rest + tail;
      KeyLineAt(t, key) && MatchLength(t, key) == |key| + 1 + |rest|
  {
    var t := key + "=" + rest + tail;
    assert t[|key|..] == "=" + rest + tail;
    assert t[|key|..][0] == '=';
    assert WhitespaceRun(t[|key|..]) == 0;
    assert t[|key| + 1..] == rest + tail;
    LineLengthAfter(rest, tail);
  }

  /**
   * Running the key-line replacement again changes nothing: the line it wrote
   * is the first match the second time, and it is replaced by itself.
   */
  lemma ReplaceFirstKeyLineIdempotent(s: string, key: string, rest: string)
    requires PlainKey(key) && NoLineTerminator(rest)
    ensures var line := key + "=" + rest;
      var t := ReplaceFirstKeyLine(s, key, line);
      ReplaceFirstKeyLine(t, key, line) == t
  {
    var line := key + "=" + rest;
    match FindKeyLineFrom(s, key, 0)
    case None =>
      ReplaceFirstKeyLineNoMatch(s, key, line, 0);
    case Some(k) =>
      ReplaceFirstKeyLineFirst(s, key, line, 0, k);
      ReplaceWrittenLineAgain(s, key, rest, k);
  }

  /** The text after replacing the first match, at `k`, is a fixed point of the replacement. */
  lemma ReplaceWrittenLineAgain(s: string, key: string, rest: string, k: nat)
    requires PlainKey(key) && NoLineTerminator(rest)
    requires k <= |s| && KeyLineAtIndex(s, key, k)
    requires forall j :: 0 <= j < k ==> !KeyLineAtIndex(s, key, j)
    ensures var line := key + "=" + rest;
      var t := s[..k] + line + s[k + MatchLength(s[k..], key)..];
      ReplaceFirstKeyLine(t, key, line) == t
  {
    var line := key + "=" + rest;
    var tail := s[k + MatchLength(s[k..], key)..];
    var t := s[..k] + line + tail;
    WrittenLineAt(s, key, rest, k);
    WrittenLineFirst(s, key, rest, k);
    ReplaceFirstKeyLineFirst(t, key, line, 0, k);
    assert t[..k] == s[..k] && t[k + |line|..] == tail;
  }

  /** After the replacement, the written line matches at `k` and its match is exactly the line. */
  lemma WrittenLineAt(s: string, key: string, rest: string, k: nat)
    requires PlainKey(key) && NoLineTerminator(rest)
    requires k <= |s| && KeyLineAtIndex(s, key, k)
    ensures var t := s[..k] + (key + "=" + rest) + s[k + MatchLength(s[k..], key)..];
      KeyLineAtIndex(t, key, k) && MatchLength(t[k..], key) == |key| + 1 + |rest|
  {
    var m := MatchLength(s[k..], key);
    var tail := s[k + m..];
    var t := s[..k] + (key + "=" + rest) + tail;
    assert |tail| > 0 ==> IsLineTerminator(tail[0]) by {
      assert s[k..][m..] == tail;
    }
    var line := key + "=" + rest + tail;
    Regroup(s[..k], key + "=" + rest, tail);
    DropFront(s[..k], line);
    assert t[k..] == line;
    WrittenLineMatches(key, rest, tail);
  }

  /** After the replacement, nothing before `k` matches, just as before it. */
  lemma WrittenLineFirst(s: string, key: string, rest: string, k: nat)
    requires PlainKey(key)
    requires k <= |s| && KeyLineAtIndex(s, key, k)
    requires forall j :: 0 <= j < k ==> !KeyLineAtIndex(s, key, j)
    ensures var t := s[..k] + (key + "=" + rest) + s[k + MatchLength(s[k..], key)..];
      forall j :: 0 <= j < k ==> !KeyLineAtIndex(t, key, j)
  {
    var t := s[..k] + (key + "=" + rest) + s[k + MatchLength(s[k..], key)..];
    var n := k + |key|;
    assert t[..n] == s[..n] && s[..n][k..] == key by {
      assert s[k..][..|key|] == key;
      assert t[..n] == s[..k] + key;
      assert s[..n] == s[..k] + s[k..][..|key|];
    }
    NoMatchBeforeKey(s, t, key, k);
  }

  /**
   * Two texts that agree up to and including a key starting at `k` have the
   * same (absence of) matches before `k`.
   */
  lemma NoMatchBeforeKey(s: string, t: string, key: string, k: nat)
    requires PlainKey(key) && k + |key| <= |s| && k + |key| <= |t|
    requires t[..k + |key|] == s[..k + |key|] && s[..k + |key|][k..] == key
    requires forall j :: 0 <= j < k ==> !KeyLineAtIndex(s, key, j)
    ensures forall j :: 0 <= j < k ==> !KeyLineAtIndex(t, key, j)
  {
    var n := k + |key|;
    forall j | 0 <= j < k ensures !KeyLineAtIndex(t, key, j) {
      var p := if k - j >= |key| then k - j else |key|;
      assert s[j..][..n - j] == s[..n][j..] == t[..n][j..] == t[j..][..n - j];
      assert 0 <= j + p - k < |key| && j + p < n;
      assert s[j..][p] == s[j + p] == s[..n][j + p] == s[..n][k..][j + p - k] == key[j + p - k];
      assert !IsJsWhitespace(key[j + p - k]);
      KeyLineAtAgree(s[j..], t[j..], key, n - j, p);
      assert !KeyLineAtIndex(s, key, j);
    }
  }

  // ----- updateEnvFile -----

  /** One `if (portMap.KEY[app]) updated = updated.replace(...)` step. */
  function KeyStep(s: string, key: EnvKey, app: Option<App>): string {
    match PortFor(key, app)
    case None => s
    case Some(port) => ReplaceFirstKeyLine(s, KeyName(key), KeyLine(KeyName(key), port))
  }

  /** `updateEnvFile`'s text transformation: the three key lines, then the placeholders. */
  function EnvContent(content: string, app: Option<App>, id: string): string {
    ReplaceAll(KeyStep(KeyStep(KeyStep(content, AuthServer, app), TodoServer, app), AgentServer, app), Placeholder, id)
  }

  lemma KeyNamesPlain(key: EnvKey)
    ensures PlainKey(KeyName(key))
  {
    UpperSnakePlain(KeyName(key));
  }

  /** A name in capitals and underscores holds no blank. */
  lemma UpperSnakePlain(key: string)
    requires |key| > 0 && forall i :: 0 <= i < |key| ==> 'A' <= key[i] <= 'Z' || key[i] == '_'
    ensures PlainKey(key)
  {
  }

  /** Rewriting a key's line a second time changes nothing. */
  lemma KeyStepIdempotent(s: string, key: EnvKey, app: Option<App>)
    ensures KeyStep(KeyStep(s, key, app), key, app) == KeyStep(s, key, app)
  {
    match PortFor(key, app)
    case None =>
    case Some(port) =>
      var name := KeyName(key);
      var rest := LocalUrlValue(port);
      KeyNamesPlain(key);
      LocalUrlValueOneLine(port);
      ReplaceFirstKeyLineIdempotent(s, name, rest);
  }

  /**
   * Files of the authorization servers, or of no known app, get no key line
   * rewritten; outside a Codespace the placeholder stays too, so they are not
   * written at all.
   */
  lemma ServerFilesKeepKeys(content: string, app: Option<App>, name: Option<string>)
    requires app != Some(Agent0) && app != Some(Todo0)
    ensures EnvContent(content, app, CodespaceId(name)) == ReplaceAll(content, Placeholder, CodespaceId(name))
    ensures !IsSet(name) ==> EnvContent(content, app, CodespaceId(name)) == content
  {
    if !IsSet(name) {
      ReplaceAllSelf(content, Placeholder);
    }
  }

  /**
   * `updateEnvFile(envPath)`: a missing file is skipped; otherwise, when the
   * text changed, the original goes to `<path>.bak` and the new text to the file.
   */
  method UpdateEnvFile(fs: FileSystem, path: string, name: Option<string>)
    modifies fs
    ensures path !in old(fs.files) ==> fs.Snapshot() == old(fs.Snapshot())
    ensures path in old(fs.files) ==>
      var content := old(fs.files[path]);
      var updated := EnvContent(content, DetectApp(path), CodespaceId(name));
      && (updated == content ==> fs.Snapshot() == old(fs.Snapshot()))
      && (updated != content ==>
            fs.Snapshot() == Write(Write(old(fs.Snapshot()), path + ".bak", content), path, updated))
  {
    if path !in fs.files {
      return;
    }
    var app := DetectApp(path);
    var content := fs.files[path];
    var updated := content;
    if PortFor(AuthServer, app).Some? {
      updated := ReplaceFirstKeyLine(updated, KeyName(AuthServer), KeyLine(KeyName(AuthServer), PortFor(AuthServer, app).value));
    }
    assert updated == KeyStep(content, AuthServer, app);
    if PortFor(TodoServer, app).Some? {
      updated := ReplaceFirstKeyLine(updated, KeyName(TodoServer), KeyLine(KeyName(TodoServer), PortFor(TodoServer, app).value));
    }
    assert updated == KeyStep(KeyStep(content, AuthServer, app), TodoServer, app);
    if PortFor(AgentServer, app).Some? {
      updated := ReplaceFirstKeyLine(updated, KeyName(AgentServer), KeyLine(KeyName(AgentServer), PortFor(AgentServer, app).value));
    }
    assert updated == KeyStep(KeyStep(KeyStep(content, AuthServer, app), TodoServer, app), AgentServer, app);
    updated := ReplaceAll(updated, Placeholder, CodespaceId(name));
    assert updated == EnvContent(content, app, CodespaceId(name));
    if updated != content {
      ghost var before := fs.Snapshot();
      var _ := fs.CopyFileSync(path, path + ".bak");
      assert fs.Snapshot() == Write(before, path + ".bak", content);
      fs.WriteFileSync(path, updated);
    }
  }

  /**
   * The text transformation `updateEnvFile` applies to the file at a path: the
   * key lines of the app the path belongs to, then the placeholder.
   */
  function EnvTransform(name: Option<string>): (string, string) -> string {
    (path, content) => EnvContent(content, DetectApp(path), CodespaceId(name))
  }

  /** The disk after `updateEnvFile` on one path, for a given text transformation. */
  function UpdateStep(d: Disk, path: string, transform: (string, string) -> string): Disk {
    if path !in d.files then d
    else
      var content := d.files[path];
      var updated := transform(path, content);
      if updated != content then Write(Write(d, path + ".bak", content), path, updated) else d
  }

  /** The disk after `updateEnvFile` on each of `paths` in order. */
  function UpdateAll(d: Disk, paths: seq<string>, transform: (string, string) -> string): Disk
    decreases |paths|
  {
    if paths == [] then d else UpdateStep(UpdateAll(d, paths[..|paths| - 1], transform), paths[|paths| - 1], transform)
  }

  /** `for (const envPath of envFiles) updateEnvFile(envPath)`. */
  method UpdateEnvFiles(fs: FileSystem, paths: seq<string>, name: Option<string>)
    modifies fs
    ensures fs.Snapshot() == UpdateAll(old(fs.Snapshot()), paths, EnvTransform(name))
  {
    for i := 0 to |paths|
      invariant fs.Snapshot() == UpdateAll(old(fs.Snapshot()), paths[..i], EnvTransform(name))
    {
      assert paths[..i + 1][..i] == paths[..i];
      UpdateEnvFile(fs, paths[i], name);
    }
    assert paths[..|paths|] == paths;
  }

  /** The script as a whole, over the env files it lists. */
  method ReplaceEnvScript(fs: FileSystem, name: Option<string>)
    modifies fs
    ensures fs.Snapshot() == UpdateAll(old(fs.Snapshot()), EnvFiles, EnvTransform(name))
  {
    UpdateEnvFiles(fs, EnvFiles, name);
  }

  /** A path that is neither listed nor the backup of a listed path is never touched. */
  predicate Touchable(paths: seq<string>, path: string) {
    path in paths || exists i :: 0 <= i < |paths| && path == paths[i] + ".bak"
  }

  /** A path touchable by a prefix of the list is touchable by the whole list. */
  lemma TouchableGrows(front: seq<string>, paths: seq<string>)
    requires front <= paths
    ensures forall path :: Touchable(front, path) ==> Touchable(paths, path)
  {
    forall path | Touchable(front, path) ensures Touchable(paths, path) {
      if path !in front {
        var i :| 0 <= i < |front| && path == front[i] + ".bak";
        assert path == paths[i] + ".bak";
      }
    }
  }

  /**
   * The script creates no file but backups, never touches a file that is not
   * listed or a listed file's backup, and writes only such files.
   */
  lemma {:induction false} UpdateAllOnlyListed(d: Disk, paths: seq<string>, transform: (string, string) -> string)
    ensures var r := UpdateAll(d, paths, transform);
      && (forall path :: path in r.files && path !in d.files ==> Touchable(paths, path))
      && (forall path :: path in d.files && !Touchable(paths, path) ==> path in r.files && r.files[path] == d.files[path])
      && d.writes <= r.writes
      && (forall w :: w in r.writes[|d.writes|..] ==> Touchable(paths, w))
    decreases |paths|
  {
    if paths != [] {
      var front := paths[..|paths| - 1];
      var last := paths[|paths| - 1];
      UpdateAllOnlyListed(d, front, transform);
      var p := UpdateAll(d, front, transform);
      var r := UpdateAll(d, paths, transform);
      TouchableGrows(front, paths);
      assert Touchable(paths, last) && Touchable(paths, last + ".bak");
      if r != p {
        assert r.writes[|d.writes|..] == p.writes[|d.writes|..] + [last + ".bak", last];
      }
    }
  }
}
