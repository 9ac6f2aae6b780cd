/**
 * scripts/setup-env.js: copies each default env file into place when its
 * target is missing; inside a Codespace it then rewrites the env files so that
 * `http://localhost:<port>` URLs become the codespace's forwarded-port URLs and
 * the `<your-codespace-id>` placeholder becomes the codespace id, and it lists
 * the OAuth redirect URIs to register.
 */
module SetupEnv {
  import opened Wrappers
  import opened Text
  import opened Codespace
  import opened Files

  // ----- Step 1: default env files -----

  /** (default file, env file) pairs, in the order the script visits them. */
  const DefaultFiles: seq<(string, string)> := [
    ("packages/todo0/.env.default", "packages/todo0/.env"),
    ("packages/authorization-server/.env.agent.default", "packages/authorization-server/.env.agent"),
    ("packages/authorization-server/.env.todo.default", "packages/authorization-server/.env.todo"),
    ("packages/agent0/.env.default", "packages/agent0/.env")
  ]

  /**
   * `copyIfNotExists(src, dest)`: copies and answers true when `dest` is
   * missing, answers false and touches nothing when it exists. A missing `src`
   * makes the copy throw.
   */
  method CopyIfNotExists(fs: FileSystem, src: string, dest: string) returns (r: Result<bool, FsError>)
    modifies fs
    ensures dest in old(fs.files) ==> r == Success(false) && fs.Snapshot() == old(fs.Snapshot())
    ensures dest !in old(fs.files) && src in old(fs.files) ==>
              r == Success(true) && fs.Snapshot() == Write(old(fs.Snapshot()), dest, old(fs.files[src]))
    ensures dest !in old(fs.files) && src !in old(fs.files) ==>
              r == Failure(NoSuchFile(src)) && fs.Snapshot() == old(fs.Snapshot())
  {
    if dest !in fs.files {
      var copied := fs.CopyFileSync(src, dest);
      if copied.Failure? {
        return Failure(copied.error);
      }
      return Success(true);
    }
    return Success(false);
  }

  /** One turn of the copy loop: copy when the default exists and the target does not. */
  function CopyStep(d: Disk, pair: (string, string)): Disk {
    if pair.0 in d.files && pair.1 !in d.files then Write(d, pair.1, d.files[pair.0]) else d
  }

  /** The disk after the copy loop has visited `pairs` in order. */
  function CopyDefaults(d: Disk, pairs: seq<(string, string)>): Disk
    decreases |pairs|
  {
    if pairs == [] then d else CopyStep(CopyDefaults(d, pairs[..|pairs| - 1]), pairs[|pairs| - 1])
  }

  /** `files.forEach(([src, dest]) => { if (existsSync(src)) copyIfNotExists(src, dest); })`. */
  method CopyDefaultFiles(fs: FileSystem, pairs: seq<(string, string)>)
    modifies fs
    ensures fs.Snapshot() == CopyDefaults(old(fs.Snapshot()), pairs)
  {
    for i := 0 to |pairs|
      invariant fs.Snapshot() == CopyDefaults(old(fs.Snapshot()), pairs[..i])
    {
      assert pairs[..i + 1][..i] == pairs[..i];
      var (src, dest) := pairs[i];
      if src in fs.files {
        var _ := CopyIfNotExists(fs, src, dest);
      }
    }
    assert pairs[..|pairs|] == pairs;
  }

  /**
   * The copy loop never changes or removes an existing file, creates only
   * targets of the list, and writes only targets that did not exist before.
   */
  lemma {:induction false} CopyDefaultsKeepsExisting(d: Disk, pairs: seq<(string, string)>)
    ensures var r := CopyDefaults(d, pairs);
      && (forall path :: path in d.files ==> path in r.files && r.files[path] == d.files[path])
      && (forall path :: path in r.files ==> path in d.files || exists i :: 0 <= i < |pairs| && pairs[i].1 == path)
      && d.writes <= r.writes
      && (forall w :: w in r.writes[|d.writes|..] ==> w !in d.files)
    decreases |pairs|
  {
    if pairs != [] {
      var front := pairs[..|pairs| - 1];
      CopyDefaultsKeepsExisting(d, front);
      var p := CopyDefaults(d, front);
      var r := CopyDefaults(d, pairs);
      forall path | path in r.files
        ensures path in d.files || exists i :: 0 <= i < |pairs| && pairs[i].1 == path
      {
        if path !in p.files {
          assert pairs[|pairs| - 1].1 == path;
        } else if path !in d.files {
          var i :| 0 <= i < |front| && front[i].1 == path;
          assert pairs[i].1 == path;
        }
      }
      if r != p {
        assert r.writes[|d.writes|..] == p.writes[|d.writes|..] + [pairs[|pairs| - 1].1];
      }
    }
  }

  /** A copy loop whose targets are pairwise distinct and none of them a default file. */
  predicate TargetsFresh(pairs: seq<(string, string)>) {
    forall i, j :: 0 <= i < |pairs| && 0 <= j < |pairs| ==>
      pairs[i].1 != pairs[j].0 && (i != j ==> pairs[i].1 != pairs[j].1)
  }

  lemma DefaultFilesTargetsFresh()
    ensures TargetsFresh(DefaultFiles)
  {
    // The eight paths have eight different lengths.
    assert |DefaultFiles[0].0| == 27 && |DefaultFiles[0].1| == 19;
    assert |DefaultFiles[1].0| == 48 && |DefaultFiles[1].1| == 40;
    assert |DefaultFiles[2].0| == 47 && |DefaultFiles[2].1| == 39;
    assert |DefaultFiles[3].0| == 28 && |DefaultFiles[3].1| == 20;
  }

  /** A path no pair targets is left as it was. */
  lemma {:induction false} CopyDefaultsElsewhere(d: Disk, pairs: seq<(string, string)>, path: string)
    requires forall i :: 0 <= i < |pairs| ==> pairs[i].1 != path
    ensures var r := CopyDefaults(d, pairs);
      (path in r.files <==> path in d.files) && (path in d.files ==> r.files[path] == d.files[path])
    decreases |pairs|
  {
    if pairs != [] {
      CopyDefaultsElsewhere(d, pairs[..|pairs| - 1], path);
    }
  }

  /**
   * With fresh targets, each target exists afterwards exactly when it existed
   * before or its default file did, and a target that was missing now holds a
   * copy of its default file.
   */
  lemma {:induction false} CopyDefaultsFills(d: Disk, pairs: seq<(string, string)>, i: nat)
    requires TargetsFresh(pairs) && i < |pairs|
    ensures var r := CopyDefaults(d, pairs);
      && (pairs[i].1 in r.files <==> pairs[i].1 in d.files || pairs[i].0 in d.files)
      && (pairs[i].1 !in d.files && pairs[i].0 in d.files ==> r.files[pairs[i].1] == d.files[pairs[i].0])
    decreases |pairs|
  {
    var n := |pairs|;
    var front := pairs[..n - 1];
    assert TargetsFresh(front);
    if i == n - 1 {
      CopyDefaultsElsewhere(d, front, pairs[i].1);
      CopyDefaultsElsewhere(d, front, pairs[i].0);
    } else {
      CopyDefaultsFills(d, front, i);
    }
  }

  // ----- Step 2: rewriting the env files inside a Codespace -----

  const LocalhostPrefix := "http://localhost:"

  /** The files the Codespace step rewrites, in order. */
  const EnvFiles: seq<string> := [
    "packages/agent0/.env",
    "packages/todo0/.env",
    "packages/authorization-server/.env.agent",
    "packages/authorization-server/.env.todo"
  ]

  /** `/http:\/\/localhost:(\d+)/` matches at the start of `s`. */
  predicate LocalhostAt(s: string) {
    LocalhostPrefix <= s && |s| > |LocalhostPrefix| && IsDigit(s[|LocalhostPrefix|])
  }

  /** The digits the match at the start of `s` captures: all of them, since `\d+` is greedy. */
  function CapturedPort(s: string): (port: string)
    requires LocalhostAt(s)
    ensures |port| > 0 && AllDigits(port) && LocalhostPrefix + port <= s
    ensures |LocalhostPrefix| + |port| <= |s|
    ensures |LocalhostPrefix| + |port| < |s| ==> !IsDigit(s[|LocalhostPrefix| + |port|])
  {
    var port := DigitRun(s[|LocalhostPrefix|..]);
    assert s == LocalhostPrefix + s[|LocalhostPrefix|..];
    port
  }

  /** `localhostToCodespaceUrl`: `str.replace(/http:\/\/localhost:(\d+)/g, ...)`. */
  function RewriteLocalhost(s: string, id: string): string
    decreases |s|
  {
    if |s| == 0 then []
    else if LocalhostAt(s) then
      var port := CapturedPort(s);
      CodespaceUrl(id, port) + RewriteLocalhost(s[|LocalhostPrefix| + |port|..], id)
    else [s[0]] + RewriteLocalhost(s[1..], id)
  }

  /** The pattern matches at position `j` of `s`. */
  predicate LocalhostAtIndex(s: string, j: nat)
    requires j <= |s|
  {
    LocalhostAt(s[j..])
  }

  predicate NoLocalhost(s: string) {
    forall i :: 0 <= i <= |s| ==> !LocalhostAt(s[i..])
  }

  /** Text without `http://localhost:` directly followed by a digit passes through unchanged. */
  lemma {:induction false} RewriteLocalhostNoMatch(s: string, id: string)
    requires NoLocalhost(s)
    ensures RewriteLocalhost(s, id) == s
    decreases |s|
  {
    if |s| > 0 {
      assert s[0..] == s;
      assert NoLocalhost(s[1..]) by {
        forall i | 0 <= i <= |s[1..]| ensures !LocalhostAt(s[1..][i..]) {
          assert s[1..][i..] == s[i + 1..];
        }
      }
      RewriteLocalhostNoMatch(s[1..], id);
    }
  }

  /** A stretch where the pattern never matches is copied through unchanged. */
  lemma {:induction false} RewriteLocalhostCopies(s: string, id: string, k: nat)
    requires k <= |s|
    requires forall j :: 0 <= j < k ==> !LocalhostAtIndex(s, j)
    ensures RewriteLocalhost(s, id) == s[..k] + RewriteLocalhost(s[k..], id)
    decreases k
  {
    if k == 0 {
      assert s[..0] == [] && s[0..] == s;
    } else {
      RewriteLocalhostCopies(s, id, k - 1);
      assert !LocalhostAtIndex(s, k - 1);
      RewriteLocalhostSkip(s[k - 1..], id);
      assert s[k - 1..][1..] == s[k..];
      var rest := RewriteLocalhost(s[k..], id);
      assert RewriteLocalhost(s, id) == s[..k - 1] + ([s[k - 1]] + rest);
      TakeOneMore(s, k);
      Regroup(s[..k - 1], [s[k - 1]], rest);
    }
  }

  /**
   * Matches are rewritten left to right without overlap: the text before the
   * first match is kept, the match with all its digits becomes the Codespace
   * URL of that port, and the scan resumes right after the digits.
   */
  lemma RewriteLocalhostFirst(s: string, id: string, k: nat)
    requires k <= |s| && LocalhostAt(s[k..])
    requires forall j :: 0 <= j < k ==> !LocalhostAtIndex(s, j)
    ensures var port := CapturedPort(s[k..]);
      RewriteLocalhost(s, id)
        == s[..k] + CodespaceUrl(id, port) + RewriteLocalhost(s[k + |LocalhostPrefix| + |port|..], id)
  {
    var port := CapturedPort(s[k..]);
    var n := |LocalhostPrefix| + |port|;
    var url := CodespaceUrl(id, port);
    var tail := RewriteLocalhost(s[k + n..], id);
    RewriteLocalhostCopies(s, id, k);
    RewriteLocalhostHere(s[k..], id);
    assert s[k..][n..] == s[k + n..];
    assert RewriteLocalhost(s[k..], id) == url + tail;
    Regroup(s[..k], url, tail);
  }

  /** Where the pattern matches, the match becomes the Codespace URL of its port. */
  lemma RewriteLocalhostHere(s: string, id: string)
    requires LocalhostAt(s)
    ensures var port := CapturedPort(s);
      RewriteLocalhost(s, id) == CodespaceUrl(id, port) + RewriteLocalhost(s[|LocalhostPrefix| + |port|..], id)
  {
  }

  /** Where the pattern does not match, the first character is kept. */
  lemma RewriteLocalhostSkip(s: string, id: string)
    requires |s| > 0 && !LocalhostAtIndex(s, 0)
    ensures RewriteLocalhost(s, id) == [s[0]] + RewriteLocalhost(s[1..], id)
  {
    assert s[0..] == s;
  }

  /** A local URL of a numbered port becomes that port's Codespace URL. */
  lemma RewriteLocalUrl(id: string, port: nat, rest: string)
    requires |rest| > 0 ==> !IsDigit(rest[0])
    ensures RewriteLocalhost(LocalhostPrefix + NatToString(port) + rest, id)
         == CodespaceUrl(id, NatToString(port)) + RewriteLocalhost(rest, id)
  {
    var digits := NatToString(port);
    var s := LocalhostPrefix + digits + rest;
    assert s[0..] == s;
    assert s[|LocalhostPrefix|..] == digits + rest;
    assert s[|LocalhostPrefix|] == digits[0];
    RewriteLocalhostFirst(s, id, 0);
    DigitRunOf(digits, rest);
    assert s[|LocalhostPrefix| + |digits|..] == rest;
  }

  /** `updateEnvFile`'s text transformation: URL rewrite first, then the placeholders. */
  function CodespaceContent(content: string, id: string): string {
    ReplaceAll(RewriteLocalhost(content, id), Placeholder, id)
  }

  /** Text with neither a local URL nor a placeholder is left as it is, so it is not written. */
  lemma CodespaceContentUntouched(content: string, id: string)
    requires NoLocalhost(content) && NoOccurrence(content, Placeholder)
    ensures CodespaceContent(content, id) == content
  {
    RewriteLocalhostNoMatch(content, id);
    ReplaceAllNoOccurrence(content, Placeholder, id);
  }

  /**
   * `updateEnvFile(envPath)`: a missing file is skipped; otherwise the file is
   * rewritten, and written back only when the text changed.
   */
  method UpdateEnvFile(fs: FileSystem, path: string, id: string)
    modifies fs
    ensures path !in old(fs.files) ==> fs.Snapshot() == old(fs.Snapshot())
    ensures path in old(fs.files) && CodespaceContent(old(fs.files[path]), id) == old(fs.files[path]) ==>
              fs.Snapshot() == old(fs.Snapshot())
    ensures path in old(fs.files) && CodespaceContent(old(fs.files[path]), id) != old(fs.files[path]) ==>
              fs.Snapshot() == Write(old(fs.Snapshot()), path, CodespaceContent(old(fs.files[path]), id))
  {
    if path !in fs.files {
      return;
    }
    var content := fs.files[path];
    var updated := RewriteLocalhost(content, id);
    updated := ReplaceAll(updated, Placeholder, id);
    if updated != content {
      fs.WriteFileSync(path, updated);
    }
  }

  /** The text transformation `updateEnvFile` applies inside the codespace `id`. */
  function CodespaceTransform(id: string): string -> string {
    content => CodespaceContent(content, id)
  }

  /** The disk after `updateEnvFile` on one path, for a given text transformation. */
  function UpdateStep(d: Disk, path: string, transform: string -> string): Disk {
    if path !in d.files then d
    else
      var updated := transform(d.files[path]);
      if updated != d.files[path] then Write(d, path, updated) else d
  }

  /** The disk after `updateEnvFile` on each of `paths` in order. */
  function UpdateAll(d: Disk, paths: seq<string>, transform: string -> string): Disk
    decreases |paths|
  {
    if paths == [] then d else UpdateStep(UpdateAll(d, paths[..|paths| - 1], transform), paths[|paths| - 1], transform)
  }

  /** `envFiles.forEach(...)` over the env files. */
  method UpdateEnvFiles(fs: FileSystem, paths: seq<string>, id: string)
    modifies fs
    ensures fs.Snapshot() == UpdateAll(old(fs.Snapshot()), paths, CodespaceTransform(id))
  {
    for i := 0 to |paths|
      invariant fs.Snapshot() == UpdateAll(old(fs.Snapshot()), paths[..i], CodespaceTransform(id))
    {
      assert paths[..i + 1][..i] == paths[..i];
      UpdateEnvFile(fs, paths[i], id);
    }
    assert paths[..|paths|] == paths;
  }

  /**
   * The Codespace step creates and deletes no file, leaves every file outside
   * the list as it was, and writes only listed files.
   */
  lemma {:induction false} UpdateAllOnlyListed(d: Disk, paths: seq<string>, transform: string -> string)
    ensures var r := UpdateAll(d, paths, transform);
      && r.files.Keys == d.files.Keys
      && (forall path :: path in d.files && path !in paths ==> r.files[path] == d.files[path])
      && d.writes <= r.writes
      && (forall w :: w in r.writes[|d.writes|..] ==> w in paths)
    decreases |paths|
  {
    if paths != [] {
      var front := paths[..|paths| - 1];
      UpdateAllOnlyListed(d, front, transform);
      var p := UpdateAll(d, front, transform);
      var r := UpdateAll(d, paths, transform);
      forall path | path in d.files && path !in paths ensures r.files[path] == d.files[path] {
        assert path !in front;
      }
      forall w | w in r.writes[|d.writes|..] ensures w in paths {
        if r != p {
          assert r.writes[|d.writes|..] == p.writes[|d.writes|..] + [paths[|paths| - 1]];
        }
        if w in p.writes[|d.writes|..] {
          assert w in front;
        }
      }
    }
  }

  // ----- Step 3: redirect URIs -----

  const CallbackPath := "/api/openid/callback/customer1"

  /** The ports whose redirect URIs are listed, in order: todo0's auth server, then agent0's. */
  const RedirectPorts: seq<nat> := [5001, 5000]

  function RedirectUri(id: string, port: nat): string {
    CodespaceUrl(id, NatToString(port)) + CallbackPath
  }

  /** `defineCodespaceRedirects`: nothing outside a Codespace, otherwise one URI per port, in order. */
  function CodespaceRedirects(name: Option<string>): (uris: seq<string>)
    ensures |uris| == if IsSet(name) then |RedirectPorts| else 0
    ensures forall i :: 0 <= i < |uris| ==> uris[i] == RedirectUri(name.value, RedirectPorts[i])
  {
    if !IsSet(name) then []
    else seq(|RedirectPorts|, i requires 0 <= i < |RedirectPorts| => RedirectUri(CodespaceId(name), RedirectPorts[i]))
  }

  /**
   * The whole script: the copy loop, then, only when `CODESPACE_NAME` is set,
   * the rewrite of every env file and the list of redirect URIs.
   */
  method SetupEnvScript(fs: FileSystem, name: Option<string>) returns (redirects: seq<string>)
    modifies fs
    ensures var copied := CopyDefaults(old(fs.Snapshot()), DefaultFiles);
      fs.Snapshot() == if IsSet(name) then UpdateAll(copied, EnvFiles, CodespaceTransform(CodespaceId(name))) else copied
    ensures redirects == CodespaceRedirects(name)
  {
    CopyDefaultFiles(fs, DefaultFiles);
    redirects := [];
    if IsSet(name) {
      UpdateEnvFiles(fs, EnvFiles, CodespaceId(name));
      redirects := CodespaceRedirects(name);
    }
  }
}
