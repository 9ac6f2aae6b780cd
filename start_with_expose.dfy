/**
 * scripts/start-with-expose.js: starts the four development servers under
 * `concurrently`; inside a Codespace it also waits for their ports to open and
 * then runs `yarn expose:ports` once, and on SIGINT/SIGTERM it shuts both
 * process groups down.
 *
 * Processes, sockets, timers and the clock are replaced by what they report:
 * exit codes, the events a probe socket sees, and the readings of `Date.now()`.
 * What the script asks of the operating system is recorded as a list of
 * effects.
 */
module StartWithExpose {
  import opened Wrappers
  import opened Text
  import opened Codespace

  /** `isCodespaces`: `CODESPACES` or `CODESPACE_NAME` is set to a non-empty string. */
  predicate IsCodespaces(codespaces: Option<string>, codespaceName: Option<string>) {
    IsSet(codespaces) || IsSet(codespaceName)
  }

  /** `portsToCheck`: agent0, todo0 and the two authorization servers. */
  const PortsToCheck: seq<nat> := [3000, 3001, 5000, 5001]

  /** The arguments `main` gives `concurrently`. */
  const ConcurrentlyArgs: seq<string> := [
    "--names", "\"agent0,auth-agent,todo0,auth-todo\"",
    "--prefix-colors", "\"cyan,magenta,green,red\"",
    "--output-path", "logs/dev-agent0.log",
    "\"yarn dev:agent0\"",
    "\"yarn auth:agent\"",
    "\"yarn dev:todo\"",
    "\"yarn auth:todo\""
  ]

  /** What a child's 'exit' event carries: a code, or `null` when a signal ended it. */
  datatype ExitCode = Code(n: nat) | Signalled

  /** `${code}` in a template literal. */
  function ExitCodeText(code: ExitCode): string {
    match code
    case Code(n) => NatToString(n)
    case Signalled => "null"
  }

  /** A spawned child; `pid` is absent when the spawn failed. */
  datatype Proc = Proc(pid: Option<int>)

  // ----- run -----

  /** The state of the promise `run` returns. */
  datatype RunOutcome = Resolved(child: Option<Proc>) | Rejected(message: string) | Pending

  function RejectMessage(cmd: string, code: ExitCode): string {
    cmd + " exited with code " + ExitCodeText(code)
  }

  /**
   * `run(cmd, args, opts)`: a detached child resolves the promise at once with
   * the child; otherwise the first 'exit' event settles it, resolving on code 0
   * and rejecting on anything else. `exit` is `None` while the child has not
   * exited.
   */
  function Run(cmd: string, detached: bool, child: Proc, exit: Option<ExitCode>): (r: RunOutcome)
    ensures detached ==> r == Resolved(Some(child))
    ensures !detached ==> (r.Resolved? <==> exit == Some(Code(0)))
    ensures !detached ==> (r.Pending? <==> exit.None?)
    ensures r.Rejected? ==> exit.Some? && exit.value != Code(0)
                            && r.message == RejectMessage(cmd, exit.value)
  {
    if detached then Resolved(Some(child))
    else match exit
      case None => Pending
      case Some(Code(0)) => Resolved(None)
      case Some(code) => Rejected(RejectMessage(cmd, code))
  }

  /** The rejection message names the command and the exit code, which can be read back from it. */
  lemma RejectMessageNamesCode(cmd: string, n: nat)
    ensures var m := RejectMessage(cmd, Code(n));
      var prefix := cmd + " exited with code ";
      prefix <= m && AllDigits(m[|prefix|..]) && ParseDigits(m[|prefix|..]) == n
  {
    var m := RejectMessage(cmd, Code(n));
    var prefix := cmd + " exited with code ";
    assert m[|prefix|..] == NatToString(n);
    ParseNatToString(n);
  }

  /** A child killed by a signal is reported as `null`, never as a number. */
  lemma RejectMessageSignalled(cmd: string, n: nat)
    ensures RejectMessage(cmd, Signalled) != RejectMessage(cmd, Code(n))
  {
    var prefix := cmd + " exited with code ";
    var a := RejectMessage(cmd, Signalled);
    var b := RejectMessage(cmd, Code(n));
    if |a| == |b| {
      assert a[|prefix|] == 'n';
      assert b[|prefix|] == NatToString(n)[0];
    }
  }

  // ----- checkPort and waitForPorts -----

  /** What a probe socket reports, first to last. */
  datatype SocketEvent = Connect | Timeout | SocketError

  /**
   * `checkPort(port)`: the promise settles on the socket's first event (each
   * handler is registered with `once` and a promise settles once), true only
   * for 'connect'.
   */
  function CheckPort(events: seq<SocketEvent>): (open: bool)
    requires |events| > 0
  {
    events[0] == Connect
  }

  /** The value the handler registered for a socket event resolves the probe with. */
  function HandlerAnswer(e: SocketEvent): bool {
    match e
    case Connect => true
    case Timeout => false
    case SocketError => false
  }

  /**
   * The probe's promise as the events are delivered one by one: each event's
   * handler calls `resolve`, and only a call on a still-pending promise takes
   * effect. `settled` is the promise's value so far, `None` while pending.
   */
  function Settle(events: seq<SocketEvent>, settled: Option<bool>): Option<bool>
    decreases |events|
  {
    if events == [] then settled
    else Settle(events[1..], if settled.None? then Some(HandlerAnswer(events[0])) else settled)
  }

  /** Once settled, the promise keeps its value whatever events follow. */
  lemma {:induction false} SettledStays(events: seq<SocketEvent>, answer: bool)
    ensures Settle(events, Some(answer)) == Some(answer)
    decreases |events|
  {
    if events != [] {
      SettledStays(events[1..], answer);
    }
  }

  /**
   * Later socket events cannot change a probe's answer, and that answer is the
   * value the promise settles with when the socket's events are delivered in
   * order: true on a first 'connect', false on a first 'timeout' or 'error'.
   */
  lemma CheckPortFirstEventDecides(events: seq<SocketEvent>, later: seq<SocketEvent>)
    requires |events| > 0
    ensures CheckPort(events + later) == CheckPort(events)
    ensures Settle(events + later, None) == Some(CheckPort(events))
  {
    var all := events + later;
    assert all[0] == events[0];
    SettledStays(all[1..], HandlerAnswer(events[0]));
  }

  /** `results.every(Boolean)` for one round of probes, one event list per port. */
  predicate AllOpen(round: seq<seq<SocketEvent>>)
    requires forall k :: 0 <= k < |round| ==> |round[k]| > 0
  {
    forall k :: 0 <= k < |round| ==> CheckPort(round[k])
  }

  /** Every probe of every round reports at least one event (the 500 ms timeout guarantees one). */
  predicate WellFormedRounds(ports: seq<nat>, rounds: seq<seq<seq<SocketEvent>>>) {
    forall j :: 0 <= j < |rounds| ==> |rounds[j]| == |ports| && forall k :: 0 <= k < |rounds[j]| ==> |rounds[j][k]| > 0
  }

  /**
   * Round `r - 1` was the first in which every port answered, and every clock
   * reading up to it was before the deadline.
   */
  predicate ReadyAfter(clock: seq<int>, rounds: seq<seq<seq<SocketEvent>>>, maxWait: int, r: nat)
    requires forall j :: 0 <= j < |rounds| ==> forall k :: 0 <= k < |rounds[j]| ==> |rounds[j][k]| > 0
  {
    && 1 <= r <= |rounds| && r < |clock|
    && (forall j :: 1 <= j <= r ==> clock[j] - clock[0] < maxWait)
    && (forall j :: 0 <= j < r - 1 ==> !AllOpen(rounds[j]))
    && AllOpen(rounds[r - 1])
  }

  /**
   * `r` rounds ran before the deadline, none with every port answering, and the
   * next clock reading was at or past the deadline.
   */
  predicate TimedOutAfter(clock: seq<int>, rounds: seq<seq<seq<SocketEvent>>>, maxWait: int, r: nat)
    requires forall j :: 0 <= j < |rounds| ==> forall k :: 0 <= k < |rounds[j]| ==> |rounds[j][k]| > 0
  {
    && r <= |rounds| && r + 1 < |clock|
    && (forall j :: 1 <= j <= r ==> clock[j] - clock[0] < maxWait)
    && (forall j :: 0 <= j < r ==> !AllOpen(rounds[j]))
    && clock[r + 1] - clock[0] >= maxWait
  }

  const MaxWait: int := 60000

  /**
   * `waitForPorts(ports, maxWait)`. `clock[0]` is the start time and
   * `clock[j + 1]` the reading the loop condition takes before round `j`;
   * `rounds[j]` is what the probes of round `j` report. The poll interval
   * passes between readings and is only visible through them. The clock is
   * required to reach the deadline eventually.
   */
  method WaitForPorts(ports: seq<nat>, maxWait: int, clock: seq<int>, rounds: seq<seq<seq<SocketEvent>>>)
    returns (ready: bool, probed: nat)
    requires WellFormedRounds(ports, rounds)
    requires |clock| >= 2 && clock[|clock| - 1] - clock[0] >= maxWait
    requires |rounds| >= |clock| - 1
    ensures ready ==> ReadyAfter(clock, rounds, maxWait, probed)
    ensures !ready ==> TimedOutAfter(clock, rounds, maxWait, probed)
  {
    var start := clock[0];
    var i := 0;
    while clock[i + 1] - start < maxWait
      invariant 0 <= i <= |clock| - 2
      invariant forall j :: 1 <= j <= i ==> clock[j] - start < maxWait
      invariant forall j :: 0 <= j < i ==> !AllOpen(rounds[j])
      decreases |clock| - 2 - i
    {
      if AllOpen(rounds[i]) {
        return true, i + 1;
      }
      i := i + 1;
    }
    return false, i;
  }

  /** The two outcomes of `waitForPorts` exclude each other, so the answer is determined by the oracles. */
  lemma ReadyOrTimedOut(clock: seq<int>, rounds: seq<seq<seq<SocketEvent>>>, maxWait: int, r: nat, s: nat)
    requires forall j :: 0 <= j < |rounds| ==> forall k :: 0 <= k < |rounds[j]| ==> |rounds[j][k]| > 0
    requires ReadyAfter(clock, rounds, maxWait, r)
    ensures !TimedOutAfter(clock, rounds, maxWait, s)
  {
  }

  // ----- runExposePortsWithRetry -----

  /** What one run of the retry loop does, in order: each attempt spawns `spawn` and waits for its exit. */
  datatype Step = Attempt(number: nat, spawn: Effect) | Wait(ms: nat)

  /** The command each attempt spawns: `yarn expose-ports` (with a hyphen), not detached. */
  const RetrySpawn: Effect := Spawn("yarn", ["expose-ports"], false)

  /** Attempts 1..n with a wait of `delay` between consecutive attempts. */
  function AttemptTrace(n: nat, delay: nat): seq<Step>
    decreases n
  {
    if n == 0 then []
    else if n == 1 then [Attempt(1, RetrySpawn)]
    else AttemptTrace(n - 1, delay) + [Wait(delay), Attempt(n, RetrySpawn)]
  }

  /**
   * The attempts are numbered 1..n in order, a wait separates each pair of
   * consecutive attempts, and the loop never ends on a wait.
   */
  lemma {:induction false} AttemptTraceShape(n: nat, delay: nat)
    ensures var t := AttemptTrace(n, delay);
      && |t| == (if n == 0 then 0 else 2 * n - 1)
      && (forall i :: 0 <= i < |t| ==> t[i] == if i % 2 == 0 then Attempt(i / 2 + 1, RetrySpawn) else Wait(delay))
      && (n > 0 ==> t[|t| - 1] == Attempt(n, RetrySpawn))
    decreases n
  {
    if n > 1 {
      AttemptTraceShape(n - 1, delay);
      var t := AttemptTrace(n, delay);
      var u := AttemptTrace(n - 1, delay);
      assert t == u + [Wait(delay), Attempt(n, RetrySpawn)];
      forall i | 0 <= i < |t|
        ensures t[i] == if i % 2 == 0 then Attempt(i / 2 + 1, RetrySpawn) else Wait(delay)
      {
        if i < |u| {
          assert t[i] == u[i];
        }
      }
    }
  }

  /** The default arguments of `runExposePortsWithRetry`. */
  const MaxRetries: nat := 3
  const RetryDelay: nat := 5000

  /**
   * With its default arguments the loop makes at most three attempts, 5 s
   * apart; when all three fail it has made all three.
   */
  lemma DefaultRetryTrace()
    ensures AttemptTrace(MaxRetries, RetryDelay)
         == [Attempt(1, RetrySpawn), Wait(5000), Attempt(2, RetrySpawn), Wait(5000), Attempt(3, RetrySpawn)]
  {
    assert AttemptTrace(2, RetryDelay) == [Attempt(1, RetrySpawn), Wait(5000), Attempt(2, RetrySpawn)];
  }

  /**
   * `runExposePortsWithRetry(maxRetries, delay)`. `codes[i]` is the exit code
   * of attempt `i + 1`. The function is defined but `main` never calls it.
   */
  method RunExposePortsWithRetry(maxRetries: int, delay: nat, codes: seq<ExitCode>)
    returns (ok: bool, attempts: nat, steps: seq<Step>)
    requires |codes| >= maxRetries
    ensures ok <==> exists i :: 0 <= i < maxRetries && codes[i] == Code(0)
    ensures ok ==> 1 <= attempts <= maxRetries && codes[attempts - 1] == Code(0)
                   && forall i :: 0 <= i < attempts - 1 ==> codes[i] != Code(0)
    ensures !ok ==> attempts == (if maxRetries > 0 then maxRetries else 0)
    ensures steps == AttemptTrace(attempts, delay)
  {
    steps := [];
    var attempt := 1;
    while attempt <= maxRetries
      invariant attempt == 1 || 1 < attempt <= maxRetries + 1
      invariant forall i :: 0 <= i < attempt - 1 ==> codes[i] != Code(0)
      invariant steps == AttemptTrace(attempt - 1, delay) + (if 1 < attempt <= maxRetries then [Wait(delay)] else [])
      decreases maxRetries - attempt
    {
      steps := steps + [Attempt(attempt, Spawn("yarn", ["expose-ports"], false))];
      var code := codes[attempt - 1];
      if code == Code(0) {
        return true, attempt, steps;
      }
      if attempt < maxRetries {
        steps := steps + [Wait(delay)];
      }
      attempt := attempt + 1;
    }
    return false, attempt - 1, steps;
  }

  // ----- main: shutdown state and the two branches -----

  datatype Signal = SIGINT | SIGKILL

  /** What the script asks of the operating system. */
  datatype Effect =
    | Spawn(command: string, args: seq<string>, detached: bool)
    | Kill(target: int, signal: Signal)
    | Sleep(ms: nat)
    | After(ms: nat, action: Effect)
    | Exit(status: int)

  const KillGrace: nat := 4000
  const ForceExitDelay: nat := 5000
  const ExposeSettle: nat := 5000

  /** `proc && proc.pid`: a handle with a non-zero pid. */
  predicate HasPid(proc: Option<Proc>) {
    proc.Some? && proc.value.pid.Some? && proc.value.pid.value != 0
  }

  /** The process group `killProcessGroup` signals, if it signals any. */
  function Group(proc: Option<Proc>): seq<int> {
    if HasPid(proc) then [-proc.value.pid.value] else []
  }

  /** `killProcessGroup(proc)`: SIGINT to the group now, SIGKILL after the grace period. */
  function KillRequests(proc: Option<Proc>): seq<Effect> {
    if HasPid(proc) then
      var group := -proc.value.pid.value;
      [Kill(group, SIGINT), After(KillGrace, Kill(group, SIGKILL))]
    else []
  }

  /** What the first `shutdown()` asks for. */
  function ShutdownEffects(child: Option<Proc>, exposeProc: Option<Proc>): seq<Effect> {
    KillRequests(child) + KillRequests(exposeProc) + [After(ForceExitDelay, Exit(0))]
  }

  /** The group an effect interrupts at once, if it is such a kill. */
  function InterruptOf(e: Effect): seq<int> {
    if e.Kill? && e.signal == SIGINT then [e.target] else []
  }

  /** The group an effect schedules for SIGKILL after the grace period, if it does. */
  function EscalationOf(e: Effect): seq<int> {
    if e.After? && e.ms == KillGrace && e.action.Kill? && e.action.signal == SIGKILL then [e.action.target] else []
  }

  /** The effect itself when it schedules an exit. */
  function ExitOf(e: Effect): seq<Effect> {
    if e.After? && e.action.Exit? then [e] else []
  }

  /** The groups sent an immediate SIGINT, in order. */
  function Interrupted(effects: seq<Effect>): seq<int>
    decreases |effects|
  {
    if effects == [] then []
    else Interrupted(effects[..|effects| - 1]) + InterruptOf(effects[|effects| - 1])
  }

  /** The groups scheduled for SIGKILL after the grace period, in order. */
  function Escalated(effects: seq<Effect>): seq<int>
    decreases |effects|
  {
    if effects == [] then []
    else Escalated(effects[..|effects| - 1]) + EscalationOf(effects[|effects| - 1])
  }

  /** The delayed exits scheduled, in order. */
  function Exits(effects: seq<Effect>): seq<Effect>
    decreases |effects|
  {
    if effects == [] then []
    else Exits(effects[..|effects| - 1]) + ExitOf(effects[|effects| - 1])
  }

  /** The last element of `a + b`, for a non-empty `b`, is that of `b`, and the rest is `a` followed by the rest of `b`. */
  lemma SplitLast(a: seq<Effect>, b: seq<Effect>)
    requires |b| > 0
    ensures (a + b)[..|a + b| - 1] == a + b[..|b| - 1]
    ensures (a + b)[|a + b| - 1] == b[|b| - 1]
  {
  }

  lemma {:induction false} InterruptedAppend(a: seq<Effect>, b: seq<Effect>)
    ensures Interrupted(a + b) == Interrupted(a) + Interrupted(b)
    decreases |b|
  {
    if b == [] {
      assert a + b == a;
    } else {
      var b' := b[..|b| - 1];
      var x := b[|b| - 1];
      InterruptedAppend(a, b');
      SplitLast(a, b);
      assert Interrupted(a) + Interrupted(b') + InterruptOf(x) == Interrupted(a) + (Interrupted(b') + InterruptOf(x));
    }
  }

  lemma {:induction false} EscalatedAppend(a: seq<Effect>, b: seq<Effect>)
    ensures Escalated(a + b) == Escalated(a) + Escalated(b)
    decreases |b|
  {
    if b == [] {
      assert a + b == a;
    } else {
      var b' := b[..|b| - 1];
      var x := b[|b| - 1];
      EscalatedAppend(a, b');
      SplitLast(a, b);
      assert Escalated(a) + Escalated(b') + EscalationOf(x) == Escalated(a) + (Escalated(b') + EscalationOf(x));
    }
  }

  lemma {:induction false} ExitsAppend(a: seq<Effect>, b: seq<Effect>)
    ensures Exits(a + b) == Exits(a) + Exits(b)
    decreases |b|
  {
    if b == [] {
      assert a + b == a;
    } else {
      var b' := b[..|b| - 1];
      var x := b[|b| - 1];
      ExitsAppend(a, b');
      SplitLast(a, b);
      assert Exits(a) + Exits(b') + ExitOf(x) == Exits(a) + (Exits(b') + ExitOf(x));
    }
  }

  /** The three filters distribute over concatenation. */
  lemma FiltersAppend(a: seq<Effect>, b: seq<Effect>)
    ensures Interrupted(a + b) == Interrupted(a) + Interrupted(b)
    ensures Escalated(a + b) == Escalated(a) + Escalated(b)
    ensures Exits(a + b) == Exits(a) + Exits(b)
  {
    InterruptedAppend(a, b);
    EscalatedAppend(a, b);
    ExitsAppend(a, b);
  }

  /**
   * Shutdown interrupts the service group and then the expose group, skipping
   * a handle that is null or has no pid, escalates each interrupted group to
   * SIGKILL after the grace period, and schedules exactly one exit, with
   * status 0.
   */
  lemma ShutdownEffectsOrder(child: Option<Proc>, exposeProc: Option<Proc>)
    ensures var es := ShutdownEffects(child, exposeProc);
      && Interrupted(es) == Group(child) + Group(exposeProc)
      && Escalated(es) == Group(child) + Group(exposeProc)
      && Exits(es) == [After(ForceExitDelay, Exit(0))]
  {
    var c := KillRequests(child);
    var e := KillRequests(exposeProc);
    KillRequestsFilters(child);
    KillRequestsFilters(exposeProc);
    ForcedExitFilters();
    FiltersAppend(c, e);
    FiltersAppend(c + e, [After(ForceExitDelay, Exit(0))]);
  }

  /** `killProcessGroup` interrupts the handle's group at once and escalates it later, and exits nothing. */
  lemma KillRequestsFilters(proc: Option<Proc>)
    ensures Interrupted(KillRequests(proc)) == Group(proc)
    ensures Escalated(KillRequests(proc)) == Group(proc)
    ensures Exits(KillRequests(proc)) == []
  {
    var ks := KillRequests(proc);
    if HasPid(proc) {
      var g := -proc.value.pid.value;
      var first := [Kill(g, SIGINT)];
      assert ks[..|ks| - 1] == first && ks[|ks| - 1] == After(KillGrace, Kill(g, SIGKILL));
      assert first[..|first| - 1] == [] && first[|first| - 1] == Kill(g, SIGINT);
      assert Interrupted(first) == [g] && Escalated(first) == [];
      assert !first[0].After?;
      assert Exits(first) == Exits(first[..0]);
      assert Interrupted(ks) == [g] + [];
      assert Escalated(ks) == [] + [g];
      assert Exits(ks) == [] + [];
    }
  }

  /**
   * Outside a Codespace `child` and `exposeProc` stay null, so shutdown
   * signals no group and only schedules the forced exit.
   */
  lemma LocalShutdownOnlyExits()
    ensures ShutdownEffects(None, None) == [After(ForceExitDelay, Exit(0))]
    ensures Interrupted(ShutdownEffects(None, None)) == [] && Escalated(ShutdownEffects(None, None)) == []
  {
    ForcedExitFilters();
    assert KillRequests(None) == [];
    assert ShutdownEffects(None, None) == [] + [] + [After(ForceExitDelay, Exit(0))];
  }

  lemma ForcedExitFilters()
    ensures var x := [After(ForceExitDelay, Exit(0))];
      Interrupted(x) == [] && Escalated(x) == [] && Exits(x) == x
  {
    var x := [After(ForceExitDelay, Exit(0))];
    assert x[..|x| - 1] == [];
  }

  /**
   * `main`'s own variables (`child`, `exposeProc`, `shuttingDown`) together
   * with the effects issued so far. Its methods are the handlers the script
   * registers; they may run in any order.
   */
  class Supervisor {
    var child: Option<Proc>
    var exposeProc: Option<Proc>
    var shuttingDown: bool
    var effects: seq<Effect>

    constructor ()
      ensures child == None && exposeProc == None && !shuttingDown && effects == []
    {
      child := None;
      exposeProc := None;
      shuttingDown := false;
      effects := [];
    }

    /** `killProcessGroup(proc)`. */
    method KillProcessGroup(proc: Option<Proc>)
      modifies this
      ensures effects == old(effects) + KillRequests(proc)
      ensures child == old(child) && exposeProc == old(exposeProc) && shuttingDown == old(shuttingDown)
    {
      if HasPid(proc) {
        var group := -proc.value.pid.value;
        effects := effects + [Kill(group, SIGINT)];
        effects := effects + [After(KillGrace, Kill(group, SIGKILL))];
      }
    }

    /** `shutdown()`, the SIGINT and SIGTERM handler: it acts only the first time. */
    method Shutdown()
      modifies this
      ensures child == old(child) && exposeProc == old(exposeProc) && shuttingDown
      ensures old(shuttingDown) ==> effects == old(effects)
      ensures !old(shuttingDown) ==> effects == old(effects) + ShutdownEffects(child, exposeProc)
    {
      if shuttingDown {
        return;
      }
      shuttingDown := true;
      KillProcessGroup(child);
      KillProcessGroup(exposeProc);
      effects := effects + [After(ForceExitDelay, Exit(0))];
    }

    /** Two signals in a row shut down once. */
    method ShutdownTwice()
      modifies this
      ensures child == old(child) && exposeProc == old(exposeProc) && shuttingDown
      ensures effects == old(effects) + (if old(shuttingDown) then [] else ShutdownEffects(child, exposeProc))
    {
      Shutdown();
      Shutdown();
    }

    /** Codespaces step 1: `concurrently` is spawned detached and becomes `child`. */
    method StartServices(pid: Option<int>)
      modifies this
      ensures child == Some(Proc(pid)) && exposeProc == old(exposeProc) && shuttingDown == old(shuttingDown)
      ensures effects == old(effects) + [Spawn("concurrently", ConcurrentlyArgs, true)]
    {
      child := Some(Proc(pid));
      effects := effects + [Spawn("concurrently", ConcurrentlyArgs, true)];
    }

    /**
     * Codespaces step 2, the background task: once every port is open it
     * waits a few seconds and spawns `yarn expose:ports` once, detached, as
     * `exposeProc`; if the deadline passes first it does nothing.
     */
    method ExposeWhenReady(clock: seq<int>, rounds: seq<seq<seq<SocketEvent>>>, exposePid: Option<int>)
      returns (ready: bool, probed: nat)
      modifies this
      requires WellFormedRounds(PortsToCheck, rounds)
      requires |clock| >= 2 && clock[|clock| - 1] - clock[0] >= MaxWait
      requires |rounds| >= |clock| - 1
      ensures ready ==> ReadyAfter(clock, rounds, MaxWait, probed)
      ensures !ready ==> TimedOutAfter(clock, rounds, MaxWait, probed)
      ensures child == old(child) && shuttingDown == old(shuttingDown)
      ensures ready ==> exposeProc == Some(Proc(exposePid))
                        && effects == old(effects) + [Sleep(ExposeSettle), Spawn("yarn", ["expose:ports"], true)]
      ensures !ready ==> exposeProc == old(exposeProc) && effects == old(effects)
    {
      ready, probed := WaitForPorts(PortsToCheck, MaxWait, clock, rounds);
      if ready {
        effects := effects + [Sleep(ExposeSettle)];
        exposeProc := Some(Proc(exposePid));
        effects := effects + [Spawn("yarn", ["expose:ports"], true)];
      }
    }

    /**
     * Outside a Codespace: `run('concurrently', …)` spawns the group attached,
     * and its handle is never stored in `child`.
     */
    method StartLocal()
      modifies this
      ensures child == old(child) && exposeProc == old(exposeProc) && shuttingDown == old(shuttingDown)
      ensures effects == old(effects) + [Spawn("concurrently", ConcurrentlyArgs, false)]
    {
      effects := effects + [Spawn("concurrently", ConcurrentlyArgs, false)];
    }

    /** Codespaces: `child.on('exit', code => process.exit(code))`. */
    method ServicesExited(code: ExitCode)
      modifies this
      ensures child == old(child) && exposeProc == old(exposeProc) && shuttingDown == old(shuttingDown)
      ensures effects == old(effects) + [Exit(CodespacesExitStatus(code))]
    {
      effects := effects + [Exit(CodespacesExitStatus(code))];
    }
  }

  /**
   * Outside a Codespace, a SIGINT while `concurrently` runs: the group was
   * spawned attached and never stored, so shutdown signals nothing and only
   * schedules the forced exit.
   */
  method LocalRunInterrupted() returns (sup: Supervisor)
    ensures fresh(sup) && sup.shuttingDown && sup.child == None && sup.exposeProc == None
    ensures sup.effects == [Spawn("concurrently", ConcurrentlyArgs, false), After(ForceExitDelay, Exit(0))]
  {
    sup := new Supervisor();
    sup.StartLocal();
    sup.Shutdown();
    LocalShutdownOnlyExits();
  }

  /** `process.exit(code)`: a `null` code leaves the default status, 0. */
  function CodespacesExitStatus(code: ExitCode): nat {
    match code
    case Code(n) => n
    case Signalled => 0
  }

  /**
   * The status the script ends with once the service group has exited: in a
   * Codespace that group's own status (0 for a signal); locally `run` settles
   * `main`'s promise, which ends the script normally on success and through
   * `main().catch` with status 1 otherwise.
   */
  function ExitStatus(codespaces: Option<string>, codespaceName: Option<string>, services: ExitCode): (status: nat)
    ensures IsCodespaces(codespaces, codespaceName) ==> status == CodespacesExitStatus(services)
    ensures !IsCodespaces(codespaces, codespaceName) ==>
      var outcome := Run("concurrently", false, Proc(None), Some(services));
      && (status == 0 <==> outcome.Resolved?)
      && (status == 1 <==> outcome.Rejected?)
  {
    if IsCodespaces(codespaces, codespaceName) then CodespacesExitStatus(services)
    else if services == Code(0) then 0
    else 1
  }

  /** In a Codespace the script reports the group's numeric status unchanged. */
  lemma CodespacesPassesStatusThrough(codespaces: Option<string>, codespaceName: Option<string>, n: nat)
    requires IsCodespaces(codespaces, codespaceName)
    ensures ExitStatus(codespaces, codespaceName, Code(n)) == n
  {
  }

  /** Locally every failure, whatever its status, collapses to 1. */
  lemma LocalFailuresCollapse(codespaces: Option<string>, codespaceName: Option<string>, a: ExitCode, b: ExitCode)
    requires !IsCodespaces(codespaces, codespaceName) && a != Code(0) && b != Code(0)
    ensures ExitStatus(codespaces, codespaceName, a) == ExitStatus(codespaces, codespaceName, b) == 1
  {
  }
}
