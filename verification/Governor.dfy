/** When the menu-bar app may be restarted, and what that means over whole runs
    (shared/aidesk-app-refresh.ts, src/node/macos-aidesk-app-refresh.ts). */
module Governor {
  import opened Results
  import opened Lists

  const MAX_ATTEMPTS_PER_VERSION := 3
  const MIN_ATTEMPT_SPACING_MS := 600_000

  /** What the state file remembers. */
  datatype State = State(version: Option<string>, attempts: nat, lastAttemptAt: Option<int>)

  datatype Process = Process(pid: nat, running: Option<string>)

  datatype Decision =
    | Leave(reason: string)
    | Defer(reason: string, pids: seq<nat>)
    | Restart(pid: nat, from: string, to: string)

  /** One periodic check: what it finds, the clock when it decides and when it records, and whether the
      state file could be read and written. */
  datatype Check = Check(installed: Option<string>, processes: seq<Process>, connections: int,
                         decideAt: int, recordAt: int, readable: bool, written: bool)

  function Stale(processes: seq<Process>, version: string): (r: seq<Process>)
    ensures forall p :: p in r <==> p in processes && p.running != Some(version)
  {
    if processes == [] then []
    else (if processes[0].running != Some(version) then [processes[0]] else []) + Stale(processes[1..], version)
  }

  function Pids(processes: seq<Process>): seq<nat> {
    if processes == [] then [] else [processes[0].pid] + Pids(processes[1..])
  }

  predicate NoneInstalled(c: Check) {
    c.installed.None? || c.installed.value == ""
  }

  /** `decideAideskAppRefresh`. */
  function Decide(c: Check, state: State): Decision {
    if NoneInstalled(c) then Leave("no_app_installed")
    else if c.processes == [] then Leave("not_running")
    else if exists p :: p in c.processes && p.running == None then Leave("version_unknown")
    else
      var version := c.installed.value;
      var stale := Stale(c.processes, version);
      var same := state.version == Some(version);
      if stale == [] then Leave("current")
      else if same && state.attempts >= MAX_ATTEMPTS_PER_VERSION then Defer("cap_reached", Pids(stale))
      else if c.connections > 0 then Defer("active_session", Pids(stale))
      else if same && state.lastAttemptAt.Some? && c.decideAt - state.lastAttemptAt.value < MIN_ATTEMPT_SPACING_MS then
        Defer("retry_wait", Pids(stale))
      else
        assert stale[0] in c.processes;
        Restart(stale[0].pid, stale[0].running.value, version)
  }

  /** `recordAideskAppRefreshAttempt`. */
  function Record(state: State, version: string, now: int): State {
    State(Some(version), (if state.version == Some(version) then state.attempts else 0) + 1, Some(now))
  }

  /** `defaultReadState`: a file that cannot be read or parsed counts as no attempts. What was recorded reads back
      as it was. */
  function Seen(state: State, c: Check): State {
    if c.readable then state else State(None, 0, None)
  }

  /** The state file after a check: written before the restart, and left as it was when writing fails. */
  function After(state: State, c: Check): State {
    match Decide(c, Seen(state, c))
    case Restart(_, _, to) => if c.written then Record(Seen(state, c), to, c.recordAt) else state
    case _ => state
  }

  /** The checks of a run that restarted the app. The state file outlives the node, so a node restart
      between two checks changes nothing. */
  function Restarts(state: State, run: seq<Check>): (r: seq<Check>)
    ensures |r| <= |run|
    decreases |run|
  {
    if run == [] then []
    else
      var c, rest := run[0], Restarts(After(state, run[0]), run[1..]);
      (if Decide(c, Seen(state, c)).Restart? then [c] else []) + rest
  }

  /** Only `version` is installed during the run, or nothing is. */
  ghost predicate Stretch(run: seq<Check>, version: string) {
    version != "" && forall i :: 0 <= i < |run| ==> NoneInstalled(run[i]) || run[i].installed == Some(version)
  }

  function Written(checks: seq<Check>): nat {
    if checks == [] then 0 else (if checks[0].written then 1 else 0) + Written(checks[1..])
  }

  /** Attempts the file still allows for `version`. */
  function Left(state: State, version: string): nat {
    if state.version != Some(version) then MAX_ATTEMPTS_PER_VERSION
    else if state.attempts >= MAX_ATTEMPTS_PER_VERSION then 0
    else MAX_ATTEMPTS_PER_VERSION - state.attempts
  }

  // ---------------------------------------------------------------- one check

  /** A check that can lead to a restart of a process of some other version than `version`. */
  ghost predicate Eligible(c: Check, version: string) {
    && c.installed == Some(version) && version != "" && c.connections <= 0
    && (forall p :: p in c.processes ==> p.running != None)
    && exists p :: p in c.processes && p.running != Some(version)
  }

  ghost predicate Waited(c: Check, state: State, version: string) {
    state.version == Some(version) && state.lastAttemptAt.Some? ==>
      c.decideAt - state.lastAttemptAt.value >= MIN_ATTEMPT_SPACING_MS
  }

  /** The app is restarted exactly when no session is active, all running versions are known, one of them is
      not the installed one, an attempt is left and the last one is long enough ago; what is stopped is such
      a process. */
  lemma RestartIff(c: Check, state: State, version: string)
    requires version != "" && (NoneInstalled(c) || c.installed == Some(version))
    ensures Decide(c, state).Restart? <==> Eligible(c, version) && Left(state, version) > 0 && Waited(c, state, version)
    ensures Decide(c, state).Restart? ==>
      var d := Decide(c, state);
      d.to == version && d.from != version && Process(d.pid, Some(d.from)) in c.processes
  {
    var stale := Stale(c.processes, version);
    if stale != [] {
      assert stale[0] in stale;
    }
    if p :| p in c.processes && p.running != Some(version) {
      assert p in stale;
    }
    if p :| p in c.processes && p.running == None {
      assert p in c.processes && p.running == None;
    }
  }

  lemma {:induction false} StalePicks(processes: seq<Process>, version: string) returns (at: seq<nat>)
    ensures PicksAt(processes, at, Stale(processes, version))
    ensures forall i :: 0 <= i < |processes| ==> (i in at <==> processes[i].running != Some(version))
  {
    at := [];
    if processes != [] {
      var rest := processes[1..];
      var behind := StalePicks(rest, version);
      var stale := Stale(rest, version);
      if processes[0].running != Some(version) {
        PickFirst(processes, behind, stale);
        at := [0] + Shifted(behind);
      } else {
        PickLater(processes, behind, stale);
        at := Shifted(behind);
      }
      forall i | 0 <= i < |processes|
        ensures i in at <==> processes[i].running != Some(version)
      {
        ShiftedHas(behind, i);
        assert i > 0 ==> rest[i - 1] == processes[i];
      }
    }
  }

  lemma {:induction false} PidsAre(processes: seq<Process>)
    ensures |Pids(processes)| == |processes|
    ensures forall k :: 0 <= k < |processes| ==> Pids(processes)[k] == processes[k].pid
  {
    if processes != [] {
      PidsAre(processes[1..]);
    }
  }

  /** Some version is installed, the app runs, and every running version is known. */
  ghost predicate Readable(c: Check) {
    !NoneInstalled(c) && c.processes != [] && forall p :: p in c.processes ==> p.running.Some?
  }

  /** Whether a check leaves the app alone, and why: the first of these reasons that holds. */
  lemma LeaveIff(c: Check, state: State)
    ensures Decide(c, state).Leave? <==> !Readable(c) || forall p :: p in c.processes ==> p.running == c.installed
    ensures Decide(c, state).Leave? ==>
              Decide(c, state)
              == Leave(if c.installed == None || c.installed == Some("") then "no_app_installed"
                       else if c.processes == [] then "not_running"
                       else if exists p :: p in c.processes && p.running == None then "version_unknown"
                       else "current")
  {
    if !NoneInstalled(c) {
      var stale := Stale(c.processes, c.installed.value);
      assert stale != [] ==> stale[0] in stale;
      hide Stale;
    }
  }

  /** What a check does about stale processes; `at` are their positions, in order. With no attempt left it defers, else
      with a session active, else until the spacing is kept, naming the stale processes in order; otherwise it restarts
      the first of them. */
  lemma StaleIff(c: Check, state: State) returns (at: seq<nat>)
    requires Readable(c) && exists p :: p in c.processes && p.running != c.installed
    ensures at != [] && PicksAt(c.processes, at, Stale(c.processes, c.installed.value))
    ensures forall i :: 0 <= i < |c.processes| ==> (i in at <==> c.processes[i].running != c.installed)
    ensures var pids := PidsAt(c.processes, at);
            Decide(c, state)
            == if Left(state, c.installed.value) == 0 then Defer("cap_reached", pids)
               else if c.connections > 0 then Defer("active_session", pids)
               else if !Waited(c, state, c.installed.value) then Defer("retry_wait", pids)
               else Restart(pids[0], c.processes[at[0]].running.value, c.installed.value)
  {
    var version := c.installed.value;
    var stale := Stale(c.processes, version);
    at := StalePicks(c.processes, version);
    var p :| p in c.processes && p.running != c.installed;
    assert p in stale;
    DecideStale(c, state);
    hide *;
    SamePids(c.processes, at, stale);
  }

  function PidsAt(processes: seq<Process>, at: seq<nat>): seq<nat>
    requires forall k :: 0 <= k < |at| ==> at[k] < |processes|
  {
    seq(|at|, k requires 0 <= k < |at| => processes[at[k]].pid)
  }

  lemma SamePids(processes: seq<Process>, at: seq<nat>, picked: seq<Process>)
    requires PicksAt(processes, at, picked)
    ensures Pids(picked) == PidsAt(processes, at)
  {
    PidsAre(picked);
  }

  lemma DecideStale(c: Check, state: State)
    requires Readable(c) && Stale(c.processes, c.installed.value) != []
    ensures var version := c.installed.value;
            var stale := Stale(c.processes, version);
            stale[0].running.Some?
            && Decide(c, state)
               == if Left(state, version) == 0 then Defer("cap_reached", Pids(stale))
                  else if c.connections > 0 then Defer("active_session", Pids(stale))
                  else if !Waited(c, state, version) then Defer("retry_wait", Pids(stale))
                  else Restart(stale[0].pid, stale[0].running.value, version)
  {
    var stale := Stale(c.processes, c.installed.value);
    assert stale[0] in stale;
    hide Pids, Stale;
  }

  lemma AfterRestart(c: Check, state: State, version: string)
    requires version != "" && (NoneInstalled(c) || c.installed == Some(version))
    ensures var restart := Decide(c, Seen(state, c)).Restart?;
      && (restart ==> Waited(c, Seen(state, c), version) && Left(Seen(state, c), version) > 0)
      && (!restart || !c.written ==> After(state, c) == state)
      && (restart && c.written ==> After(state, c) == Record(Seen(state, c), version, c.recordAt))
  {
    RestartIff(c, Seen(state, c), version);
  }

  // ---------------------------------------------------------------- whole runs

  /** The first check either restarts or leaves the rest of the run as it is. */
  lemma RestartsStep(state: State, run: seq<Check>, version: string)
    requires Stretch(run, version) && run != []
    ensures var rest, c := Restarts(After(state, run[0]), run[1..]), run[0];
      Restarts(state, run) == if Decide(c, Seen(state, c)).Restart? then [c] + rest else rest
    ensures Stretch(run[1..], version)
  {
    hide Decide, After, Stale;
  }

  function Unread(run: seq<Check>): nat {
    if run == [] then 0 else (if run[0].readable then 0 else 1) + Unread(run[1..])
  }

  /** However long the stretch and whatever happens in it: restarts that were recorded number at most three, less
      what the file already counted, and three more for every check that could not read the file. */
  lemma {:induction false} AttemptsAreBounded(state: State, run: seq<Check>, version: string)
    requires Stretch(run, version)
    ensures Written(Restarts(state, run)) <= Left(state, version) + MAX_ATTEMPTS_PER_VERSION * Unread(run)
    decreases |run|
  {
    if run != [] {
      var c, next := run[0], After(state, run[0]);
      var rest := Restarts(next, run[1..]);
      AfterRestart(c, state, version);
      AttemptCounts(c, state, version);
      hide *;
      RestartsStep(state, run, version);
      AttemptsAreBounded(next, run[1..], version);
      WrittenStep(c, rest);
      UnreadStep(run);
    } else {
      assert Restarts(state, run) == [];
    }
  }

  lemma WrittenStep(c: Check, rest: seq<Check>)
    ensures Written([c] + rest) == (if c.written then 1 else 0) + Written(rest)
  {
    assert ([c] + rest)[1..] == rest;
  }

  lemma UnreadStep(run: seq<Check>)
    requires run != []
    ensures Unread(run) == (if run[0].readable then 0 else 1) + Unread(run[1..])
  {
  }

  /** A recorded attempt uses up one that was left, or one of the three that an unreadable file brings back. */
  lemma AttemptCounts(c: Check, state: State, version: string)
    requires version != "" && (NoneInstalled(c) || c.installed == Some(version))
    ensures var restart := Decide(c, Seen(state, c)).Restart?;
      (if restart && c.written then 1 else 0) + Left(After(state, c), version)
        <= Left(state, version) + (if c.readable then 0 else MAX_ATTEMPTS_PER_VERSION)
  {
    AfterRestart(c, state, version);
    hide Decide, After;
  }

  ghost predicate AllRead(run: seq<Check>) {
    forall i :: 0 <= i < |run| ==> run[i].readable
  }

  ghost predicate AllWritten(checks: seq<Check>) {
    forall i :: 0 <= i < |checks| ==> checks[i].written
  }

  lemma {:induction false} WrittenCount(checks: seq<Check>)
    requires AllWritten(checks)
    ensures Written(checks) == |checks|
  {
    if checks != [] {
      WrittenCount(checks[1..]);
    }
  }

  lemma {:induction false} ReadCount(run: seq<Check>)
    requires AllRead(run)
    ensures Unread(run) == 0
  {
    if run != [] {
      ReadCount(run[1..]);
    }
  }

  /** As long as the state file can be read and written, a version is restarted at most three times, less what the
      file already counted. */
  lemma ThreeRestarts(state: State, run: seq<Check>, version: string)
    requires Stretch(run, version) && AllRead(run) && AllWritten(Restarts(state, run))
    ensures |Restarts(state, run)| <= Left(state, version) <= 3
  {
    AttemptsAreBounded(state, run, version);
    WrittenCount(Restarts(state, run));
    ReadCount(run);
  }

  /** With no attempt left and a readable file there is no restart at all, written or not. */
  lemma {:induction false} NoneLeft(state: State, run: seq<Check>, version: string)
    requires Stretch(run, version) && AllRead(run) && Left(state, version) == 0
    ensures Restarts(state, run) == []
    decreases |run|
  {
    if run != [] {
      assert run[0].readable && Seen(state, run[0]) == state;
      AfterRestart(run[0], state, version);
      hide Decide, After, Stale, Left;
      RestartsStep(state, run, version);
      NoneLeft(state, run[1..], version);
    }
  }

  /** No recorded attempt among these. */
  ghost predicate NoneWritten(checks: seq<Check>, from: nat, to: nat) {
    forall k :: from <= k < to && k < |checks| ==> !checks[k].written
  }

  /** Until the next recorded attempt, every restart waits for the spacing since the one in the file. */
  lemma {:induction false} RestartsWait(state: State, run: seq<Check>, version: string, j: nat)
    requires Stretch(run, version) && AllRead(run) && state.version == Some(version) && state.lastAttemptAt.Some?
    requires j < |Restarts(state, run)| && NoneWritten(Restarts(state, run), 0, j)
    ensures Restarts(state, run)[j].decideAt - state.lastAttemptAt.value >= MIN_ATTEMPT_SPACING_MS
    decreases |run|
  {
    ReadTail(state, run);
    hide *;
    var next := After(state, run[0]);
    var all, rest := Restarts(state, run), Restarts(next, run[1..]);
    RestartsStep(state, run, version);
    AfterInStretch(run, state, version);
    if Decide(run[0], state).Restart? {
      if j == 0 {
        WaitedMeans(all[0], state, version);
      } else {
        FirstWritten(all, j);
        WrittenTail(run[0], rest, 0, j);
        RestartsWait(state, run[1..], version, j - 1);
      }
    } else {
      RestartsWait(state, run[1..], version, j);
    }
  }

  lemma ReadTail(state: State, run: seq<Check>)
    requires AllRead(run) && run != []
    ensures AllRead(run[1..]) && Seen(state, run[0]) == state
  {
  }

  lemma AfterInStretch(run: seq<Check>, state: State, version: string)
    requires Stretch(run, version) && run != [] && Seen(state, run[0]) == state
    ensures var c, restart := run[0], Decide(run[0], state).Restart?;
      && (restart ==> Waited(c, state, version))
      && (!restart || !c.written ==> After(state, c) == state)
      && (restart && c.written ==> After(state, c) == Record(state, version, c.recordAt))
  {
    AfterRestart(run[0], state, version);
    hide Decide, After;
  }

  lemma WaitedMeans(c: Check, state: State, version: string)
    requires Waited(c, state, version) && state.version == Some(version) && state.lastAttemptAt.Some?
    ensures c.decideAt - state.lastAttemptAt.value >= MIN_ATTEMPT_SPACING_MS
  {
  }

  lemma FirstWritten(all: seq<Check>, j: nat)
    requires 0 < j && j < |all| && NoneWritten(all, 0, j)
    ensures !all[0].written
  {
  }

  lemma WrittenTail(c: Check, rest: seq<Check>, from: nat, j: nat)
    requires 0 < j && NoneWritten([c] + rest, from, j)
    ensures NoneWritten(rest, if from == 0 then 0 else from - 1, j - 1)
  {
    assert forall k :: 0 <= k < |rest| ==> rest[k] == ([c] + rest)[k + 1];
  }

  /** While the file can be read, a restart comes at least ten minutes after the last recorded one before it. */
  lemma {:induction false} RestartsAreSpaced(state: State, run: seq<Check>, version: string, i: nat, j: nat)
    requires Stretch(run, version) && AllRead(run) && i < j < |Restarts(state, run)|
    requires Restarts(state, run)[i].written && NoneWritten(Restarts(state, run), i + 1, j)
    ensures Restarts(state, run)[j].decideAt - Restarts(state, run)[i].recordAt >= 600_000
    decreases |run|
  {
    ReadTail(state, run);
    hide *;
    var next := After(state, run[0]);
    var rest := Restarts(next, run[1..]);
    RestartsStep(state, run, version);
    AfterInStretch(run, state, version);
    if Decide(run[0], state).Restart? {
      WrittenTail(run[0], rest, i + 1, j);
      if i == 0 {
        Recorded(state, version, run[0].recordAt);
        RestartsWait(next, run[1..], version, j - 1);
      } else {
        RestartsAreSpaced(next, run[1..], version, i - 1, j - 1);
      }
    } else {
      RestartsAreSpaced(next, run[1..], version, i, j);
    }
  }

  lemma Recorded(state: State, version: string, now: int)
    ensures var r := Record(state, version, now); r.version == Some(version) && r.lastAttemptAt == Some(now)
  {
  }

  /** No restart of any run, whatever is installed and whatever the file says, cuts an active session or guesses a
      version. */
  lemma {:induction false} RestartsAreSafe(state: State, run: seq<Check>, c: Check)
    requires c in Restarts(state, run)
    ensures c in run && c.connections <= 0 && c.installed.Some?
    ensures forall p :: p in c.processes ==> p.running.Some?
    ensures exists p :: p in c.processes && p.running != c.installed
    decreases |run|
  {
    if c == run[0] && Decide(c, Seen(state, c)).Restart? {
      RestartIff(c, Seen(state, c), c.installed.value);
    } else {
      RestartsAreSafe(After(state, run[0]), run[1..], c);
    }
  }

  ghost predicate Eager(run: seq<Check>, version: string) {
    && (forall i :: 0 <= i < |run| ==> Eligible(run[i], version) && run[i].readable && run[i].written)
    && (forall i :: 0 <= i < |run| - 1 ==> run[i + 1].decideAt - run[i].recordAt >= MIN_ATTEMPT_SPACING_MS)
  }

  /** The bound is met: while a stale process stays, nothing is active, the file works and checks are ten minutes
      apart, every check restarts until the attempts are used up. */
  lemma {:induction false} AttemptsAreMade(state: State, run: seq<Check>, version: string)
    requires Eager(run, version) && (run != [] ==> Waited(run[0], state, version))
    ensures |Restarts(state, run)| == if |run| <= Left(state, version) then |run| else Left(state, version)
    decreases |run|
  {
    if run != [] {
      assert Eligible(run[0], version) && Seen(state, run[0]) == state;
      RestartIff(run[0], state, version);
      AfterRestart(run[0], state, version);
      hide Decide, After, Stale, Eligible;
      var next, tail := After(state, run[0]), run[1..];
      assert forall i :: 0 <= i < |tail| ==> tail[i] == run[i + 1];
      if Decide(run[0], state).Restart? {
        assert tail != [] ==> run[0 + 1].decideAt - run[0].recordAt >= MIN_ATTEMPT_SPACING_MS;
        AttemptsAreMade(next, tail, version);
      } else {
        EagerIsStretch(tail, version);
        NoneLeft(next, tail, version);
      }
    }
  }

  lemma EagerIsStretch(run: seq<Check>, version: string)
    requires forall i :: 0 <= i < |run| ==> Eligible(run[i], version)
    requires version != ""
    ensures Stretch(run, version)
  {
  }

  /** A state file that cannot be written leaves the number of restarts without bound. */
  lemma {:induction false} UnwrittenIsUnbounded(state: State, c: Check, version: string, n: nat)
    requires Eligible(c, version) && !c.written
    requires Left(Seen(state, c), version) > 0 && Waited(c, Seen(state, c), version)
    ensures |Restarts(state, seq(n, i => c))| == n
  {
    if n > 0 {
      RestartIff(c, Seen(state, c), version);
      AfterRestart(c, state, version);
      hide Decide, After, Stale, Eligible, Waited;
      var run := seq(n, i => c);
      assert run[0] == c && run[1..] == seq(n - 1, i => c);
      UnwrittenIsUnbounded(state, c, version, n - 1);
    }
  }

  /** And so does one that cannot be read, even when every attempt is recorded. */
  lemma {:induction false} UnreadIsUnbounded(state: State, c: Check, version: string, n: nat)
    requires Eligible(c, version) && !c.readable
    ensures |Restarts(state, seq(n, i => c))| == n
    decreases n
  {
    if n > 0 {
      RestartIff(c, Seen(state, c), version);
      hide Decide, After, Stale, Eligible;
      var run := seq(n, i => c);
      assert run[0] == c && run[1..] == seq(n - 1, i => c);
      UnreadIsUnbounded(After(state, c), c, version, n - 1);
    }
  }
}
