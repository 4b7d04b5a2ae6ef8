/** The scheduler as a state machine over values: the processes in list order, which of them is current,
    the next pid, and whether the active terminal has a line ready. */
module ProcessTable {

  datatype State = RUNNING | READY | BLOCKED | WAITING

  datatype Proc = Proc(pid: nat, state: State, waitingFor: nat, terminal: nat)

  /** `cur` is the index of the current process, or -1 before the first switch. */
  datatype Sys = Sys(procs: seq<Proc>, cur: int, nextPid: nat, inputReady: bool, terminal: nat)

  /** `/dummy`, the first process, which only ever jumps to itself. */
  const IDLE: nat := 1

  // --- the list as a ring ------------------------------------------------------------------

  /** One step round the list. */
  function Next(n: nat, i: nat): (j: nat)
    requires i < n
    ensures j < n
  {
    if i + 1 < n then i + 1 else 0
  }

  /** How many steps lead from `i` to `j`, at least one. */
  function Gap(n: nat, i: nat, j: nat): (d: nat)
    requires i < n && j < n
    ensures 1 <= d <= n
  {
    if j > i then j - i else j + n - i
  }

  /** How many steps lead from `i` to `j`, none if they are the same. */
  function Off(n: nat, i: nat, j: nat): (d: nat)
    requires i < n && j < n
    ensures d < n
  {
    if j >= i then j - i else j + n - i
  }

  lemma {:induction false} OffStep(n: nat, i: nat, j: nat)
    requires i < n && j < n
    ensures Off(n, i, Next(n, j)) == if Off(n, i, j) + 1 < n then Off(n, i, j) + 1 else 0
    ensures Off(n, i, j) == 0 <==> i == j
  {
  }

  lemma {:induction false} GapStep(n: nat, i: nat, j: nat)
    requires i < n && j < n
    ensures Gap(n, i, j) == if Next(n, i) == j then 1 else 1 + Gap(n, Next(n, i), j)
  {
  }

  lemma {:induction false} GapSplit(n: nat, i: nat, j: nat, k: nat)
    requires i < n && j < n && k < n && Gap(n, i, j) < Gap(n, i, k)
    ensures Gap(n, j, k) == Gap(n, i, k) - Gap(n, i, j)
  {
  }

  lemma {:induction false} GapInjective(n: nat, i: nat, j: nat, k: nat)
    requires i < n && j < n && k < n && Gap(n, i, j) == Gap(n, i, k)
    ensures j == k
  {
  }

  // --- the steps ---------------------------------------------------------------------------

  function WokenWaiting(p: Proc, pid: nat): Proc {
    if p.state == WAITING && p.waitingFor == pid then p.(state := READY, waitingFor := 0) else p
  }

  function WokenReader(p: Proc, terminal: nat): Proc {
    if p.state == BLOCKED && p.terminal == terminal then p.(state := READY) else p
  }

  /** `wake_up_waiting_processes`. */
  function WakeWaiting(procs: seq<Proc>, pid: nat): (r: seq<Proc>)
    ensures |r| == |procs| && forall i :: 0 <= i < |r| ==> r[i] == WokenWaiting(procs[i], pid)
  {
    seq(|procs|, i requires 0 <= i < |procs| => WokenWaiting(procs[i], pid))
  }

  /** `wake_up_terminal_processes`. */
  function WakeReaders(procs: seq<Proc>, terminal: nat): (r: seq<Proc>)
    ensures |r| == |procs| && forall i :: 0 <= i < |r| ==> r[i] == WokenReader(procs[i], terminal)
  {
    seq(|procs|, i requires 0 <= i < |procs| => WokenReader(procs[i], terminal))
  }

  function SetState(procs: seq<Proc>, i: nat, s: State): (r: seq<Proc>)
    requires i < |procs|
    ensures |r| == |procs|
  {
    procs[i := procs[i].(state := s)]
  }

  function Without(procs: seq<Proc>, i: nat): (r: seq<Proc>)
    requires i < |procs|
    ensures |r| == |procs| - 1
  {
    procs[..i] + procs[i + 1..]
  }

  /** A running process that is switched away from is ready again. */
  function Preempted(s: Sys): (r: seq<Proc>)
    requires -1 <= s.cur < |s.procs|
    ensures |r| == |s.procs|
  {
    if s.cur >= 0 && s.procs[s.cur].state == RUNNING then SetState(s.procs, s.cur, READY) else s.procs
  }

  /** `j` is the first ready process met on the way round from the current one, itself last. */
  ghost predicate FirstReady(procs: seq<Proc>, cur: nat, j: nat)
    requires cur < |procs|
  {
    && j < |procs| && procs[j].state == READY
    && forall k :: 0 <= k < |procs| && procs[k].state == READY ==> Gap(|procs|, cur, j) <= Gap(|procs|, cur, k)
  }

  /** `switch_process`. The first switch of all takes the head, whatever its state. */
  ghost predicate Switched(s: Sys, t: Sys) {
    && -1 <= s.cur < |s.procs| && s.procs != []
    && 0 <= t.cur < |s.procs|
    && (if s.cur == -1 then t.cur == 0 else FirstReady(Preempted(s), s.cur, t.cur))
    && t == s.(procs := SetState(Preempted(s), t.cur, RUNNING), cur := t.cur)
  }

  /** The pid and waiting part of creating a process: the new one is ready at the end of the list, and the
      current one waits for it. A failed creation may have used up a pid. */
  ghost predicate Spawned(s: Sys, t: Sys, ok: bool) {
    && -1 <= s.cur < |s.procs|
    && if ok then
         var child := Proc(s.nextPid, READY, 0, s.terminal);
         var procs := if s.cur == -1 then s.procs
                      else s.procs[s.cur := s.procs[s.cur].(state := WAITING, waitingFor := s.nextPid)];
         t == s.(procs := procs + [child], nextPid := s.nextPid + 1)
       else
         t == s.(nextPid := t.nextPid) && (t.nextPid == s.nextPid || t.nextPid == s.nextPid + 1)
  }

  /** `exit_proc` on the current process: those waiting for it wake up, and the next in the list goes on,
      in whatever state it is. */
  ghost predicate Exited(s: Sys, t: Sys) {
    && 0 <= s.cur < |s.procs| && |s.procs| >= 2
    && t == s.(procs := Without(WakeWaiting(s.procs, s.procs[s.cur].pid), s.cur),
               cur := if s.cur + 1 < |s.procs| then s.cur else 0)
  }

  /** One turn of the loop in `read_terminal_input`: a line that is ready is taken, else the reader blocks. */
  ghost predicate Polled(s: Sys, t: Sys, taken: bool) {
    && 0 <= s.cur < |s.procs|
    && taken == s.inputReady
    && t == if s.inputReady then s.(inputReady := false) else s.(procs := SetState(s.procs, s.cur, BLOCKED))
  }

  /** The newline key. */
  ghost predicate Entered(s: Sys, t: Sys) {
    && 0 <= s.cur < |s.procs|
    && t == s.(inputReady := true, procs := WakeReaders(s.procs, s.terminal))
  }

  // --- going round once --------------------------------------------------------------------

  /** `m` steps round from `cur`, the processes passed are as in `woken`, the others as in `was`. */
  ghost predicate PartWoken(was: seq<Proc>, now: seq<Proc>, woken: seq<Proc>, cur: nat, m: nat) {
    && |was| == |now| == |woken| && cur < |was|
    && forall k :: 0 <= k < |was| ==> now[k] == if Off(|was|, cur, k) < m then woken[k] else was[k]
  }

  lemma {:induction false} WakeOne(was: seq<Proc>, now: seq<Proc>, woken: seq<Proc>, cur: nat, m: nat, at: nat)
    requires PartWoken(was, now, woken, cur, m) && at < |was| && Off(|was|, cur, at) == m
    ensures now[at] == was[at] && PartWoken(was, now[at := woken[at]], woken, cur, m + 1)
  {
  }

  lemma {:induction false} AllWoken(was: seq<Proc>, now: seq<Proc>, woken: seq<Proc>, cur: nat)
    requires PartWoken(was, now, woken, cur, |was|)
    ensures now == woken
  {
  }

  // --- what every step keeps ---------------------------------------------------------------

  ghost predicate Alive(procs: seq<Proc>, pid: nat) {
    exists i :: 0 <= i < |procs| && procs[i].pid == pid
  }

  /** A waiting process waits for a younger one that is still there. */
  ghost predicate WaitsWell(procs: seq<Proc>, i: nat)
    requires i < |procs|
  {
    procs[i].state == WAITING ==> procs[i].waitingFor > procs[i].pid && Alive(procs, procs[i].waitingFor)
  }

  ghost predicate Inv(s: Sys) {
    && -1 <= s.cur < |s.procs| && s.procs != []
    && s.procs[0].pid == IDLE && (s.procs[0].state == READY || s.procs[0].state == RUNNING)
    && (forall i, j :: 0 <= i < j < |s.procs| ==> s.procs[i].pid < s.procs[j].pid)
    && (forall i :: 0 <= i < |s.procs| ==> s.procs[i].pid < s.nextPid && s.procs[i].terminal == s.terminal)
    && (forall i :: 0 <= i < |s.procs| && s.procs[i].state == RUNNING ==> i == s.cur)
    && (forall i {:trigger WaitsWell(s.procs, i)} :: 0 <= i < |s.procs| ==> WaitsWell(s.procs, i))
    && (s.inputReady ==> forall i :: 0 <= i < |s.procs| && s.procs[i].state == BLOCKED ==> s.procs[i].terminal != s.terminal)
  }

  datatype Event = Switch | Spawn(ok: bool) | Exit | Poll(taken: bool) | Enter

  /** The idle process makes no system calls, and nobody else does before the first switch. */
  ghost predicate Step(s: Sys, e: Event, t: Sys) {
    match e
    case Switch => Switched(s, t)
    case Spawn(ok) => 0 < s.cur && Spawned(s, t, ok)
    case Exit => 0 < s.cur && Exited(s, t)
    case Poll(taken) => 0 < s.cur && Polled(s, t, taken)
    case Enter => Entered(s, t)
  }

  lemma {:induction false} SwitchKeeps(s: Sys, t: Sys)
    requires Inv(s) && Switched(s, t)
    ensures Inv(t)
  {
    forall i | 0 <= i < |t.procs|
      ensures WaitsWell(t.procs, i)
    {
      assert WaitsWell(s.procs, i);
      SamePids(s.procs, t.procs);
    }
  }

  lemma {:induction false} SamePids(a: seq<Proc>, b: seq<Proc>)
    requires |a| == |b| && forall i :: 0 <= i < |a| ==> a[i].pid == b[i].pid
    ensures forall pid :: Alive(a, pid) <==> Alive(b, pid)
  {
  }

  lemma {:induction false} SpawnKeeps(s: Sys, t: Sys, ok: bool)
    requires Inv(s) && 0 < s.cur && Spawned(s, t, ok)
    ensures Inv(t)
  {
    forall i | 0 <= i < |t.procs|
      ensures WaitsWell(t.procs, i)
    {
      if i < |s.procs| {
        assert WaitsWell(s.procs, i);
        if i != s.cur && s.procs[i].state == WAITING {
          var j :| 0 <= j < |s.procs| && s.procs[j].pid == s.procs[i].waitingFor;
          assert t.procs[j].pid == s.procs[j].pid;
        } else if ok {
          assert t.procs[|s.procs|].pid == s.nextPid;
        }
      }
    }
  }

  /** The process with index `i` after the exit was the one with index `Old(i)` before. */
  function Old(cur: nat, i: nat): nat {
    if i < cur then i else i + 1
  }

  lemma {:induction false} WithoutAt(procs: seq<Proc>, cur: nat, i: nat)
    requires cur < |procs| && i < |procs| - 1
    ensures Without(procs, cur)[i] == procs[Old(cur, i)]
  {
  }

  lemma {:induction false} ExitedAt(s: Sys, t: Sys, i: nat)
    requires Exited(s, t) && i < |t.procs|
    ensures Old(s.cur, i) < |s.procs| && Old(s.cur, i) != s.cur
    ensures t.procs[i] == WokenWaiting(s.procs[Old(s.cur, i)], s.procs[s.cur].pid)
  {
    WithoutAt(WakeWaiting(s.procs, s.procs[s.cur].pid), s.cur, i);
  }

  lemma {:induction false} AliveAfterExit(s: Sys, t: Sys, j: nat)
    requires Exited(s, t) && j < |s.procs| && j != s.cur
    ensures Alive(t.procs, s.procs[j].pid)
  {
    var k := if j < s.cur then j else j - 1;
    ExitedAt(s, t, k);
    assert t.procs[k].pid == s.procs[j].pid;
  }

  lemma {:induction false} ExitWaits(s: Sys, t: Sys, i: nat)
    requires Inv(s) && 0 < s.cur && Exited(s, t) && i < |t.procs|
    ensures WaitsWell(t.procs, i)
  {
    ExitedAt(s, t, i);
    assert WaitsWell(s.procs, Old(s.cur, i));
    if t.procs[i].state == WAITING {
      var j :| 0 <= j < |s.procs| && s.procs[j].pid == t.procs[i].waitingFor;
      AliveAfterExit(s, t, j);
    }
  }

  lemma {:induction false} ExitKeeps(s: Sys, t: Sys)
    requires Inv(s) && 0 < s.cur && Exited(s, t)
    ensures Inv(t)
  {
    hide Exited, WaitsWell;
    ExitSizes(s, t);
    forall i | 0 <= i < |t.procs|
      ensures t.procs[i] == WokenWaiting(s.procs[Old(s.cur, i)], s.procs[s.cur].pid)
      ensures WaitsWell(t.procs, i)
    {
      ExitedAt(s, t, i);
      ExitWaits(s, t, i);
    }
  }

  lemma {:induction false} ExitSizes(s: Sys, t: Sys)
    requires Exited(s, t)
    ensures |t.procs| == |s.procs| - 1 && t == s.(procs := t.procs, cur := t.cur)
    ensures t.cur == if s.cur + 1 < |s.procs| then s.cur else 0
    ensures |s.procs| >= 2
  {
  }

  lemma {:induction false} PollKeeps(s: Sys, t: Sys, taken: bool)
    requires Inv(s) && 0 < s.cur && Polled(s, t, taken)
    ensures Inv(t)
  {
    forall i | 0 <= i < |t.procs|
      ensures WaitsWell(t.procs, i)
    {
      assert WaitsWell(s.procs, i);
      SamePids(s.procs, t.procs);
    }
  }

  lemma {:induction false} EnterKeeps(s: Sys, t: Sys)
    requires Inv(s) && Entered(s, t)
    ensures Inv(t)
  {
    forall i | 0 <= i < |t.procs|
      ensures WaitsWell(t.procs, i)
    {
      assert WaitsWell(s.procs, i);
      SamePids(s.procs, t.procs);
    }
  }

  lemma {:induction false} StepKeeps(s: Sys, e: Event, t: Sys)
    requires Inv(s) && Step(s, e, t)
    ensures Inv(t)
  {
    match e
    case Switch => SwitchKeeps(s, t);
    case Spawn(ok) => SpawnKeeps(s, t, ok);
    case Exit => ExitKeeps(s, t);
    case Poll(taken) => PollKeeps(s, t, taken);
    case Enter => EnterKeeps(s, t);
  }

  // --- whole runs --------------------------------------------------------------------------

  /** The state `kmain` leaves: the idle process and the first program, nobody running yet. */
  function Boot(terminal: nat): Sys {
    Sys([Proc(IDLE, READY, 0, terminal), Proc(IDLE + 1, READY, 0, terminal)], -1, IDLE + 2, false, terminal)
  }

  lemma {:induction false} BootIsSpawned(terminal: nat) returns (s: Sys)
    ensures Spawned(Sys([], -1, IDLE, false, terminal), s, true) && Spawned(s, Boot(terminal), true)
    ensures Inv(Boot(terminal))
  {
    s := Sys([Proc(IDLE, READY, 0, terminal)], -1, IDLE + 1, false, terminal);
    assert Boot(terminal).procs == s.procs + [Proc(IDLE + 1, READY, 0, terminal)];
  }

  ghost predicate Run(states: seq<Sys>, events: seq<Event>) {
    && |states| == |events| + 1
    && forall i {:trigger events[i]} :: 0 <= i < |events| ==> Step(states[i], events[i], states[i + 1])
  }

  lemma {:induction false} RunKeeps(states: seq<Sys>, events: seq<Event>, i: nat)
    requires Run(states, events) && Inv(states[0]) && i < |states|
    ensures Inv(states[i])
  {
    if i > 0 {
      RunKeeps(states, events, i - 1);
      StepKeeps(states[i - 1], events[i - 1], states[i]);
    }
  }

  /** No lost wake-up: while a line is ready, nobody is blocked. */
  lemma {:induction false} NobodyBlockedOnReadyInput(states: seq<Sys>, events: seq<Event>, i: nat, k: nat)
    requires Run(states, events) && Inv(states[0]) && i < |states| && k < |states[i].procs|
    ensures states[i].inputReady ==> states[i].procs[k].state != BLOCKED
  {
    RunKeeps(states, events, i);
  }

  // --- waiting -----------------------------------------------------------------------------

  /** Wait-for chains end: following them from process `i` leads to a live process that waits for nobody. */
  ghost function WaitEnd(s: Sys, i: nat): (j: nat)
    requires Inv(s) && i < |s.procs|
    ensures i <= j < |s.procs| && s.procs[j].state != WAITING
    decreases |s.procs| - i
  {
    if s.procs[i].state != WAITING then i
    else
      assert WaitsWell(s.procs, i);
      var j :| 0 <= j < |s.procs| && s.procs[j].pid == s.procs[i].waitingFor;
      assert j > i;
      WaitEnd(s, j)
  }

  /** An exit wakes exactly those who wait for the process that exits, leaves all others as they were, and
      leaves nobody waiting for it. */
  lemma {:induction false} ExitWakesWaiters(s: Sys, t: Sys, i: nat)
    requires Inv(s) && 0 < s.cur && Exited(s, t) && i < |t.procs|
    ensures var (was, gone) := (s.procs[Old(s.cur, i)], s.procs[s.cur].pid);
            && t.procs[i].pid == was.pid
            && (was.state == WAITING && was.waitingFor == gone ==> t.procs[i].state == READY)
            && (!(was.state == WAITING && was.waitingFor == gone) ==> t.procs[i] == was)
            && (t.procs[i].state == WAITING ==> t.procs[i].waitingFor != gone)
            && !Alive(t.procs, gone)
  {
    ExitedAt(s, t, i);
    forall k | 0 <= k < |t.procs|
      ensures t.procs[k].pid != s.procs[s.cur].pid
    {
      ExitedAt(s, t, k);
    }
  }

  // --- dispatching -------------------------------------------------------------------------

  lemma {:induction false} NearestReady(procs: seq<Proc>, cur: nat, d: nat) returns (j: nat)
    requires cur < |procs| && d <= |procs|
    requires exists k :: 0 <= k < |procs| && procs[k].state == READY && Gap(|procs|, cur, k) <= d
    ensures FirstReady(procs, cur, j)
    decreases d
  {
    if k :| 0 <= k < |procs| && procs[k].state == READY && Gap(|procs|, cur, k) <= d - 1 {
      j := NearestReady(procs, cur, d - 1);
    } else {
      j :| 0 <= j < |procs| && procs[j].state == READY && Gap(|procs|, cur, j) <= d;
    }
  }

  /** The idle process is always fit to be switched to: the scan ends. */
  lemma {:induction false} IdleIsReady(s: Sys)
    requires Inv(s)
    ensures s.procs != [] && (s.cur >= 0 ==> Preempted(s)[0].state == READY)
  {
  }

  /** There is always someone to switch to. */
  lemma {:induction false} SwitchFindsSomeone(s: Sys) returns (t: Sys)
    requires Inv(s)
    ensures Switched(s, t)
  {
    var j := 0;
    if s.cur >= 0 {
      IdleIsReady(s);
      assert Gap(|s.procs|, s.cur, 0) <= |s.procs|;
      j := NearestReady(Preempted(s), s.cur, |s.procs|);
    }
    t := s.(procs := SetState(Preempted(s), j, RUNNING), cur := j);
  }

  /** And it is determined. */
  lemma {:induction false} SwitchIsDetermined(s: Sys, t: Sys, u: Sys)
    requires Switched(s, t) && Switched(s, u)
    ensures t == u
  {
    if s.cur >= 0 {
      GapInjective(|s.procs|, s.cur, t.cur, u.cur);
    }
  }

  /** Process `pid` is ready at index `i`, not current, and `d` steps ahead. */
  ghost predicate Ahead(s: Sys, pid: nat, i: nat, d: nat) {
    && 0 <= s.cur < |s.procs| && i < |s.procs| && i != s.cur
    && s.procs[i].pid == pid && s.procs[i].state == READY && Gap(|s.procs|, s.cur, i) == d
  }

  ghost predicate Dispatched(s: Sys, pid: nat) {
    0 <= s.cur < |s.procs| && s.procs[s.cur].pid == pid
  }

  function Dispatch(e: Event): nat { if e.Switch? || e.Exit? then 1 else 0 }

  function Birth(e: Event): nat { if e == Spawn(true) then 1 else 0 }

  lemma {:induction false} SwitchAhead(s: Sys, t: Sys, pid: nat, i: nat, d: nat)
    requires Inv(s) && Switched(s, t) && Ahead(s, pid, i, d) && !Dispatched(t, pid)
    ensures exists c: nat :: c < d && Ahead(t, pid, i, c)
  {
    var n := |s.procs|;
    assert Preempted(s)[i].state == READY;
    assert Gap(n, s.cur, t.cur) <= d && t.cur != i;
    if Gap(n, s.cur, t.cur) == d {
      GapInjective(n, s.cur, t.cur, i);
    } else {
      GapSplit(n, s.cur, t.cur, i);
    }
    assert Ahead(t, pid, i, Gap(n, t.cur, i));
  }

  lemma {:induction false} ExitAhead(s: Sys, t: Sys, pid: nat, i: nat, d: nat)
    requires Inv(s) && 0 < s.cur && Exited(s, t) && Ahead(s, pid, i, d) && !Dispatched(t, pid)
    ensures exists k: nat, c: nat :: c < d && Ahead(t, pid, k, c)
  {
    var k := if i < s.cur then i else i - 1;
    ExitedAt(s, t, k);
    assert Old(s.cur, k) == i;
    assert Ahead(t, pid, k, Gap(|t.procs|, t.cur, k));
  }

  /** A dispatch brings a ready process at least one step nearer, a new process puts it back by at most one. */
  lemma {:induction false} StepAhead(s: Sys, e: Event, t: Sys, pid: nat, i: nat, d: nat)
    requires Inv(s) && Step(s, e, t) && Ahead(s, pid, i, d) && !Dispatched(t, pid)
    ensures exists k: nat, c: nat :: c + Dispatch(e) <= d + Birth(e) && Ahead(t, pid, k, c)
  {
    match e
    case Switch => SwitchAhead(s, t, pid, i, d);
    case Exit => ExitAhead(s, t, pid, i, d);
    case Spawn(ok) => assert Ahead(t, pid, i, Gap(|t.procs|, t.cur, i));
    case Poll(taken) => assert Ahead(t, pid, i, d);
    case Enter => assert Ahead(t, pid, i, d);
  }

  function Dispatches(events: seq<Event>): nat {
    if events == [] then 0 else Dispatches(events[..|events| - 1]) + Dispatch(events[|events| - 1])
  }

  function Births(events: seq<Event>): nat {
    if events == [] then 0 else Births(events[..|events| - 1]) + Birth(events[|events| - 1])
  }

  lemma {:induction false} RunAhead(states: seq<Sys>, events: seq<Event>, pid: nat, i: nat, d: nat)
    returns (k: nat, c: nat)
    requires Run(states, events) && Inv(states[0]) && Ahead(states[0], pid, i, d)
    requires forall m :: 1 <= m < |states| ==> !Dispatched(states[m], pid)
    ensures c + Dispatches(events) <= d + Births(events) && Ahead(states[|events|], pid, k, c)
  {
    if events == [] {
      k, c := i, d;
    } else {
      var n := |events| - 1;
      var before, past := states[..|events|], events[..n];
      assert Run(before, past);
      var j, b := RunAhead(before, past, pid, i, d);
      RunKeeps(states, events, n);
      StepAhead(states[n], events[n], states[n + 1], pid, j, b);
      k, c :| c + Dispatch(events[n]) <= b + Birth(events[n]) && Ahead(states[n + 1], pid, k, c);
    }
  }

  /** A ready process `d` steps ahead becomes current within `d` dispatches and one more for every process
      created meanwhile, even though an exit hands over without looking at the next one's state. */
  lemma {:induction false} DispatchedInTime(states: seq<Sys>, events: seq<Event>, pid: nat, i: nat, d: nat)
    requires Run(states, events) && Inv(states[0]) && Ahead(states[0], pid, i, d)
    requires Dispatches(events) >= d + Births(events)
    ensures exists m :: 1 <= m < |states| && Dispatched(states[m], pid)
  {
    if forall m :: 1 <= m < |states| ==> !Dispatched(states[m], pid) {
      var k, c := RunAhead(states, events, pid, i, d);
    }
  }

  // --- reading lines -----------------------------------------------------------------------

  /** A newline has come before event `j`, and nobody has polled since. */
  ghost predicate NewlineWaits(events: seq<Event>, j: nat) {
    exists i :: 0 <= i < j && i < |events| && events[i].Enter? && NoPoll(events, i + 1, j)
  }

  ghost predicate NoPoll(events: seq<Event>, i: nat, j: nat) {
    forall m :: i <= m < j && m < |events| ==> !events[m].Poll?
  }

  lemma {:induction false} ReadyIfWaiting(states: seq<Sys>, events: seq<Event>, j: nat)
    requires Run(states, events) && j < |states|
    ensures states[j].inputReady <==> NewlineWaits(events, j) || (states[0].inputReady && NoPoll(events, 0, j))
  {
    if j > 0 {
      ReadyIfWaiting(states, events, j - 1);
      assert Step(states[j - 1], events[j - 1], states[j]);
      if i :| 0 <= i < j - 1 && events[i].Enter? && NoPoll(events, i + 1, j - 1) && !events[j - 1].Poll? {
        assert NoPoll(events, i + 1, j);
      }
      assert events[j - 1].Enter? ==> NoPoll(events, j, j);
      forall i | 0 <= i < j - 1 && events[i].Enter? && NoPoll(events, i + 1, j)
        ensures NewlineWaits(events, j - 1)
      {
        assert NoPoll(events, i + 1, j - 1);
      }
    }
  }

  /** A poll takes a line if and only if a newline has come since the poll before: the first poll after a newline
      always does, and no line is taken twice. */
  lemma {:induction false} PollTakes(states: seq<Sys>, events: seq<Event>, j: nat)
    requires Run(states, events) && !states[0].inputReady && j < |events| && events[j].Poll?
    ensures events[j].taken <==> NewlineWaits(events, j)
  {
    ReadyIfWaiting(states, events, j);
    assert Step(states[j], events[j], states[j + 1]);
  }

  lemma {:induction false} RunFrom(states: seq<Sys>, events: seq<Event>, i: nat)
    requires Run(states, events) && i <= |events|
    ensures Run(states[i..], events[i..])
  {
    forall m | 0 <= m < |events[i..]|
      ensures Step(states[i..][m], events[i..][m], states[i..][m + 1])
    {
      assert Step(states[i + m], events[i + m], states[i + m + 1]);
    }
  }

  /** A newline does not pass a reader by: whoever is blocked when it comes is ready then, is current within as many
      dispatches as it is steps ahead and one more for every process created meanwhile, and every poll from the newline
      on takes the line, unless an earlier one has. */
  lemma {:induction false} ReaderIsServed(states: seq<Sys>, events: seq<Event>, k: nat)
    requires Run(states, events) && Inv(states[0]) && events != [] && events[0].Enter?
    requires k < |states[0].procs| && states[0].procs[k].state == BLOCKED
    requires Dispatches(events[1..]) >= Gap(|states[0].procs|, states[0].cur, k) + Births(events[1..])
    ensures |states[1].procs| == |states[0].procs| && states[1].procs[k] == states[0].procs[k].(state := READY)
    ensures exists m :: 1 <= m < |states| && Dispatched(states[m], states[0].procs[k].pid)
    ensures forall j :: 1 <= j < |events| && events[j].Poll? ==>
              events[j].taken || exists q :: 1 <= q < j && events[q] == Poll(true)
  {
    var s, t, pid := states[0], states[1], states[0].procs[k].pid;
    assert Step(s, events[0], t);
    if k == s.cur {
      assert Dispatched(states[1], pid);
    } else {
      RunFrom(states, events, 1);
      StepKeeps(s, events[0], t);
      DispatchedInTime(states[1..], events[1..], pid, k, Gap(|s.procs|, s.cur, k));
      var m :| 1 <= m < |states[1..]| && Dispatched(states[1..][m], pid);
      assert Dispatched(states[m + 1], pid);
    }
    forall j | 1 <= j < |events| && events[j].Poll?
      ensures events[j].taken || exists q :: 1 <= q < j && events[q] == Poll(true)
    {
      FirstPollTakes(states, events, j);
    }
  }

  lemma {:induction false} FirstPollTakes(states: seq<Sys>, events: seq<Event>, j: nat)
    requires Run(states, events) && events != [] && events[0].Enter? && 1 <= j < |events| && events[j].Poll?
    ensures events[j].taken || exists q :: 1 <= q < j && events[q] == Poll(true)
    decreases j
  {
    ReadyIfWaiting(states, events, j);
    assert Step(states[j], events[j], states[j + 1]);
    if NoPoll(events, 1, j) {
      assert NewlineWaits(events, j);
    } else {
      var q :| 1 <= q < j && events[q].Poll?;
      FirstPollTakes(states, events, q);
    }
  }

  /** Process `pid` is blocked. */
  ghost predicate BlockedNow(s: Sys, pid: nat) {
    exists i :: 0 <= i < |s.procs| && s.procs[i].pid == pid && s.procs[i].state == BLOCKED
  }

  lemma {:induction false} StepBlocked(s: Sys, e: Event, t: Sys, pid: nat)
    requires Inv(s) && Step(s, e, t) && BlockedNow(s, pid) && !CallBy(s, e, pid) && !e.Enter? && s.cur >= 0
    ensures t.cur >= 0 && BlockedNow(t, pid) && !(e.Switch? && Dispatched(t, pid))
  {
    var i :| 0 <= i < |s.procs| && s.procs[i].pid == pid && s.procs[i].state == BLOCKED;
    if e.Exit? {
      var k := if i < s.cur then i else i - 1;
      ExitedAt(s, t, k);
      assert Old(s.cur, k) == i;
      assert t.procs[k].pid == pid && t.procs[k].state == BLOCKED;
    } else {
      assert t.procs[i].pid == pid && t.procs[i].state == BLOCKED;
    }
  }

  /** A reader that finds no line does not go on: until a newline comes, and unless it makes a call because an exit handed
      over to it, it stays blocked and no switch goes to it. */
  lemma {:induction false} ReaderBlocks(states: seq<Sys>, events: seq<Event>, pid: nat, n: nat)
    requires Run(states, events) && Inv(states[0]) && 1 <= n <= |events|
    requires events[0] == Poll(false) && Dispatched(states[0], pid)
    requires forall m :: 1 <= m < n ==> !CallBy(states[m], events[m], pid)
    requires forall m {:trigger events[m]} :: 1 <= m < n ==> !events[m].Enter?
    ensures states[n].cur >= 0 && BlockedNow(states[n], pid)
    ensures n > 1 && events[n - 1].Switch? ==> !Dispatched(states[n], pid)
  {
    if n == 1 {
      assert Step(states[0], events[0], states[1]);
      assert states[1].procs[states[0].cur].state == BLOCKED;
    } else {
      ReaderBlocks(states, events, pid, n - 1);
      RunKeeps(states, events, n - 1);
      assert !CallBy(states[n - 1], events[n - 1], pid) && !events[n - 1].Enter?;
      StepBlocked(states[n - 1], events[n - 1], states[n], pid);
    }
  }

  // --- waiting for a child -----------------------------------------------------------------

  /** Process `pid` waits for `child`. */
  ghost predicate WaitsFor(s: Sys, pid: nat, child: nat) {
    exists i :: 0 <= i < |s.procs| && s.procs[i] == Proc(pid, WAITING, child, s.procs[i].terminal)
  }

  /** A system call made by the process. */
  ghost predicate CallBy(s: Sys, e: Event, pid: nat) {
    (e.Spawn? || e.Exit? || e.Poll?) && Dispatched(s, pid)
  }

  lemma {:induction false} StepWaits(s: Sys, e: Event, t: Sys, pid: nat, child: nat)
    requires Inv(s) && Step(s, e, t) && WaitsFor(s, pid, child) && !CallBy(s, e, pid) && s.cur >= 0
    ensures t.cur >= 0 && !(e.Switch? && Dispatched(t, pid))
    ensures if e.Exit? && Dispatched(s, child) then ReadyNow(t, pid) else WaitsFor(t, pid, child)
  {
    var i :| 0 <= i < |s.procs| && s.procs[i] == Proc(pid, WAITING, child, s.procs[i].terminal);
    if e.Exit? {
      var k := if i < s.cur then i else i - 1;
      ExitedAt(s, t, k);
      assert Old(s.cur, k) == i;
      assert s.procs[s.cur].pid == child ==> t.procs[k].pid == pid && t.procs[k].state == READY;
      assert s.procs[s.cur].pid != child ==> t.procs[k] == Proc(pid, WAITING, child, t.procs[k].terminal);
    } else {
      assert t.procs[i] == Proc(pid, WAITING, child, t.procs[i].terminal);
    }
  }

  ghost predicate ReadyNow(s: Sys, pid: nat) {
    exists i :: 0 <= i < |s.procs| && s.procs[i].pid == pid && s.procs[i].state == READY
  }

  /** Who creates a process waits for it: as long as the child has not exited, and the parent has made no call meanwhile
      because an exit handed over to it, it goes on waiting and no switch goes to it; when the child exits,
      it is ready. */
  lemma {:induction false} ParentWaits(states: seq<Sys>, events: seq<Event>, pid: nat, child: nat, n: nat)
    requires Run(states, events) && Inv(states[0]) && 1 <= n <= |events|
    requires events[0] == Spawn(true) && Dispatched(states[0], pid) && child == states[0].nextPid
    requires forall m :: 1 <= m < n ==> !CallBy(states[m], events[m], pid)
    requires forall m {:trigger events[m]} :: 1 <= m < n - 1 ==> !(events[m].Exit? && Dispatched(states[m], child))
    ensures states[n].cur >= 0
    ensures if n > 1 && events[n - 1].Exit? && Dispatched(states[n - 1], child) then ReadyNow(states[n], pid)
            else WaitsFor(states[n], pid, child)
    ensures n > 1 && events[n - 1].Switch? ==> !Dispatched(states[n], pid)
  {
    if n == 1 {
      var s, t := states[0], states[1];
      assert Step(s, events[0], t);
      assert t.procs[s.cur] == Proc(pid, WAITING, child, t.procs[s.cur].terminal);
    } else {
      ParentWaits(states, events, pid, child, n - 1);
      RunKeeps(states, events, n - 1);
      assert !CallBy(states[n - 1], events[n - 1], pid);
      assert n > 2 ==> !(events[n - 2].Exit? && Dispatched(states[n - 2], child));
      StepWaits(states[n - 1], events[n - 1], states[n], pid, child);
    }
  }
}
