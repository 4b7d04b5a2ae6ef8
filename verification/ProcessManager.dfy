/** process_manager.c: the doubly linked list of processes and the operations on it. */
module ProcessManager {
  import opened ProcessTable

  class ProcNode {
    var pid: nat
    var state: State
    var waitingFor: nat
    var terminal: nat
    var next: ProcNode?
    var prev: ProcNode?

    constructor (pid: nat, terminal: nat)
      ensures Value() == Proc(pid, READY, 0, terminal) && next == null && prev == null
    {
      this.pid, state, waitingFor, this.terminal, next, prev := pid, READY, 0, terminal, null, null;
    }

    function Value(): Proc
      reads this
    {
      Proc(pid, state, waitingFor, terminal)
    }
  }

  class Manager {
    var head: ProcNode?
    var tail: ProcNode?
    var current: ProcNode?
    var nextPid: nat
    /** The nodes in list order, and the index of the current one or -1. */
    ghost var list: seq<ProcNode>
    ghost var cur: int

    constructor ()
      ensures Valid() && list == [] && cur == -1 && nextPid == 1
    {
      head, tail, current, nextPid, list, cur := null, null, null, 1, [], -1;
    }

    /** The node at `i`, or null outside the list. */
    static ghost function Nth(nodes: seq<ProcNode>, i: int): ProcNode? {
      if 0 <= i < |nodes| then nodes[i] else null
    }

    static ghost predicate LinkOk(nodes: seq<ProcNode>, i: nat)
      requires i < |nodes|
      reads nodes[i]
    {
      nodes[i].next == Nth(nodes, i + 1) && nodes[i].prev == Nth(nodes, i - 1)
    }

    static ghost predicate Distinct(nodes: seq<ProcNode>) {
      forall i, j :: 0 <= i < j < |nodes| ==> nodes[i] != nodes[j]
    }

    /** Well linked: next and prev are inverse, head and tail are the ends. */
    ghost predicate ListOk()
      reads this`head, this`tail, this`list, list
    {
      && Distinct(list) && head == Nth(list, 0) && tail == Nth(list, |list| - 1)
      && (forall i {:trigger LinkOk(list, i)} :: 0 <= i < |list| ==> LinkOk(list, i))
    }

    ghost predicate Valid()
      reads this, list
    {
      && ListOk() && -1 <= cur < |list|
      && current == Nth(list, cur)
    }

    ghost function Procs(): (r: seq<Proc>)
      reads this`list, list
      ensures |r| == |list|
      ensures forall i :: 0 <= i < |list| ==> r[i] == list[i].Value()
    {
      Values(list)
    }

    static ghost function Values(nodes: seq<ProcNode>): (r: seq<Proc>)
      reads nodes
      ensures |r| == |nodes|
      ensures forall i :: 0 <= i < |nodes| ==> r[i] == nodes[i].Value()
    {
      if nodes == [] then [] else Values(nodes[..|nodes| - 1]) + [nodes[|nodes| - 1].Value()]
    }

    static lemma {:induction false} DistinctMore(was: seq<ProcNode>, node: ProcNode)
      requires Distinct(was) && node !in was
      ensures Distinct(was + [node])
    {
    }

    static lemma {:induction false} ValuesMore(was: seq<ProcNode>, node: ProcNode, values: seq<Proc>)
      requires |values| == |was| && forall i :: 0 <= i < |was| ==> was[i].Value() == values[i]
      ensures Values(was + [node]) == values + [node.Value()]
    {
    }

    /** `add_to_linked_list`. */
    method AddToList(node: ProcNode)
      requires Valid() && node !in list
      modifies this`head, this`tail, this`list, node`next, node`prev, list`next
      ensures Valid() && list == old(list) + [node]
      ensures Procs() == old(Procs()) + [old(node.Value())]
    {
      hide Distinct, Values;
      ghost var was, n, values := list, |list|, Procs();
      assert n > 0 ==> list[n - 1] in list && LinkOk(list, n - 1);
      node.next := null;
      node.prev := null;
      if head == null {
        head := node;
        tail := node;
      } else {
        tail.next := node;
        node.prev := tail;
        tail := node;
      }
      list := list + [node];
      forall i | 0 <= i < |list|
        ensures LinkOk(list, i)
      {
        if i < n {
          assert list[i] == was[i] && was[i] in was && old(LinkOk(was, i));
        }
      }
      DistinctMore(was, node);
      ValuesMore(was, node, values);
    }

    /** The links of node `j` lead past node `i`. */
    static ghost predicate SkipsOk(nodes: seq<ProcNode>, i: nat, j: nat)
      requires j < |nodes|
      reads nodes[j]
    {
      && nodes[j].next == Nth(nodes, if j + 1 == i then i + 1 else j + 1)
      && nodes[j].prev == Nth(nodes, if j == i + 1 then i - 1 else j - 1)
    }

    static lemma {:induction false} WithoutNode(was: seq<ProcNode>, i: nat, now: seq<ProcNode>)
      requires Distinct(was) && i < |was| && now == was[..i] + was[i + 1..]
      ensures |now| == |was| - 1 && Distinct(now)
      ensures Nth(now, 0) == Nth(was, if i == 0 then 1 else 0)
      ensures Nth(now, |now| - 1) == Nth(was, if i == |was| - 1 then i - 1 else |was| - 1)
    {
      assert forall j :: 0 <= j < |now| ==> now[j] == was[Old(i, j)];
    }

    static lemma {:induction false} NodesWithout(was: seq<ProcNode>, i: nat, now: seq<ProcNode>, values: seq<Proc>)
      requires i < |was| && now == was[..i] + was[i + 1..]
      requires |values| == |was| && forall j :: 0 <= j < |was| && j != i ==> was[j].Value() == values[j]
      ensures Values(now) == Without(values, i)
    {
      assert forall j :: 0 <= j < |now| ==> now[j] == was[Old(i, j)];
    }

    static lemma {:induction false} SkipsLink(was: seq<ProcNode>, i: nat, now: seq<ProcNode>, j: nat)
      requires i < |was| && now == was[..i] + was[i + 1..] && j < |now| && SkipsOk(was, i, Old(i, j))
      ensures LinkOk(now, j)
    {
    }

    /** The stores of `remove_from_linked_list`. */
    method Unlink(node: ProcNode, ghost i: nat)
      requires ListOk() && i < |list| && list[i] == node
      modifies this`head, this`tail, list`next, list`prev
      ensures head == Nth(list, if i == 0 then 1 else 0)
      ensures tail == Nth(list, if i == |list| - 1 then i - 1 else |list| - 1)
      ensures forall j {:trigger SkipsOk(list, i, j)} :: 0 <= j < |list| && j != i ==> SkipsOk(list, i, j)
    {
      assert LinkOk(list, i);
      assert node == head <==> i == 0;
      assert node == tail <==> i == |list| - 1;
      assert i > 0 ==> list[i - 1] in list && LinkOk(list, i - 1);
      assert i + 1 < |list| ==> list[i + 1] in list && LinkOk(list, i + 1);
      if node == head {
        head := node.next;
      }
      if node == tail {
        tail := node.prev;
      }
      if node.prev != null {
        node.prev.next := node.next;
      }
      if node.next != null {
        node.next.prev := node.prev;
      }
      forall j | 0 <= j < |list| && j != i
        ensures SkipsOk(list, i, j)
      {
        assert list[j] in list && old(LinkOk(list, j));
      }
    }

    /** `remove_from_linked_list`, of a node that is not the current one. */
    method RemoveFromList(node: ProcNode, ghost i: nat)
      requires Valid() && i < |list| && list[i] == node && i != cur
      modifies this`head, this`tail, this`list, this`cur, list`next, list`prev
      ensures Valid() && list == old(list[..i] + list[i + 1..])
      ensures cur == if old(cur) > i then old(cur) - 1 else old(cur)
      ensures Procs() == Without(old(Procs()), i)
    {
      hide Distinct, SkipsOk, Values;
      ghost var was, values := list, Procs();
      Unlink(node, i);
      list := list[..i] + list[i + 1..];
      cur := if cur > i then cur - 1 else cur;
      WithoutNode(was, i, list);
      NodesWithout(was, i, list, values);
      forall j | 0 <= j < |list|
        ensures LinkOk(list, j)
      {
        assert SkipsOk(was, i, Old(i, j));
        SkipsLink(was, i, list, j);
      }
    }

    /** The state the step relation speaks of. */
    ghost function View(inputReady: bool, terminal: nat): Sys
      reads this, list
    {
      Sys(Procs(), cur, nextPid, inputReady, terminal)
    }

    /** The node behind `node` on the way round. */
    method Successor(node: ProcNode, ghost i: nat) returns (next: ProcNode)
      requires ListOk() && i < |list| && list[i] == node
      ensures next == list[Next(|list|, i)]
    {
      assert LinkOk(list, i);
      if node.next != null {
        next := node.next;
      } else {
        next := head;
      }
    }

    /** Round the list, from the current node on: `at` is the next to visit and `m` have been visited. */
    ghost predicate Rounding(m: nat, at: nat)
      reads this, list
    {
      && ListOk() && 0 <= cur < |list| && current == list[cur]
      && at < |list| && m <= |list|
      && if m < |list| then Off(|list|, cur, at) == m else at == cur
    }

    /** Node `k` was visited `Off` steps from the current one. */
    static ghost predicate VisitedInOrder(nodes: seq<ProcNode>, cur: nat, visited: seq<ProcNode>) {
      && cur < |nodes| && |visited| <= |nodes|
      && forall k :: 0 <= k < |nodes| && Off(|nodes|, cur, k) < |visited| ==> visited[Off(|nodes|, cur, k)] == nodes[k]
    }

    static lemma {:induction false} RoundStart(nodes: seq<ProcNode>, was: seq<Proc>, woken: seq<Proc>, cur: nat)
      requires cur < |nodes| == |was| == |woken|
      ensures VisitedInOrder(nodes, cur, []) && PartWoken(was, was, woken, cur, 0)
    {
    }

    static lemma {:induction false} VisitNext(nodes: seq<ProcNode>, cur: nat, visited: seq<ProcNode>, at: nat)
      requires VisitedInOrder(nodes, cur, visited) && at < |nodes| && Off(|nodes|, cur, at) == |visited|
      ensures VisitedInOrder(nodes, cur, visited + [nodes[at]])
    {
    }

    lemma {:induction false} RoundBegin()
      requires Valid() && cur >= 0
      ensures Rounding(0, cur) && current == list[cur]
    {
      OffStep(|list|, cur, cur);
    }

    lemma {:induction false} RoundNext(m: nat, at: nat)
      requires Rounding(m, at) && m < |list|
      ensures Rounding(m + 1, Next(|list|, at))
    {
      OffStep(|list|, cur, at);
      OffStep(|list|, cur, Next(|list|, at));
    }

    /** Back at the current node, after at least one step, every node has been visited. */
    lemma {:induction false} RoundDone(m: nat, at: nat)
      requires Rounding(m, at) && m > 0 && list[at] == current
      ensures m == |list| && Valid()
    {
      OffStep(|list|, cur, at);
    }

    lemma {:induction false} WakeHere(was: seq<Proc>, woken: seq<Proc>, m: nat, at: nat)
      requires Rounding(m, at) && m < |list| && PartWoken(was, Procs(), woken, cur, m)
      ensures |woken| == |was| == |list| && Procs()[at] == was[at]
      ensures PartWoken(was, Procs()[at := woken[at]], woken, cur, m + 1)
    {
      WakeOne(was, Procs(), woken, cur, m, at);
    }

    /** Before it is back at the current node, somebody is left to visit. */
    lemma {:induction false} NotDone(m: nat, at: nat)
      requires Rounding(m, at) && (m == 0 || list[at] != current)
      ensures m < |list|
    {
    }

    /** The step to the next node, shared by both loops. */
    method GoOn(node: ProcNode, ghost visited: seq<ProcNode>, ghost at: nat)
      returns (next: ProcNode, ghost seen: seq<ProcNode>, ghost behind: nat)
      requires Rounding(|visited|, at) && |visited| < |list| && node == list[at] && VisitedInOrder(list, cur, visited)
      ensures seen == visited + [node] && Rounding(|seen|, behind) && next == list[behind] && VisitedInOrder(list, cur, seen)
    {
      hide LinkOk, Distinct, VisitedInOrder, Next, Off, Nth;
      VisitNext(list, cur, visited, at);
      RoundNext(|visited|, at);
      seen, behind := visited + [node], Next(|list|, at);
      next := Successor(node, at);
    }

    /** The body of the loop of `wake_up_waiting_processes`. */
    method WakeIfWaiting(node: ProcNode, pid: nat, ghost was: seq<Proc>, ghost woken: seq<Proc>, ghost m: nat,
                         ghost i: nat)
      requires Rounding(m, i) && m < |list| && list[i] == node && PartWoken(was, Procs(), woken, cur, m)
      requires woken == WakeWaiting(was, pid)
      modifies node`state, node`waitingFor
      ensures Rounding(m, i) && PartWoken(was, Procs(), woken, cur, m + 1)
    {
      hide PartWoken, Values, Off;
      ghost var now := Procs();
      WakeHere(was, woken, m, i);
      if node.state == WAITING {
        if node.waitingFor == pid {
          node.state := READY;
          node.waitingFor := 0;
        }
      }
      forall k | 0 <= k < |list|
        ensures LinkOk(list, k)
      {
        assert old(LinkOk(list, k));
      }
      assert Procs() == now[i := woken[i]];
    }

    /** `wake_up_waiting_processes`: every process is visited exactly once. */
    method WakeUpWaitingProcesses(pid: nat) returns (ghost visited: seq<ProcNode>)
      requires Valid() && cur >= 0
      modifies list`state, list`waitingFor
      ensures Valid() && Procs() == WakeWaiting(old(Procs()), pid)
      ensures |visited| == |list| && VisitedInOrder(list, cur, visited)
    {
      hide LinkOk, Distinct, Nth, WakeWaiting, PartWoken, VisitedInOrder, Values, Off;
      ghost var was, at: nat := Procs(), cur;
      ghost var woken := WakeWaiting(was, pid);
      var iter := current;
      var first := true;
      visited := [];
      RoundStart(list, was, woken, cur);
      RoundBegin();
      while first || iter != current
        invariant first <==> visited == []
        invariant Rounding(|visited|, at) && iter == list[at]
        invariant PartWoken(was, Procs(), woken, cur, |visited|) && VisitedInOrder(list, cur, visited)
        decreases |list| - |visited|
      {
        first := false;
        NotDone(|visited|, at);
        WakeIfWaiting(iter, pid, was, woken, |visited|, at);
        iter, visited, at := GoOn(iter, visited, at);
      }
      RoundDone(|visited|, at);
      AllWoken(was, Procs(), woken, cur);
    }

    /** The body of the loop of `wake_up_terminal_processes`. */
    method WakeIfReader(node: ProcNode, terminal: nat, ghost was: seq<Proc>, ghost woken: seq<Proc>, ghost m: nat,
                        ghost i: nat)
      requires Rounding(m, i) && m < |list| && list[i] == node && PartWoken(was, Procs(), woken, cur, m)
      requires woken == WakeReaders(was, terminal)
      modifies node`state
      ensures Rounding(m, i) && PartWoken(was, Procs(), woken, cur, m + 1)
    {
      hide PartWoken, Values, Off;
      ghost var now := Procs();
      WakeHere(was, woken, m, i);
      if node.state == BLOCKED {
        if node.terminal == terminal {
          node.state := READY;
        }
      }
      forall k | 0 <= k < |list|
        ensures LinkOk(list, k)
      {
        assert old(LinkOk(list, k));
      }
      assert Procs() == now[i := woken[i]];
    }

    /** `wake_up_terminal_processes`: every process is visited exactly once. */
    method WakeUpTerminalProcesses(terminal: nat) returns (ghost visited: seq<ProcNode>)
      requires Valid() && cur >= 0
      modifies list`state
      ensures Valid() && Procs() == WakeReaders(old(Procs()), terminal)
      ensures |visited| == |list| && VisitedInOrder(list, cur, visited)
    {
      hide LinkOk, Distinct, Nth, WakeReaders, PartWoken, VisitedInOrder, Values, Off;
      ghost var was, at: nat := Procs(), cur;
      ghost var woken := WakeReaders(was, terminal);
      var iter := current;
      var first := true;
      visited := [];
      RoundStart(list, was, woken, cur);
      RoundBegin();
      while first || iter != current
        invariant first <==> visited == []
        invariant Rounding(|visited|, at) && iter == list[at]
        invariant PartWoken(was, Procs(), woken, cur, |visited|) && VisitedInOrder(list, cur, visited)
        decreases |list| - |visited|
      {
        first := false;
        NotDone(|visited|, at);
        WakeIfReader(iter, terminal, was, woken, |visited|, at);
        iter, visited, at := GoOn(iter, visited, at);
      }
      RoundDone(|visited|, at);
      AllWoken(was, Procs(), woken, cur);
    }

    /** A store to the state of one node. */
    method SetNodeState(node: ProcNode, s: State, ghost i: nat)
      requires Valid() && i < |list| && list[i] == node
      modifies node`state
      ensures Valid() && node.state == s && Procs() == SetState(old(Procs()), i, s)
    {
      ghost var was := Procs();
      node.state := s;
      forall k | 0 <= k < |list|
        ensures LinkOk(list, k)
      {
        assert old(LinkOk(list, k));
      }
      assert Procs() == SetState(was, i, s);
    }

    /** The scan of `switch_process`. It ends because somebody is ready. */
    method ScanReady(start: ProcNode, ghost i: nat, ghost r: nat) returns (node: ProcNode, ghost j: nat)
      requires ListOk() && i < |list| && list[i] == start
      requires r < |list| && Procs()[r].state == READY
      ensures FirstReady(Procs(), i, j) && list[j] == node
    {
      ghost var n := |list|;
      node := Successor(start, i);
      j := Next(n, i);
      GapStep(n, i, r);
      while node.state != READY
        invariant j < n && node == list[j] && Gap(n, i, j) <= Gap(n, i, r)
        invariant forall k :: 0 <= k < n && Gap(n, i, k) < Gap(n, i, j) ==> list[k].state != READY
        decreases n - Gap(n, i, j)
      {
        assert Procs()[r].state == list[r].state && Procs()[j].state == list[j].state;
        NextGap(n, i, j, r);
        node := Successor(node, j);
        j := Next(n, j);
      }
      assert forall k :: 0 <= k < n ==> Procs()[k].state == list[k].state;
    }

    static lemma {:induction false} NextGap(n: nat, i: nat, j: nat, r: nat)
      requires i < n && j < n && r < n && j != r && Gap(n, i, j) <= Gap(n, i, r)
      ensures Gap(n, i, Next(n, j)) == Gap(n, i, j) + 1 <= Gap(n, i, r)
      ensures forall k :: 0 <= k < n && Gap(n, i, k) < Gap(n, i, j) + 1 ==> Gap(n, i, k) < Gap(n, i, j) || k == j
    {
    }

    /** A current process that is running becomes ready. */
    method Preempt(ghost s: Sys)
      requires Valid() && cur >= 0 && s == View(s.inputReady, s.terminal)
      modifies list`state
      ensures Valid() && Procs() == Preempted(s)
    {
      hide LinkOk, Distinct, SetState;
      assert Procs()[cur].state == current.state;
      if current.state == RUNNING {
        assert current in list;
        SetNodeState(current, READY, cur);
      }
    }

    /** Going on to the next ready process. */
    method GoToReady(ghost r: nat)
      requires Valid() && cur >= 0 && r < |list| && Procs()[r].state == READY
      modifies this`current, this`cur
      ensures Valid() && 0 <= cur && Procs() == old(Procs()) && FirstReady(Procs(), old(cur), cur)
    {
      hide LinkOk, Distinct, FirstReady, Values, Gap, ListOk;
      var node;
      ghost var j;
      node, j := ScanReady(current, cur, r);
      FirstReadyInside(Procs(), cur, j);
      current, cur := node, j;
    }

    /** The choice of the next process. */
    method Choose(ghost s: Sys, ghost r: nat)
      requires Valid() && list != [] && s == View(s.inputReady, s.terminal)
      requires cur >= 0 ==> r < |list| && Preempted(s)[r].state == READY
      modifies this`current, this`cur, list`state
      ensures Valid() && 0 <= cur && Procs() == Preempted(s)
      ensures if s.cur == -1 then cur == 0 else FirstReady(Preempted(s), s.cur, cur)
    {
      hide LinkOk, Distinct, FirstReady, Values, SetState;
      if current == null {
        current, cur := head, 0;
      } else {
        Preempt(s);
        GoToReady(r);
      }
    }

    static lemma {:induction false} FirstReadyInside(procs: seq<Proc>, cur: nat, j: nat)
      requires cur < |procs| && FirstReady(procs, cur, j)
      ensures j < |procs|
    {
    }

    /** `switch_process`, up to the jump. */
    method SwitchProcess(ghost s: Sys, ghost r: nat)
      requires Valid() && s == View(s.inputReady, s.terminal)
      requires list != [] && cur >= 0 ==> r < |list| && Preempted(s)[r].state == READY
      modifies this`current, this`cur, list`state
      ensures Valid()
      ensures if list == [] then View(s.inputReady, s.terminal) == s else Switched(s, View(s.inputReady, s.terminal))
    {
      hide LinkOk, Distinct, FirstReady, Preempted, SetState;
      if head == null {
        return;
      }
      Choose(s, r);
      assert current in list;
      SetNodeState(current, RUNNING, cur);
    }

    /** The stores to the current process at the end of `create_process_from_elf`. */
    method WaitFor(pid: nat)
      requires Valid()
      modifies list`state, list`waitingFor
      ensures Valid()
      ensures Procs() == if cur == -1 then old(Procs())
                         else old(Procs())[cur := old(Procs())[cur].(state := WAITING, waitingFor := pid)]
    {
      ghost var was := Procs();
      if current != null {
        assert current in list;
        current.waitingFor := pid;
        current.state := WAITING;
      }
      forall k | 0 <= k < |list|
        ensures LinkOk(list, k)
      {
        assert old(LinkOk(list, k));
      }
      assert cur >= 0 ==> Procs() == was[cur := was[cur].(state := WAITING, waitingFor := pid)];
      assert cur == -1 ==> Procs() == was;
    }

    /** The new process joins the list at the tail and the current process waits for it. */
    method Admit(pid: nat, terminal: nat)
      requires Valid()
      modifies this`head, this`tail, this`list, list`next, list`state, list`waitingFor
      ensures Valid()
      ensures Procs() == (if cur == -1 then old(Procs())
                          else old(Procs())[cur := old(Procs())[cur].(state := WAITING, waitingFor := pid)])
                         + [Proc(pid, READY, 0, terminal)]
    {
      hide LinkOk, Distinct, Values, Nth;
      var node := new ProcNode(pid, terminal);
      AddToList(node);
      WaitFor(pid);
    }

    /** A fresh pid. */
    method TakePid() returns (pid: nat)
      requires Valid()
      modifies this`nextPid
      ensures Valid() && pid == old(nextPid) && nextPid == pid + 1 && Procs() == old(Procs())
    {
      hide LinkOk, Distinct, Nth;
      pid := nextPid;
      nextPid := nextPid + 1;
    }

    /** `create_process_from_elf`: pid, list and waiting. Whether the image is valid and could be loaded is
        decided elsewhere; the pid is used up in between. */
    method CreateProcess(terminal: nat, valid: bool, loaded: bool, ghost s: Sys) returns (ok: bool)
      requires Valid() && s == View(s.inputReady, terminal)
      modifies this`head, this`tail, this`list, this`nextPid, list`next, list`state, list`waitingFor
      ensures Valid() && ok == (valid && loaded)
      ensures Spawned(s, View(s.inputReady, terminal), ok)
    {
      hide LinkOk, Distinct, Values, Nth, ListOk;
      assert -1 <= cur < |list|;
      if !valid {
        return false;
      }
      var pid := TakePid();
      if !loaded {
        return false;
      }
      Admit(pid, terminal);
      ok := true;
    }

    /** The wake-up and the choice of the next process in `exit_proc`. */
    method HandOver(ghost s: Sys) returns (exiting: ProcNode)
      requires Valid() && 0 <= cur && |list| >= 2 && s == View(s.inputReady, s.terminal)
      modifies this`current, this`cur, list`state, list`waitingFor
      ensures Valid() && exiting == list[s.cur] && cur == Next(|list|, s.cur)
      ensures Procs() == WakeWaiting(s.procs, s.procs[s.cur].pid)
    {
      hide LinkOk, Distinct, Values, WakeWaiting, VisitedInOrder, ListOk;
      exiting := current;
      assert exiting.pid == Procs()[cur].pid;
      ghost var visited := WakeUpWaitingProcesses(exiting.pid);
      current := Successor(exiting, cur);
      cur := Next(|list|, cur);
    }

    /** `exit_proc` on the current process, up to the jump. */
    method ExitProc(ghost s: Sys)
      requires Valid() && 0 <= cur && |list| >= 2 && s == View(s.inputReady, s.terminal)
      modifies this`head, this`tail, this`list, this`current, this`cur
      modifies list`next, list`prev, list`state, list`waitingFor
      ensures Valid() && Exited(s, View(s.inputReady, s.terminal))
    {
      hide LinkOk, Distinct, Values, Without, WakeWaiting, ListOk, Nth;
      var exiting := HandOver(s);
      RemoveFromList(exiting, s.cur);
    }
  }
}
