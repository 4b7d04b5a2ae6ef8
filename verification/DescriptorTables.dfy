/** Open files as values: the global descriptors, the local ones of every process, and what ties them. */
module DescriptorTables {
  import opened FiniteSets
  import opened PathNames

  const MAX_FD: nat := 256
  const MAX_LOCAL_FD: nat := 128

  /** What the file system says of a path, as far as it is kept. */
  datatype File = File(isDir: bool, size: nat)

  /** `global_file_descriptor`, as far as opening and closing look at it. */
  datatype Global = Global(path: Text, refCount: int, isUsed: bool, isDir: bool, isDevice: bool, file: File)

  /** All bytes zero. */
  const NO_GLOBAL := Global([], 0, false, false, false, File(false, 0))

  datatype Local = Local(isUsed: bool, global: nat, directory: bool, offset: nat)

  const NO_LOCAL := Local(false, 0, false, 0)

  type Globals = seq<Global>

  /** The local tables by process. */
  type Locals = map<nat, seq<Local>>

  predicate PointsTo(ls: Locals, pid: nat, fd: nat, g: nat) {
    pid in ls && fd < |ls[pid]| && ls[pid][fd].isUsed && ls[pid][fd].global == g
  }

  /** The live local descriptors of global descriptor `g`. */
  ghost function Live(ls: Locals, g: nat): (s: set<(nat, nat)>)
    ensures forall pid: nat, fd: nat :: (pid, fd) in s <==> PointsTo(ls, pid, fd, g)
  {
    set pid: nat, fd: nat | pid in ls && fd < |ls[pid]| && PointsTo(ls, pid, fd, g) :: (pid, fd)
  }

  ghost predicate CountOk(gs: Globals, ls: Locals, g: nat)
    requires g < |gs|
  {
    gs[g].isUsed && !gs[g].isDevice ==> gs[g].refCount >= |Live(ls, g)|
  }

  ghost predicate Open(gs: Globals, ls: Locals, pid: nat, fd: nat)
    requires pid in ls && fd < |ls[pid]|
  {
    ls[pid][fd].isUsed ==> ls[pid][fd].global < |gs| && gs[ls[pid][fd].global].isUsed
  }

  /** A global descriptor in use counts at least its live local ones, no live one points to a slot that is
      not in use, and no path is open in two slots. */
  ghost predicate Inv(gs: Globals, ls: Locals) {
    && (forall g {:trigger CountOk(gs, ls, g)} :: 0 <= g < |gs| ==> CountOk(gs, ls, g))
    && (forall pid, fd {:trigger Open(gs, ls, pid, fd)} :: pid in ls && 0 <= fd < |ls[pid]| ==> Open(gs, ls, pid, fd))
    && (forall g, h :: 0 <= g < |gs| && 0 <= h < |gs| && gs[g].isUsed && gs[h].isUsed && gs[g].path == gs[h].path != [] ==> g == h)
  }

  /** The first slot in use for `path` from `i` on, or |gs|. */
  function FindOpen(gs: Globals, path: Text, i: nat): (g: nat)
    requires i <= |gs|
    ensures i <= g <= |gs|
    ensures g < |gs| ==> gs[g].isUsed && gs[g].path == path
    ensures forall k :: i <= k < g ==> !(gs[k].isUsed && gs[k].path == path)
    decreases |gs| - i
  {
    if i == |gs| || (gs[i].isUsed && gs[i].path == path) then i else FindOpen(gs, path, i + 1)
  }

  function FirstUnused(gs: Globals, i: nat): (g: nat)
    requires i <= |gs|
    ensures i <= g <= |gs|
    ensures g < |gs| ==> !gs[g].isUsed
    ensures forall k :: i <= k < g ==> gs[k].isUsed
    decreases |gs| - i
  {
    if i == |gs| || !gs[i].isUsed then i else FirstUnused(gs, i + 1)
  }

  function FirstUnusedLocal(t: seq<Local>, i: nat): (fd: nat)
    requires i <= |t|
    ensures i <= fd <= |t|
    ensures fd < |t| ==> !t[fd].isUsed
    ensures forall k :: i <= k < fd ==> t[k].isUsed
    decreases |t| - i
  {
    if i == |t| || !t[i].isUsed then i else FirstUnusedLocal(t, i + 1)
  }

  // --- steps -------------------------------------------------------------------------------

  /** Nothing points to a slot that is not in use. */
  lemma {:induction false} UnusedNotLive(gs: Globals, ls: Locals, g: nat)
    requires Inv(gs, ls) && g < |gs| && !gs[g].isUsed
    ensures Live(ls, g) == {}
  {
    forall pid: nat, fd: nat
      ensures !PointsTo(ls, pid, fd, g)
    {
      assert pid in ls && fd < |ls[pid]| ==> Open(gs, ls, pid, fd);
    }
    assert forall p :: p in Live(ls, g) ==> PointsTo(ls, p.0, p.1, g);
  }

  /** A slot that is not in use may be overwritten by another that is not. */
  lemma {:induction false} UnusedChanges(gs: Globals, ls: Locals, g: nat, x: Global)
    requires Inv(gs, ls) && g < |gs| && !gs[g].isUsed && !x.isUsed
    ensures Inv(gs[g := x], ls)
  {
    var hs := gs[g := x];
    forall k | 0 <= k < |hs|
      ensures CountOk(hs, ls, k)
    {
      assert CountOk(gs, ls, k);
    }
    forall pid, fd | pid in ls && 0 <= fd < |ls[pid]|
      ensures Open(hs, ls, pid, fd)
    {
      assert Open(gs, ls, pid, fd);
    }
  }

  /** A count may go up. */
  lemma {:induction false} CountUp(gs: Globals, ls: Locals, g: nat)
    requires Inv(gs, ls) && g < |gs|
    ensures Inv(gs[g := gs[g].(refCount := gs[g].refCount + 1)], ls)
  {
    var hs := gs[g := gs[g].(refCount := gs[g].refCount + 1)];
    forall k | 0 <= k < |hs|
      ensures CountOk(hs, ls, k)
    {
      assert CountOk(gs, ls, k);
    }
    forall pid, fd | pid in ls && 0 <= fd < |ls[pid]|
      ensures Open(hs, ls, pid, fd)
    {
      assert Open(gs, ls, pid, fd);
    }
  }

  ghost function SetLocal(ls: Locals, pid: nat, fd: nat, l: Local): Locals
    requires pid in ls && fd < |ls[pid]|
  {
    ls[pid := ls[pid][fd := l]]
  }

  /** What a change of one local descriptor does to the live ones of `g`. */
  lemma {:induction false} LiveAfter(ls: Locals, pid: nat, fd: nat, l: Local, g: nat)
    requires pid in ls && fd < |ls[pid]|
    ensures Live(SetLocal(ls, pid, fd, l), g)
         == (Live(ls, g) - {(pid, fd)}) + (if l.isUsed && l.global == g then {(pid, fd)} else {})
  {
    var ms := SetLocal(ls, pid, fd, l);
    forall p: nat, f: nat
      ensures PointsTo(ms, p, f, g) <==> if (p, f) == (pid, fd) then l.isUsed && l.global == g else PointsTo(ls, p, f, g)
    {
    }
  }

  /** Opening: slot `g`, whose count covers one more, is in use and local descriptor `fd` points to it. */
  lemma {:induction false} OpenKeeps(gs: Globals, ls: Locals, pid: nat, fd: nat, l: Local, g: nat, x: Global)
    requires Inv(gs, ls) && pid in ls && fd < |ls[pid]| && !ls[pid][fd].isUsed && g < |gs|
    requires l.isUsed && l.global == g && x.isUsed && (!x.isDevice ==> x.refCount >= |Live(ls, g)| + 1)
    requires forall h :: 0 <= h < |gs| && h != g && gs[h].isUsed && gs[h].path == x.path ==> x.path == []
    ensures Inv(gs[g := x], SetLocal(ls, pid, fd, l))
  {
    var hs, ms := gs[g := x], SetLocal(ls, pid, fd, l);
    forall k | 0 <= k < |hs|
      ensures CountOk(hs, ms, k)
    {
      assert CountOk(gs, ls, k);
      LiveAfter(ls, pid, fd, l, k);
      assert !PointsTo(ls, pid, fd, k);
    }
    forall p, f | p in ms && 0 <= f < |ms[p]|
      ensures Open(hs, ms, p, f)
    {
      assert Open(gs, ls, p, f);
    }
  }

  /** A local descriptor that is not in use may hold anything. */
  lemma {:induction false} UnusedLocal(gs: Globals, ls: Locals, pid: nat, fd: nat, l: Local)
    requires Inv(gs, ls) && pid in ls && fd < |ls[pid]| && !ls[pid][fd].isUsed && !l.isUsed
    ensures Inv(gs, SetLocal(ls, pid, fd, l))
    ensures forall g: nat :: Live(SetLocal(ls, pid, fd, l), g) == Live(ls, g)
  {
    var ms := SetLocal(ls, pid, fd, l);
    forall g: nat
      ensures Live(ms, g) == Live(ls, g)
    {
      LiveAfter(ls, pid, fd, l, g);
      assert !PointsTo(ls, pid, fd, g);
    }
    forall k | 0 <= k < |gs|
      ensures CountOk(gs, ms, k)
    {
      assert CountOk(gs, ls, k);
    }
    forall p, f | p in ms && 0 <= f < |ms[p]|
      ensures Open(gs, ms, p, f)
    {
      assert Open(gs, ls, p, f);
    }
  }

  /** `_close` on the global side. */
  function Released(x: Global): Global {
    if x.refCount - 1 == 0 then NO_GLOBAL else x.(refCount := x.refCount - 1)
  }

  lemma {:induction false} PointsHere(ls: Locals, pid: nat, fd: nat)
    requires pid in ls && fd < |ls[pid]| && ls[pid][fd].isUsed
    ensures forall k: nat :: (pid, fd) in Live(ls, k) <==> k == ls[pid][fd].global
    ensures PointsTo(ls, pid, fd, ls[pid][fd].global)
  {
  }

  lemma {:induction false} CountAfterClose(gs: Globals, ls: Locals, pid: nat, fd: nat, k: nat)
    requires Inv(gs, ls) && pid in ls && fd < |ls[pid]| && ls[pid][fd].isUsed && k < |gs|
    requires ls[pid][fd].global < |gs| && !gs[ls[pid][fd].global].isDevice
    ensures var g := ls[pid][fd].global;
            var (hs, ms) := (gs[g := Released(gs[g])], SetLocal(ls, pid, fd, NO_LOCAL));
            && CountOk(hs, ms, k)
            && (k == g ==> |Live(ms, g)| == |Live(ls, g)| - 1 && (!hs[g].isUsed ==> |Live(ms, g)| == 0))
  {
    hide PointsTo, SetLocal;
    assert CountOk(gs, ls, k) && Open(gs, ls, pid, fd);
    PointsHere(ls, pid, fd);
    LiveAfter(ls, pid, fd, NO_LOCAL, k);
    if k != ls[pid][fd].global {
      assert Live(SetLocal(ls, pid, fd, NO_LOCAL), k) == Live(ls, k);
    }
  }

  /** Closing: the slot is cleared only when nobody else is using it. */
  lemma {:induction false} CloseKeeps(gs: Globals, ls: Locals, pid: nat, fd: nat)
    requires Inv(gs, ls) && pid in ls && fd < |ls[pid]| && ls[pid][fd].isUsed
    requires ls[pid][fd].global < |gs| && !gs[ls[pid][fd].global].isDevice
    ensures var g := ls[pid][fd].global;
            var (hs, ms) := (gs[g := Released(gs[g])], SetLocal(ls, pid, fd, NO_LOCAL));
            && Inv(hs, ms) && |Live(ms, g)| == |Live(ls, g)| - 1
            && (!hs[g].isUsed ==> Live(ms, g) == {})
  {
    hide PointsTo, Live, CountOk;
    var g := ls[pid][fd].global;
    var hs, ms := gs[g := Released(gs[g])], SetLocal(ls, pid, fd, NO_LOCAL);
    CountAfterClose(gs, ls, pid, fd, g);
    forall k | 0 <= k < |hs|
      ensures CountOk(hs, ms, k)
    {
      CountAfterClose(gs, ls, pid, fd, k);
    }
    forall p, f | p in ms && 0 <= f < |ms[p]|
      ensures Open(hs, ms, p, f)
    {
      OpenAfterClose(gs, ls, pid, fd, p, f);
    }
  }

  lemma {:induction false} OpenAfterClose(gs: Globals, ls: Locals, pid: nat, fd: nat, p: nat, f: nat)
    requires Inv(gs, ls) && pid in ls && fd < |ls[pid]| && ls[pid][fd].isUsed
    requires ls[pid][fd].global < |gs| && !gs[ls[pid][fd].global].isDevice
    requires p in ls && f < |ls[p]|
    ensures var g := ls[pid][fd].global;
            Open(gs[g := Released(gs[g])], SetLocal(ls, pid, fd, NO_LOCAL), p, f)
  {
    var g := ls[pid][fd].global;
    assert Open(gs, ls, p, f) && Open(gs, ls, pid, fd) && CountOk(gs, ls, g);
    if (p, f) != (pid, fd) && PointsTo(ls, p, f, g) {
      assert PointsTo(ls, pid, fd, g);
      TwoLive(Live(ls, g), (p, f), (pid, fd));
    }
  }

  lemma {:induction false} TwoLive(s: set<(nat, nat)>, a: (nat, nat), b: (nat, nat))
    requires a in s && b in s && a != b
    ensures |s| >= 2
  {
    assert s == {a} + ({b} + (s - {a, b}));
  }

  /** A device takes a slot that is not in use; it is not counted. */
  lemma {:induction false} DeviceKeeps(gs: Globals, ls: Locals, g: nat, x: Global)
    requires Inv(gs, ls) && g < |gs| && !gs[g].isUsed && x.isUsed && x.isDevice && x.path == []
    ensures Inv(gs[g := x], ls) && (Exact(gs[g := x], ls) <==> Exact(gs, ls))
  {
    hide Live;
    var hs := gs[g := x];
    forall k | 0 <= k < |hs|
      ensures CountOk(hs, ls, k)
    {
      assert CountOk(gs, ls, k);
    }
    forall p, f | p in ls && 0 <= f < |ls[p]|
      ensures Open(hs, ls, p, f)
    {
      assert Open(gs, ls, p, f);
    }
    ExactElsewhere(gs, ls, hs, ls, g);
  }

  /** The table of a new process: the three descriptors of its terminal, which are device slots and not counted. */
  function FreshTable(stdin: nat, stdout: nat, stderr: nat): (t: seq<Local>)
    ensures |t| == MAX_LOCAL_FD
    ensures t[0].isUsed && t[1].isUsed && t[2].isUsed && forall fd :: 3 <= fd < |t| ==> !t[fd].isUsed
    ensures t[0].global == stdin && t[1].global == stdout && t[2].global == stderr
  {
    [Local(true, stdin, false, 0), Local(true, stdout, false, 0), Local(true, stderr, false, 0)]
    + seq(MAX_LOCAL_FD - 3, _ => NO_LOCAL)
  }

  predicate IsDevice(gs: Globals, g: nat) { g < |gs| && gs[g].isUsed && gs[g].isDevice }

  lemma {:induction false} LiveAfterEnter(ls: Locals, pid: nat, stdin: nat, stdout: nat, stderr: nat, g: nat)
    requires pid !in ls && g != stdin && g != stdout && g != stderr
    ensures Live(ls[pid := FreshTable(stdin, stdout, stderr)], g) == Live(ls, g)
  {
    var ms := ls[pid := FreshTable(stdin, stdout, stderr)];
    forall p: nat, f: nat
      ensures PointsTo(ms, p, f, g) <==> PointsTo(ls, p, f, g)
    {
    }
  }

  /** A process that enters brings descriptors of devices only. */
  lemma {:induction false} EnterKeeps(gs: Globals, ls: Locals, pid: nat, stdin: nat, stdout: nat, stderr: nat)
    requires Inv(gs, ls) && pid !in ls && IsDevice(gs, stdin) && IsDevice(gs, stdout) && IsDevice(gs, stderr)
    ensures Inv(gs, ls[pid := FreshTable(stdin, stdout, stderr)])
    ensures Exact(gs, ls) <==> Exact(gs, ls[pid := FreshTable(stdin, stdout, stderr)])
  {
    hide Live;
    var ms := ls[pid := FreshTable(stdin, stdout, stderr)];
    forall g | 0 <= g < |gs|
      ensures CountOk(gs, ms, g) && (ExactAt(gs, ls, g) <==> ExactAt(gs, ms, g))
    {
      assert CountOk(gs, ls, g);
      if !IsDevice(gs, g) {
        LiveAfterEnter(ls, pid, stdin, stdout, stderr, g);
      }
    }
    forall p, f | p in ms && 0 <= f < |ms[p]|
      ensures Open(gs, ms, p, f)
    {
      assert p != pid ==> Open(gs, ls, p, f);
    }
  }

  // --- exact counts ------------------------------------------------------------------------

  ghost predicate ExactAt(gs: Globals, ls: Locals, g: nat)
    requires g < |gs|
  {
    gs[g].isUsed && !gs[g].isDevice ==> gs[g].refCount == |Live(ls, g)|
  }

  /** Every global descriptor in use counts exactly its live local ones. */
  ghost predicate Exact(gs: Globals, ls: Locals) {
    forall g {:trigger ExactAt(gs, ls, g)} :: 0 <= g < |gs| ==> ExactAt(gs, ls, g)
  }

  /** A change of slot `g` and of what is live decides exactness there alone. */
  lemma {:induction false} ExactElsewhere(gs: Globals, ls: Locals, hs: Globals, ms: Locals, g: nat)
    requires g < |gs| == |hs| && hs == gs[g := hs[g]]
    requires forall k: nat :: k != g ==> Live(ms, k) == Live(ls, k)
    requires ExactAt(gs, ls, g) <==> ExactAt(hs, ms, g)
    ensures Exact(gs, ls) <==> Exact(hs, ms)
  {
    forall k | 0 <= k < |gs|
      ensures ExactAt(gs, ls, k) <==> ExactAt(hs, ms, k)
    {
    }
  }

  /** A successful open keeps counts exact, and makes none exact that was not. */
  lemma {:induction false} OpenExact(gs: Globals, ls: Locals, pid: nat, fd: nat, l: Local, g: nat, x: Global)
    requires Inv(gs, ls) && pid in ls && fd < |ls[pid]| && !ls[pid][fd].isUsed && g < |gs|
    requires l.isUsed && l.global == g && x.isUsed
    requires if gs[g].isUsed then x.isDevice == gs[g].isDevice && x.refCount == gs[g].refCount + 1 else x.refCount == 1
    ensures Exact(gs, ls) <==> Exact(gs[g := x], SetLocal(ls, pid, fd, l))
  {
    hide SetLocal, Live;
    var ms := SetLocal(ls, pid, fd, l);
    forall k: nat
      ensures Live(ms, k) == Live(ls, k) + if k == g then {(pid, fd)} else {}
      ensures (pid, fd) !in Live(ls, k)
    {
      LiveAfter(ls, pid, fd, l, k);
      assert !PointsTo(ls, pid, fd, k);
    }
    if !gs[g].isUsed {
      UnusedNotLive(gs, ls, g);
    }
    ExactElsewhere(gs, ls, gs[g := x], ms, g);
  }

  /** So does closing. */
  lemma {:induction false} CloseExact(gs: Globals, ls: Locals, pid: nat, fd: nat)
    requires Inv(gs, ls) && pid in ls && fd < |ls[pid]| && ls[pid][fd].isUsed
    requires ls[pid][fd].global < |gs| && !gs[ls[pid][fd].global].isDevice
    ensures var g := ls[pid][fd].global;
            Exact(gs, ls) <==> Exact(gs[g := Released(gs[g])], SetLocal(ls, pid, fd, NO_LOCAL))
  {
    hide SetLocal, Live;
    var g, ms := ls[pid][fd].global, SetLocal(ls, pid, fd, NO_LOCAL);
    PointsHere(ls, pid, fd);
    CountAfterClose(gs, ls, pid, fd, g);
    assert Open(gs, ls, pid, fd) && CountOk(gs, ls, g);
    forall k: nat | k != g
      ensures Live(ms, k) == Live(ls, k)
    {
      LiveAfter(ls, pid, fd, NO_LOCAL, k);
    }
    ExactElsewhere(gs, ls, gs[g := Released(gs[g])], ms, g);
  }

  /** Process `pid` has a live descriptor of slot `g`, and slot `g` is counted. */
  ghost predicate Holds(gs: Globals, ls: Locals, pid: nat, g: nat) {
    && g < |gs| && gs[g].isUsed && !gs[g].isDevice
    && pid in ls && exists fd: nat :: PointsTo(ls, pid, fd, g)
  }

  lemma {:induction false} LiveAfterExit(ls: Locals, pid: nat, g: nat)
    ensures Live(ls - {pid}, g) <= Live(ls, g)
    ensures forall q: nat, fd: nat :: (q, fd) in Live(ls - {pid}, g) <==> q != pid && (q, fd) in Live(ls, g)
    ensures Live(ls - {pid}, g) == Live(ls, g) <==> !(exists fd: nat :: PointsTo(ls, pid, fd, g))
  {
    forall q: nat, fd: nat
      ensures PointsTo(ls - {pid}, q, fd, g) <==> q != pid && PointsTo(ls, q, fd, g)
    {
    }
    assert forall fd: nat :: PointsTo(ls, pid, fd, g) <==> (pid, fd) in Live(ls, g);
  }

  /** The exit of a process keeps exact counts exact if and only if it has no counted file open. */
  lemma {:induction false} ExitExact(gs: Globals, ls: Locals, pid: nat)
    requires Exact(gs, ls)
    ensures Exact(gs, ls - {pid}) <==> forall g: nat :: !Holds(gs, ls, pid, g)
  {
    hide Live, PointsTo;
    forall g: nat | g < |gs|
      ensures ExactAt(gs, ls - {pid}, g) <==> !Holds(gs, ls, pid, g)
    {
      assert ExactAt(gs, ls, g);
      LiveAfterExit(ls, pid, g);
      if Live(ls - {pid}, g) != Live(ls, g) {
        SubsetSmaller(Live(ls - {pid}, g), Live(ls, g));
      }
      NotHere(ls, pid, g);
    }
  }

  lemma {:induction false} NotHere(ls: Locals, pid: nat, g: nat)
    ensures pid !in ls ==> forall fd: nat :: !PointsTo(ls, pid, fd, g)
  {
  }

  /** A process that is gone takes its descriptors along; the counts stay as they are. */
  lemma {:induction false} ExitKeeps(gs: Globals, ls: Locals, pid: nat)
    requires Inv(gs, ls)
    ensures Inv(gs, ls - {pid})
  {
    forall g | 0 <= g < |gs|
      ensures CountOk(gs, ls - {pid}, g)
    {
      assert CountOk(gs, ls, g);
      SubsetSize(Live(ls - {pid}, g), Live(ls, g));
    }
    forall p, f | p in ls - {pid} && 0 <= f < |ls[p]|
      ensures Open(gs, ls - {pid}, p, f)
    {
      assert Open(gs, ls, p, f);
    }
  }
}
