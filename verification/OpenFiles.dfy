/** file.c of the syscalls and file.c of the vfs: opening and closing. */
module OpenFiles {
  import opened PathNames
  import opened Errno
  import opened DescriptorTables

  datatype Flags = Flags(directory: bool, creat: bool, excl: bool, append: bool)

  datatype Answer = Absent | Present(file: File)

  /** What the file system answers while a file is opened: the file, whether it can be created, the file then,
      and the directory. */
  datatype Answers = Answers(data: Answer, created: bool, again: Answer, dir: Answer)

  /** The file a path that is not open is opened with, if any. */
  function Opened(flags: Flags, a: Answers): Answer {
    if flags.directory then a.dir
    else if a.data.Present? then a.data
    else if flags.creat && a.created then a.again
    else Absent
  }

  /** The slot an open of `path` works on. */
  function SlotFor(gs: Globals, path: Text): nat {
    var g := FindOpen(gs, path, 0);
    if g < |gs| then g else FirstUnused(gs, 0)
  }

  /** The checks of `_open`, in their order: the code with which it fails, or 0. */
  function OpenRefusal(gs: Globals, path: Text, flags: Flags, a: Answers): int {
    var g := FindOpen(gs, path, 0);
    if g < |gs| && gs[g].isDir && !flags.directory then -EISDIR
    else if g < |gs| && !gs[g].isDir && flags.directory then -ENOTDIR
    else if g == |gs| && Opened(flags, a).Absent? then -ENOENT
    else if !flags.directory && flags.excl then -EEXIST
    else 0
  }

  /** Some slot has the path open, as a directory or as a file. */
  ghost predicate OpenAs(gs: Globals, path: Text, isDir: bool) {
    exists g :: 0 <= g < |gs| && gs[g].isUsed && gs[g].path == path && gs[g].isDir == isDir
  }

  /** The file system has what is asked for, or has made it. */
  ghost predicate Available(flags: Flags, a: Answers) {
    if flags.directory then a.dir.Present? else a.data.Present? || (flags.creat && a.created && a.again.Present?)
  }

  /** Which answer has which cause. */
  ghost predicate Answered(gs: Globals, path: Text, flags: Flags, a: Answers, r: int) {
    var isOpen := OpenAs(gs, path, true) || OpenAs(gs, path, false);
    && (r == -EISDIR <==> OpenAs(gs, path, true) && !flags.directory)
    && (r == -ENOTDIR <==> OpenAs(gs, path, false) && flags.directory)
    && (r == -ENOENT <==> !isOpen && !Available(flags, a))
    && (r == -EEXIST <==> (isOpen ==> OpenAs(gs, path, flags.directory)) && (!isOpen ==> Available(flags, a))
                          && flags.excl && !flags.directory)
    && (r >= 0 <==> (isOpen ==> OpenAs(gs, path, flags.directory)) && (!isOpen ==> Available(flags, a))
                    && (flags.excl ==> flags.directory))
  }

  lemma {:induction false} RefusalAnswers(gs: Globals, ls: Locals, path: Text, flags: Flags, a: Answers, r: int)
    requires Inv(gs, ls) && path != []
    requires if OpenRefusal(gs, path, flags, a) == 0 then r >= 0 else r == OpenRefusal(gs, path, flags, a)
    ensures Answered(gs, path, flags, a, r)
  {
    var g := FindOpen(gs, path, 0);
    assert g < |gs| ==> OpenAs(gs, path, gs[g].isDir) && !OpenAs(gs, path, !gs[g].isDir);
    assert g == |gs| ==> !OpenAs(gs, path, true) && !OpenAs(gs, path, false);
  }

  /** Where the first read or write after an open begins: at the end of the file if it was opened to append, and else
      at its start. */
  ghost predicate Begins(gs: Globals, path: Text, flags: Flags, l: Local) {
    && l.isUsed && l.global < |gs| && gs[l.global].isUsed && gs[l.global].path == path
    && l.offset == if flags.append && !flags.directory then gs[l.global].file.size else 0
  }

  /** The global descriptor after a successful open: one more count, or the first. */
  function Counted(gs: Globals, path: Text, flags: Flags, a: Answers): Global {
    var g := FindOpen(gs, path, 0);
    if g < |gs| then
      gs[g].(refCount := gs[g].refCount + 1, isDir := gs[g].file.isDir)
    else if Opened(flags, a).Present? then
      Global(path, 1, true, Opened(flags, a).file.isDir, false, Opened(flags, a).file)
    else
      NO_GLOBAL
  }

  /** The local one: at the end of the file if it is opened to append. */
  function Pointing(g: nat, x: Global, flags: Flags): Local {
    Local(true, g, flags.directory || x.isDir, if !flags.directory && flags.append then x.file.size else 0)
  }

  /** A successful open: local descriptor `fd` points to slot `g`, which counts it. */
  ghost predicate OpenDone(gs: Globals, ls: Locals, hs: Globals, ms: Locals, pid: nat, path: Text, flags: Flags,
                           a: Answers, fd: nat, g: nat) {
    && pid in ls && fd < |ls[pid]| && fd == FirstUnusedLocal(ls[pid], 0)
    && g < |gs| && g == SlotFor(gs, path) && hs == gs[g := Counted(gs, path, flags, a)]
    && ms == SetLocal(ls, pid, fd, Pointing(g, Counted(gs, path, flags, a), flags))
  }

  /** A failed open: no descriptor is used or freed. On a file that is open already, one that fails for
      `O_EXCL` has counted itself nevertheless. */
  ghost predicate OpenFailed(gs: Globals, ls: Locals, hs: Globals, ms: Locals, pid: nat, path: Text, code: int) {
    && pid in ls && FirstUnusedLocal(ls[pid], 0) < |ls[pid]|
    && SlotFor(gs, path) < |gs| == |hs|
    && var (fd, g) := (FirstUnusedLocal(ls[pid], 0), SlotFor(gs, path));
       && pid in ms && fd < |ms[pid]| && ms == SetLocal(ls, pid, fd, ms[pid][fd]) && !ms[pid][fd].isUsed
       && hs == gs[g := hs[g]] && hs[g].isUsed == gs[g].isUsed
       && (gs[g].isUsed ==> hs[g] == gs[g].(refCount := gs[g].refCount + if code == -EEXIST then 1 else 0))
  }

  lemma {:induction false} SetTwice(ls: Locals, pid: nat, fd: nat, l: Local, m: Local)
    requires pid in ls && fd < |ls[pid]|
    ensures SetLocal(SetLocal(ls, pid, fd, l), pid, fd, m) == SetLocal(ls, pid, fd, m)
  {
    assert ls[pid][fd := l][fd := m] == ls[pid][fd := m];
  }

  lemma {:induction false} DoneKeeps(gs: Globals, ls: Locals, hs: Globals, ms: Locals, pid: nat, path: Text, flags: Flags,
                                     a: Answers, fd: nat, g: nat)
    requires Inv(gs, ls) && OpenDone(gs, ls, hs, ms, pid, path, flags, a, fd, g) && path != []
    requires OpenRefusal(gs, path, flags, a) == 0
    ensures Inv(hs, ms)
  {
    if FindOpen(gs, path, 0) == |gs| {
      UnusedNotLive(gs, ls, g);
    } else {
      assert CountOk(gs, ls, g);
    }
    var x := Counted(gs, path, flags, a);
    OpenKeeps(gs, ls, pid, fd, Pointing(g, x, flags), g, x);
  }

  lemma {:induction false} FailedKeeps(gs: Globals, ls: Locals, hs: Globals, ms: Locals, pid: nat, path: Text, code: int)
    requires Inv(gs, ls) && OpenFailed(gs, ls, hs, ms, pid, path, code)
    ensures Inv(hs, ms) && forall k: nat :: Live(ms, k) == Live(ls, k)
  {
    var g := SlotFor(gs, path);
    if !gs[g].isUsed {
      UnusedChanges(gs, ls, g, hs[g]);
    } else if code == -EEXIST {
      CountUp(gs, ls, g);
    } else {
      assert hs == gs;
    }
    UnusedLocal(hs, ls, pid, FirstUnusedLocal(ls[pid], 0), ms[pid][FirstUnusedLocal(ls[pid], 0)]);
  }

  /** An exclusive open of a file that is open already: it fails only after the count went up. */
  predicate CountedInVain(gs: Globals, path: Text, flags: Flags) {
    var g := FindOpen(gs, path, 0);
    g < |gs| && !gs[g].isDevice && !gs[g].isDir && !flags.directory && flags.excl
  }

  /** A failed open keeps exact counts exact if and only if it is not such an open. */
  lemma {:induction false} FailedExact(gs: Globals, ls: Locals, hs: Globals, ms: Locals, pid: nat, path: Text,
                                       flags: Flags, a: Answers)
    requires Inv(gs, ls) && Exact(gs, ls) && OpenRefusal(gs, path, flags, a) != 0
    requires OpenFailed(gs, ls, hs, ms, pid, path, OpenRefusal(gs, path, flags, a))
    ensures Exact(hs, ms) <==> !CountedInVain(gs, path, flags)
  {
    hide Live;
    FailedKeeps(gs, ls, hs, ms, pid, path, OpenRefusal(gs, path, flags, a));
    var g := SlotFor(gs, path);
    assert ExactAt(gs, ls, g);
    if CountedInVain(gs, path, flags) {
      assert !ExactAt(hs, ms, g);
    } else {
      ExactElsewhere(gs, ls, hs, ms, g);
    }
  }

  lemma {:induction false} KeptExact(gs: Globals, ls: Locals, hs: Globals, ms: Locals, pid: nat, path: Text, flags: Flags,
                                     a: Answers)
    requires Inv(gs, ls) && OpenRefusal(gs, path, flags, a) != 0
    requires OpenFailed(gs, ls, hs, ms, pid, path, OpenRefusal(gs, path, flags, a))
    ensures Exact(gs, ls) ==> (Exact(hs, ms) <==> !CountedInVain(gs, path, flags))
  {
    if Exact(gs, ls) {
      FailedExact(gs, ls, hs, ms, pid, path, flags, a);
    }
  }

  /** A successful one leaves counts exact that were, and no others. */
  lemma {:induction false} DoneExact(gs: Globals, ls: Locals, hs: Globals, ms: Locals, pid: nat, path: Text, flags: Flags,
                                     a: Answers, fd: nat, g: nat)
    requires Inv(gs, ls) && OpenDone(gs, ls, hs, ms, pid, path, flags, a, fd, g)
    requires OpenRefusal(gs, path, flags, a) == 0
    ensures Exact(gs, ls) <==> Exact(hs, ms)
  {
    var x := Counted(gs, path, flags, a);
    OpenExact(gs, ls, pid, fd, Pointing(g, x, flags), g, x);
  }

  class Descriptors {
    /** `global_fd_table`, and the local tables of the processes. */
    const globals: array<Global>
    var locals: Locals

    constructor ()
      ensures Valid() && locals == map[] && fresh(globals) && Exact(globals[..], locals)
      ensures forall g :: 0 <= g < globals.Length ==> globals[g] == NO_GLOBAL
    {
      globals := new Global[MAX_FD](_ => NO_GLOBAL);
      locals := map[];
      new;
      assert forall g :: 0 <= g < |globals[..]| ==> CountOk(globals[..], locals, g) && ExactAt(globals[..], locals, g);
    }

    ghost predicate Valid()
      reads this, globals
    {
      && globals.Length == MAX_FD && Inv(globals[..], locals)
      && forall pid :: pid in locals ==> |locals[pid]| == MAX_LOCAL_FD
    }

    /** `init_proc_fd` and `attach_process_to_terminal`: a new process has the descriptors of its terminal. */
    method Enter(pid: nat, stdin: nat, stdout: nat, stderr: nat)
      requires Valid() && pid !in locals
      requires IsDevice(globals[..], stdin) && IsDevice(globals[..], stdout) && IsDevice(globals[..], stderr)
      modifies this`locals
      ensures Valid() && locals == old(locals)[pid := FreshTable(stdin, stdout, stderr)]
      ensures Exact(globals[..], locals) <==> Exact(globals[..], old(locals))
    {
      EnterKeeps(globals[..], locals, pid, stdin, stdout, stderr);
      locals := locals[pid := FreshTable(stdin, stdout, stderr)];
    }

    /** `get_opened_fd`. */
    method GetOpenedFd(path: Text) returns (r: int)
      requires globals.Length == MAX_FD
      ensures r == if FindOpen(globals[..], path, 0) < MAX_FD then FindOpen(globals[..], path, 0) else -1
    {
      for i := 0 to MAX_FD
        invariant FindOpen(globals[..], path, 0) == FindOpen(globals[..], path, i)
      {
        if globals[i].isUsed {
          if globals[i].path == path {
            return i;
          }
        }
      }
      r := -1;
    }

    /** `allocate_global_fd`: the slot is not marked as used yet. */
    method AllocateGlobalFd(path: Text) returns (r: int)
      requires globals.Length == MAX_FD
      modifies globals
      ensures r == if FirstUnused(old(globals[..]), 0) < MAX_FD then FirstUnused(old(globals[..]), 0) else -1
      ensures globals[..] == if r == -1 then old(globals[..])
                             else old(globals[..])[r := NO_GLOBAL.(path := path, refCount := 1)]
    {
      ghost var gs := globals[..];
      for i := 0 to MAX_FD
        invariant globals[..] == gs && FirstUnused(gs, 0) == FirstUnused(gs, i)
      {
        if !globals[i].isUsed {
          globals[i] := NO_GLOBAL.(path := path, refCount := 1);
          return i;
        }
      }
      r := -1;
    }

    /** `allocate_device_fd`. */
    method AllocateDeviceFd() returns (r: int)
      requires Valid()
      modifies globals
      ensures Valid() && r == if FirstUnused(old(globals[..]), 0) < MAX_FD then FirstUnused(old(globals[..]), 0) else -1
      ensures globals[..] == if r == -1 then old(globals[..])
                             else old(globals[..])[r := NO_GLOBAL.(refCount := 1, isDevice := true, isUsed := true)]
      ensures Exact(globals[..], locals) <==> Exact(old(globals[..]), locals)
    {
      ghost var gs := globals[..];
      for i := 0 to MAX_FD
        invariant globals[..] == gs && FirstUnused(gs, 0) == FirstUnused(gs, i)
      {
        if !globals[i].isUsed {
          globals[i] := NO_GLOBAL.(refCount := 1, isDevice := true, isUsed := true);
          assert globals[..] == gs[i := globals[i]];
          DeviceKeeps(gs, locals, i, globals[i]);
          return i;
        }
      }
      r := -1;
    }

    /** The files the file system is asked for when the path is not open yet. */
    method AskFor(flags: Flags, a: Answers) returns (code: int, file: File)
      ensures code == if Opened(flags, a).Absent? then -ENOENT else 0
      ensures code == 0 ==> file == Opened(flags, a).file
    {
      file := File(false, 0);
      if !flags.directory {
        if a.data.Absent? {
          if flags.creat {
            if !a.created {
              return -ENOENT, file;
            }
            if a.again.Absent? {
              return -ENOENT, file;
            }
            return 0, a.again.file;
          }
          return -ENOENT, file;
        }
        return 0, a.data.file;
      }
      if a.dir.Absent? {
        return -ENOENT, file;
      }
      return 0, a.dir.file;
    }

    /** A store to one field or another of a local descriptor. */
    method SetLocalFd(pid: nat, fd: nat, l: Local)
      requires pid in locals && fd < |locals[pid]|
      modifies this`locals
      ensures locals == SetLocal(old(locals), pid, fd, l)
    {
      locals := locals[pid := locals[pid][fd := l]];
    }

    /** The choice of the global descriptor in `_open`, up to the counting. */
    method Attach(path: Text, flags: Flags, a: Answers) returns (code: int, g: nat)
      requires globals.Length == MAX_FD && SlotFor(globals[..], path) < MAX_FD
      modifies globals
      ensures globals.Length == MAX_FD && g == SlotFor(old(globals[..]), path)
      ensures var gs := old(globals[..]);
              && globals[..] == gs[g := globals[g]]
              && code == (if OpenRefusal(gs, path, flags, a) == -EEXIST then 0 else OpenRefusal(gs, path, flags, a))
              && if FindOpen(gs, path, 0) < |gs| then
                   globals[g] == gs[g].(refCount := gs[g].refCount + if code == 0 then 1 else 0)
                 else
                   globals[g] == NO_GLOBAL.(path := path, refCount := 1, file := globals[g].file)
                   && (code == 0 ==> globals[g].file == Opened(flags, a).file)
    {
      ghost var gs := globals[..];
      var found := GetOpenedFd(path);
      if found == -1 {
        var slot := AllocateGlobalFd(path);
        g := slot;
        var file;
        code, file := AskFor(flags, a);
        if code == 0 {
          globals[g] := globals[g].(file := file);
        }
        return;
      }
      g := found;
      if globals[g].isDir && !flags.directory {
        return -EISDIR, g;
      }
      if !globals[g].isDir && flags.directory {
        return -ENOTDIR, g;
      }
      globals[g] := globals[g].(refCount := globals[g].refCount + 1);
      code := 0;
    }

    /** The scan for a free local descriptor. */
    method FreeLocal(pid: nat) returns (fd: nat)
      requires pid in locals && FirstUnusedLocal(locals[pid], 0) < |locals[pid]|
      ensures fd == FirstUnusedLocal(locals[pid], 0)
    {
      fd := 0;
      while locals[pid][fd].isUsed
        invariant fd < |locals[pid]| && FirstUnusedLocal(locals[pid], 0) == FirstUnusedLocal(locals[pid], fd)
        decreases |locals[pid]| - fd
      {
        fd := fd + 1;
      }
    }

    /** `_open` of a full path. There must be a free local descriptor and a free slot. */
    method Open(pid: nat, path: Text, flags: Flags, a: Answers) returns (r: int)
      requires Valid() && pid in locals && 0 < |path| < 256
      requires FirstUnusedLocal(locals[pid], 0) < MAX_LOCAL_FD && SlotFor(globals[..], path) < MAX_FD
      modifies this`locals, globals
      ensures Valid()
      ensures OpenRefusal(old(globals[..]), path, flags, a) != 0 ==> r == OpenRefusal(old(globals[..]), path, flags, a)
      ensures if OpenRefusal(old(globals[..]), path, flags, a) != 0
              then OpenFailed(old(globals[..]), old(locals), globals[..], locals, pid, path, r)
              else r >= 0 && OpenDone(old(globals[..]), old(locals), globals[..], locals, pid, path, flags, a, r,
                                     SlotFor(old(globals[..]), path))
      ensures Answered(old(globals[..]), path, flags, a, r)
      ensures r >= 0 ==> r < |locals[pid]| && Begins(globals[..], path, flags, locals[pid][r])
      ensures r >= 0 && !OpenAs(old(globals[..]), path, flags.directory) ==>
        globals[locals[pid][r].global].file
        == if flags.directory then a.dir.file else if a.data.Present? then a.data.file else a.again.file
      ensures Exact(old(globals[..]), old(locals)) ==>
        (Exact(globals[..], locals) <==>
           OpenRefusal(old(globals[..]), path, flags, a) == 0 || !CountedInVain(old(globals[..]), path, flags))
    {
      ghost var gs, ls := globals[..], locals;
      var fd := FreeLocal(pid);
      var code, g := Attach(path, flags, a);
      RefusalAnswers(gs, ls, path, flags, a, if OpenRefusal(gs, path, flags, a) == 0 then fd else OpenRefusal(gs, path, flags, a));
      SetLocalFd(pid, fd, NO_LOCAL.(global := g));
      if code != 0 {
        FailedKeeps(gs, ls, globals[..], locals, pid, path, code);
        KeptExact(gs, ls, globals[..], locals, pid, path, flags, a);
        return code;
      }
      if !flags.directory && flags.excl {
        FailedKeeps(gs, ls, globals[..], locals, pid, path, -EEXIST);
        KeptExact(gs, ls, globals[..], locals, pid, path, flags, a);
        return -EEXIST;
      }
      globals[g] := globals[g].(isUsed := true, isDir := globals[g].file.isDir);
      var offset := if !flags.directory && flags.append then globals[g].file.size else 0;
      SetLocalFd(pid, fd, Local(true, g, flags.directory || globals[g].isDir, offset));
      assert globals[..] == gs[g := Counted(gs, path, flags, a)];
      SetTwice(ls, pid, fd, NO_LOCAL.(global := g), locals[pid][fd]);
      DoneKeeps(gs, ls, globals[..], locals, pid, path, flags, a, fd, g);
      DoneExact(gs, ls, globals[..], locals, pid, path, flags, a, fd, g);
      r := fd;
    }

    /** `_close`. The descriptors of the terminal, which are not counted, must not be closed. The code tests `fd` against
        `MAX_FD` although the table ends at `MAX_LOCAL_FD`. */
    method Close(pid: nat, fd: int) returns (r: int)
      requires Valid() && pid in locals && !(MAX_LOCAL_FD <= fd < MAX_FD)
      requires 2 <= fd < MAX_LOCAL_FD && locals[pid][fd].isUsed ==> locals[pid][fd].global < MAX_FD
      requires 2 <= fd < MAX_LOCAL_FD && locals[pid][fd].isUsed ==> !globals[locals[pid][fd].global].isDevice
      modifies this`locals, globals
      ensures Valid()
      ensures r == if 2 <= fd < MAX_FD && old(locals)[pid][fd].isUsed then 0 else -EBADF
      ensures r != 0 ==> globals[..] == old(globals[..]) && locals == old(locals)
      ensures r == 0 ==> locals == SetLocal(old(locals), pid, fd, NO_LOCAL)
      ensures r == 0 ==> var g := old(locals)[pid][fd].global;
                         && globals[..] == old(globals[..])[g := Released(old(globals[..])[g])]
                         && |Live(locals, g)| == |Live(old(locals), g)| - 1
                         && (!globals[g].isUsed ==> Live(locals, g) == {})
      ensures Exact(globals[..], locals) <==> Exact(old(globals[..]), old(locals))
    {
      ghost var gs, ls := globals[..], locals;
      if fd < 0 || fd >= MAX_FD {
        return -EBADF;
      }
      if fd == 0 || fd == 1 {
        return -EBADF;
      }
      if !locals[pid][fd].isUsed {
        return -EBADF;
      }
      var g := locals[pid][fd].global;
      CloseKeeps(gs, ls, pid, fd);
      CloseExact(gs, ls, pid, fd);
      globals[g] := globals[g].(refCount := globals[g].refCount - 1);
      if globals[g].refCount == 0 {
        globals[g] := NO_GLOBAL;
      }
      assert globals[..] == gs[g := Released(gs[g])];
      SetLocalFd(pid, fd, NO_LOCAL);
      r := 0;
    }

    /** A process that exits leaves its descriptors uncounted. */
    method Exit(pid: nat)
      requires Valid()
      modifies this`locals
      ensures Valid() && locals == old(locals) - {pid}
      ensures Exact(globals[..], old(locals)) ==>
        (Exact(globals[..], locals) <==> forall g: nat :: !Holds(globals[..], old(locals), pid, g))
    {
      ExitKeeps(globals[..], locals, pid);
      if Exact(globals[..], locals) {
        ExitExact(globals[..], locals, pid);
      }
      locals := locals - {pid};
    }
  }

  /** Opening exclusively a file that is open already fails, and leaves a count nobody will give back: after
      the one who has it open has closed it, the slot is still in use. */
  lemma {:induction false} ExclusiveOpenLeaks(path: Text, a: Answers) returns (gs: Globals, hs: Globals, ls: Locals)
    requires path != []
    ensures Inv(gs, ls) && ls == map[1 := [Local(true, 0, false, 0), NO_LOCAL]]
    ensures OpenRefusal(gs, path, Flags(false, true, true, false), a) == -EEXIST
    ensures OpenFailed(gs, ls, hs, ls, 1, path, -EEXIST)
    ensures Live(SetLocal(ls, 1, 0, NO_LOCAL), 0) == {} && Released(hs[0]).isUsed
  {
    var l := Local(true, 0, false, 0);
    var x := Global(path, 1, true, false, false, File(false, 0));
    gs, hs, ls := [x], [x.(refCount := 2)], map[1 := [l, NO_LOCAL]];
    assert Inv([NO_GLOBAL], map[1 := [NO_LOCAL, NO_LOCAL]]) by {
      assert CountOk([NO_GLOBAL], map[1 := [NO_LOCAL, NO_LOCAL]], 0);
    }
    UnusedNotLive([NO_GLOBAL], map[1 := [NO_LOCAL, NO_LOCAL]], 0);
    OpenKeeps([NO_GLOBAL], map[1 := [NO_LOCAL, NO_LOCAL]], 1, 0, l, 0, x);
    assert [NO_GLOBAL][0 := x] == gs;
    assert [NO_LOCAL, NO_LOCAL][0 := l] == [l, NO_LOCAL] && [l, NO_LOCAL][1 := NO_LOCAL] == [l, NO_LOCAL];
    assert SetLocal(map[1 := [NO_LOCAL, NO_LOCAL]], 1, 0, l) == ls;
    LiveAfter(ls, 1, 0, NO_LOCAL, 0);
    LiveAfter(map[1 := [NO_LOCAL, NO_LOCAL]], 1, 0, l, 0);
    assert SetLocal(ls, 1, 1, NO_LOCAL) == ls;
  }
}
