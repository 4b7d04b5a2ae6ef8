/** The tree of directories, apart from where its bytes are stored: every node of the volume is
    named by exactly one directory slot. */
module FileTree {
  import opened CText
  import opened DirEntries
  import opened Directory
  import opened PathNames

  /** A file or directory: its cluster chain, the directory and slot that name it, its distance from the root. */
  datatype Node = Node(chain: seq<nat>, isDir: bool, parent: nat, slot: nat, depth: nat)

  type Nodes = map<nat, Node>
  type Dirs = map<nat, Dir>

  predicate IsDot(e: DirEntry) { e.Name() == DOT || e.Name() == DOTDOT }

  /** A slot that names a node. */
  predicate Live(e: DirEntry) { !e.Empty() && !IsDot(e) }

  /** `isalnum` and the three extra characters of `check_file_name`. */
  predicate LegalChar(c: Byte) {
    'a' <= c <= 'z' || 'A' <= c <= 'Z' || '0' <= c <= '9' || c == '-' || c == '_' || c == '.'
  }

  predicate LegalName(n: seq<Byte>) {
    (forall i :: 0 <= i < |n| ==> LegalChar(n[i])) && n != [] && n != DOT && n != DOTDOT
  }

  /** The directory `d`, given the parent recorded for it. */
  ghost predicate DirOk(s: Dir, d: nat, parent: nat) {
    && UniqueNames(s) && ShortNames(s)
    && (forall k :: 0 <= k < |s| && Live(s[k]) ==> LegalName(s[k].Name()))
    && (forall k :: 0 <= k < |s| && IsDot(s[k]) ==> d != 0 && k < 2)
    && (d != 0 ==> |s| >= 2 && DotsOk(s[0], s[1], d, parent))
  }

  ghost predicate DotsOk(dot: DirEntry, dotdot: DirEntry, d: nat, parent: nat) {
    && dot.Name() == DOT && dot.start == d && dot.IsDir()
    && dotdot.Name() == DOTDOT && dotdot.start == parent && dotdot.IsDir()
  }

  /** The slot that names node `h`. */
  ghost function EntryOf(nodes: Nodes, ds: Dirs, h: nat): DirEntry
    requires h in nodes && nodes[h].parent in ds && nodes[h].slot < |ds[nodes[h].parent]|
  {
    ds[nodes[h].parent][nodes[h].slot]
  }

  /** Node `h` hangs in the tree: one step further from the root than its parent, whose slot names it. */
  ghost predicate Hangs(nodes: Nodes, ds: Dirs, h: nat)
    requires h in nodes
  {
    var n := nodes[h];
    && n.parent in ds && n.parent in nodes && n.depth == nodes[n.parent].depth + 1
    && n.slot < |ds[n.parent]| && Live(ds[n.parent][n.slot])
    && ds[n.parent][n.slot].start == h && ds[n.parent][n.slot].IsDir() == n.isDir
  }

  /** Slot `k` of directory `d`, if it names anything, names a node that hangs there. */
  ghost predicate Names1(nodes: Nodes, ds: Dirs, d: nat, k: nat)
    requires d in ds && k < |ds[d]|
  {
    var e := ds[d][k];
    Live(e) ==> e.start != 0 && e.start in nodes && nodes[e.start].parent == d && nodes[e.start].slot == k
  }

  /** Nodes and naming slots correspond one to one. */
  ghost predicate LinkedUp(nodes: Nodes, ds: Dirs) {
    && 0 in nodes && nodes[0].isDir && nodes[0].depth == 0 && nodes[0].parent == 0 && nodes[0].slot == 0
    && (forall h :: h in ds <==> h in nodes && nodes[h].isDir)
    && (forall h {:trigger Hangs(nodes, ds, h)} :: h in nodes && h != 0 ==> Hangs(nodes, ds, h))
    && (forall d, k {:trigger Names1(nodes, ds, d, k)} :: d in ds && 0 <= k < |ds[d]| ==> Names1(nodes, ds, d, k))
  }

  ghost predicate DirsOk(nodes: Nodes, ds: Dirs) {
    && (forall d :: d in ds ==> d in nodes)
    && (forall d {:trigger DirOk(ds[d], d, nodes[d].parent)} :: d in ds ==> DirOk(ds[d], d, nodes[d].parent))
  }

  ghost predicate TreeOk(nodes: Nodes, ds: Dirs) {
    LinkedUp(nodes, ds) && DirsOk(nodes, ds)
  }

  /** The size field of a directory's entry is the number of its slots in use. */
  ghost predicate Counted(nodes: Nodes, ds: Dirs, d: nat)
    requires TreeOk(nodes, ds) && d in ds && d != 0
  {
    Hangs(nodes, ds, d) && EntryOf(nodes, ds, d).size == Used(ds[d])
  }

  ghost predicate CountsOk(nodes: Nodes, ds: Dirs)
    requires TreeOk(nodes, ds)
  {
    forall d {:trigger Counted(nodes, ds, d)} :: d in ds && d != 0 ==> Counted(nodes, ds, d)
  }

  // --- steps that keep the tree ------------------------------------------------------------

  /** The same slots of `s` and `u` name nodes, and the same nodes. */
  ghost predicate SameLinks(s: Dir, u: Dir) {
    && (forall k :: 0 <= k < |u| && Live(u[k]) ==>
          k < |s| && Live(s[k]) && u[k].start == s[k].start && u[k].IsDir() == s[k].IsDir())
    && (forall k :: 0 <= k < |s| && Live(s[k]) ==> k < |u| && Live(u[k]))
  }

  lemma {:induction false} ReplaceLinked(nodes: Nodes, ds: Dirs, d: nat, u: Dir)
    requires LinkedUp(nodes, ds) && d in ds && SameLinks(ds[d], u)
    ensures LinkedUp(nodes, ds[d := u])
  {
    var es := ds[d := u];
    forall h | h in nodes && h != 0
      ensures Hangs(nodes, es, h)
    {
      assert Hangs(nodes, ds, h);
    }
    forall x, k | x in es && 0 <= k < |es[x]|
      ensures Names1(nodes, es, x, k)
    {
      if x != d || Live(u[k]) {
        assert Names1(nodes, ds, x, k);
      }
    }
  }

  lemma {:induction false} ReplaceDirs(nodes: Nodes, ds: Dirs, d: nat, u: Dir)
    requires DirsOk(nodes, ds) && d in ds && d in nodes && DirOk(u, d, nodes[d].parent)
    ensures DirsOk(nodes, ds[d := u])
  {
    forall x | x in ds[d := u]
      ensures DirOk(ds[d := u][x], x, nodes[x].parent)
    {
      assert x != d ==> DirOk(ds[x], x, nodes[x].parent);
    }
  }

  lemma {:induction false} ReplaceKeeps(nodes: Nodes, ds: Dirs, d: nat, u: Dir)
    requires TreeOk(nodes, ds) && d in ds
    requires SameLinks(ds[d], u) && DirOk(u, d, nodes[d].parent)
    ensures TreeOk(nodes, ds[d := u])
  {
    ReplaceLinked(nodes, ds, d, u);
    ReplaceDirs(nodes, ds, d, u);
  }

  lemma {:induction false} DirOkPad(s: Dir, z: Dir, d: nat, parent: nat)
    requires DirOk(s, d, parent)
    requires forall k :: 0 <= k < |z| ==> z[k].Empty()
    ensures DirOk(s + z, d, parent) && SameLinks(s, s + z)
  {
    var u := s + z;
    AppendEmpty(s, z);
    forall k | 0 <= k < |u|
      ensures k < |s| ==> u[k] == s[k]
      ensures k >= |s| ==> u[k].Empty()
    {
      if k >= |s| {
        assert u[k] == z[k - |s|];
      }
    }
  }

  /** Slots of zeros behind the last. */
  lemma {:induction false} PadKeeps(nodes: Nodes, ds: Dirs, d: nat, z: Dir)
    requires TreeOk(nodes, ds) && d in ds
    requires forall k :: 0 <= k < |z| ==> z[k].Empty()
    ensures TreeOk(nodes, ds[d := ds[d] + z])
  {
    DirOkPad(ds[d], z, d, nodes[d].parent);
    ReplaceKeeps(nodes, ds, d, ds[d] + z);
  }

  lemma {:induction false} DirOkResize(s: Dir, d: nat, parent: nat, k: nat, size: nat)
    requires DirOk(s, d, parent) && k < |s|
    ensures DirOk(s[k := s[k].(size := size)], d, parent) && SameLinks(s, s[k := s[k].(size := size)])
  {
    hide CStr, LegalName;
    var u := s[k := s[k].(size := size)];
    assert forall j :: 0 <= j < |s| ==> u[j].Name() == s[j].Name() && u[j].start == s[j].start && u[j].attr == s[j].attr;
  }

  /** A new size in the entry of node `h`. */
  ghost function Resized(nodes: Nodes, ds: Dirs, h: nat, size: nat): Dirs
    requires h in nodes && Hangs(nodes, ds, h)
  {
    var p, k := nodes[h].parent, nodes[h].slot;
    ds[p := ds[p][k := ds[p][k].(size := size)]]
  }

  lemma {:induction false} ResizeKeeps(nodes: Nodes, ds: Dirs, h: nat, size: nat)
    requires TreeOk(nodes, ds) && h in nodes && h != 0 && Hangs(nodes, ds, h)
    ensures TreeOk(nodes, Resized(nodes, ds, h, size))
  {
    var p, k := nodes[h].parent, nodes[h].slot;
    assert DirOk(ds[p], p, nodes[p].parent);
    DirOkResize(ds[p], p, nodes[p].parent, k, size);
    ReplaceKeeps(nodes, ds, p, ds[p][k := ds[p][k].(size := size)]);
  }

  lemma {:induction false} DirOkPut(s: Dir, d: nat, parent: nat, k: nat, e: DirEntry)
    requires DirOk(s, d, parent) && k < |s| && !IsDot(s[k])
    requires LegalName(e.Name()) && |e.Name()| < NAME_SIZE
    requires e.Name() != s[k].Name() ==> e.Name() !in Names(s)
    ensures DirOk(s[k := e], d, parent)
  {
    hide AsMap, CStr, Names, LegalChar;
    PutSlot(s, k, e);
  }

  /** Renaming within a directory. */
  lemma {:induction false} RenameKeeps(nodes: Nodes, ds: Dirs, h: nat, name: seq<Byte>)
    requires TreeOk(nodes, ds) && h in nodes && h != 0 && Hangs(nodes, ds, h)
    requires |name| == NAME_SIZE && LegalName(CStr(name)) && |CStr(name)| < NAME_SIZE
    requires CStr(name) !in Names(ds[nodes[h].parent])
    ensures var (p, k) := (nodes[h].parent, nodes[h].slot);
            TreeOk(nodes, ds[p := ds[p][k := ds[p][k].(name := name)]])
  {
    hide CStr, AsMap, LegalChar, Names;
    var p, k := nodes[h].parent, nodes[h].slot;
    var e := ds[p][k].(name := name);
    assert DirOk(ds[p], p, nodes[p].parent);
    assert e.Name() == CStr(name);
    DirOkPut(ds[p], p, nodes[p].parent, k, e);
    ReplaceKeeps(nodes, ds, p, ds[p][k := e]);
  }

  /** The slots of a directory just made: the two dot entries, which count nothing, and nothing else. */
  ghost predicate FreshDir(s: Dir, d: nat, parent: nat) {
    && |s| >= 2 && DotsOk(s[0], s[1], d, parent) && s[0].size == s[1].size == 0
    && forall k :: 2 <= k < |s| ==> s[k].Empty()
  }

  lemma {:induction false} FreshDirOk(s: Dir, d: nat, parent: nat)
    requires FreshDir(s, d, parent) && d != 0
    ensures DirOk(s, d, parent) && Used(s) == 2
    ensures forall k :: 0 <= k < |s| ==> !Live(s[k])
  {
    forall k | 0 <= k < |s|
      ensures |s[k].Name()| < NAME_SIZE && !Live(s[k])
      ensures k >= 2 ==> !IsDot(s[k])
    {
      if k >= 2 {
        assert s[k].Empty();
      }
    }
    assert UniqueNames(s) by {
      forall j, k | 0 <= j < |s| && 0 <= k < |s| && !s[j].Empty() && s[j].Name() == s[k].Name()
        ensures j == k
      {
        assert j < 2 && k < 2;
      }
    }
    var a, z := s[..2], s[2..];
    assert s == a + z;
    UsedAppend(a, z);
    UsedNone(z);
    assert a == [s[0], s[1]];
    UsedAppend([s[0]], [s[1]]);
    assert [s[0]] + [s[1]] == a;
    assert [s[0]][..0] == [] && [s[1]][..0] == [];
  }

  /** The tree with node `h` named by slot `k` of directory `d`. */
  ghost function NodesWith(nodes: Nodes, d: nat, k: nat, e: DirEntry, h: nat, chain: seq<nat>): Nodes
    requires d in nodes
  {
    nodes[h := Node(chain, e.IsDir(), d, k, nodes[d].depth + 1)]
  }

  ghost function DirsWith(ds: Dirs, d: nat, k: nat, e: DirEntry, h: nat, own: Dir): Dirs
    requires d in ds && k < |ds[d]|
  {
    var es := ds[d := ds[d][k := e]];
    if e.IsDir() then es[h := own] else es
  }

  lemma {:induction false} InsertLinked(nodes: Nodes, ds: Dirs, d: nat, k: nat, e: DirEntry, h: nat, chain: seq<nat>,
                                        own: Dir)
    requires LinkedUp(nodes, ds) && d in ds && k < |ds[d]| && ds[d][k].Empty()
    requires Live(e) && e.start == h && h != 0 && h !in nodes
    requires forall j :: 0 <= j < |own| ==> !Live(own[j])
    ensures LinkedUp(NodesWith(nodes, d, k, e, h, chain), DirsWith(ds, d, k, e, h, own))
  {
    var ms, es := NodesWith(nodes, d, k, e, h, chain), DirsWith(ds, d, k, e, h, own);
    forall x | x in ms && x != 0
      ensures Hangs(ms, es, x)
    {
      if x != h {
        assert Hangs(nodes, ds, x);
      }
    }
    forall x, j | x in es && 0 <= j < |es[x]|
      ensures Names1(ms, es, x, j)
    {
      if x != h && !(x == d && j == k) {
        assert Names1(nodes, ds, x, j);
      }
    }
  }

  lemma {:induction false} InsertDirs(nodes: Nodes, ds: Dirs, d: nat, k: nat, e: DirEntry, h: nat, chain: seq<nat>,
                                      own: Dir)
    requires DirsOk(nodes, ds) && d in ds && k < |ds[d]| && h !in ds && h != d && d in nodes
    requires DirOk(ds[d][k := e], d, nodes[d].parent)
    requires e.IsDir() ==> DirOk(own, h, d)
    ensures DirsOk(NodesWith(nodes, d, k, e, h, chain), DirsWith(ds, d, k, e, h, own))
  {
    var ms, es := NodesWith(nodes, d, k, e, h, chain), DirsWith(ds, d, k, e, h, own);
    forall x | x in es
      ensures DirOk(es[x], x, ms[x].parent)
    {
      if x != h && x != d {
        assert DirOk(ds[x], x, nodes[x].parent);
      }
    }
  }

  /** Naming the new node `h` in an empty slot of directory `d`. */
  lemma {:induction false} InsertKeeps(nodes: Nodes, ds: Dirs, d: nat, k: nat, e: DirEntry, h: nat, chain: seq<nat>,
                                       own: Dir)
    requires TreeOk(nodes, ds) && d in ds && k < |ds[d]| && ds[d][k].Empty()
    requires LegalName(e.Name()) && |e.Name()| < NAME_SIZE && e.Name() !in Names(ds[d])
    requires e.start == h && h != 0 && h !in nodes
    requires if e.IsDir() then FreshDir(own, h, d) else own == []
    ensures TreeOk(NodesWith(nodes, d, k, e, h, chain), DirsWith(ds, d, k, e, h, own))
  {
    assert DirOk(ds[d], d, nodes[d].parent);
    DirOkPut(ds[d], d, nodes[d].parent, k, e);
    if e.IsDir() {
      FreshDirOk(own, h, d);
    }
    InsertLinked(nodes, ds, d, k, e, h, chain, own);
    InsertDirs(nodes, ds, d, k, e, h, chain, own);
  }

  /** A node nothing hangs from. */
  ghost predicate Leaf(nodes: Nodes, ds: Dirs, h: nat) {
    && h in nodes && h != 0
    && (h in ds ==> forall k :: 0 <= k < |ds[h]| ==> !Live(ds[h][k]))
  }

  /** The directories without node `h`, its slot overwritten by `none`. */
  ghost function DirsWithout(nodes: Nodes, ds: Dirs, h: nat, none: DirEntry): Dirs
    requires h in nodes && Hangs(nodes, ds, h)
  {
    var p, k := nodes[h].parent, nodes[h].slot;
    ds[p := ds[p][k := none]] - {h}
  }

  lemma {:induction false} RemoveLinked(nodes: Nodes, ds: Dirs, h: nat, none: DirEntry)
    requires LinkedUp(nodes, ds) && Leaf(nodes, ds, h) && Hangs(nodes, ds, h) && none.Empty()
    ensures LinkedUp(nodes - {h}, DirsWithout(nodes, ds, h, none))
  {
    hide CStr;
    var p, k := nodes[h].parent, nodes[h].slot;
    var ms, es := nodes - {h}, DirsWithout(nodes, ds, h, none);
    forall x | x in ms && x != 0
      ensures Hangs(ms, es, x)
    {
      assert Hangs(nodes, ds, x);
      assert h in ds && nodes[x].slot < |ds[h]| ==> !Live(ds[h][nodes[x].slot]);
    }
    forall x, j | x in es && 0 <= j < |es[x]|
      ensures Names1(ms, es, x, j)
    {
      assert Names1(nodes, ds, x, j);
    }
  }

  lemma {:induction false} RemoveDirs(nodes: Nodes, ds: Dirs, h: nat, none: DirEntry)
    requires DirsOk(nodes, ds) && h in nodes && Hangs(nodes, ds, h)
    requires DirOk(ds[nodes[h].parent][nodes[h].slot := none], nodes[h].parent, nodes[nodes[h].parent].parent)
    ensures DirsOk(nodes - {h}, DirsWithout(nodes, ds, h, none))
  {
    var es := DirsWithout(nodes, ds, h, none);
    forall x | x in es
      ensures DirOk(es[x], x, (nodes - {h})[x].parent)
    {
      assert DirOk(ds[x], x, nodes[x].parent);
    }
  }

  /** Taking a leaf out of the tree: its slot becomes empty. */
  lemma {:induction false} RemoveKeeps(nodes: Nodes, ds: Dirs, h: nat, none: DirEntry)
    requires TreeOk(nodes, ds) && Leaf(nodes, ds, h) && Hangs(nodes, ds, h) && none.Empty()
    ensures TreeOk(nodes - {h}, DirsWithout(nodes, ds, h, none))
  {
    hide CStr, AsMap, LegalChar, Names;
    var p, k := nodes[h].parent, nodes[h].slot;
    assert DirOk(ds[p], p, nodes[p].parent);
    PutSlot(ds[p], k, none);
    assert forall j :: 0 <= j < |ds[p]| && j != k ==> ds[p][k := none][j] == ds[p][j];
    assert DirOk(ds[p][k := none], p, nodes[p].parent);
    RemoveLinked(nodes, ds, h, none);
    RemoveDirs(nodes, ds, h, none);
  }

  // --- steps that keep the counts ----------------------------------------------------------

  lemma {:induction false} UsedResize(s: Dir, k: nat, size: nat)
    requires k < |s|
    ensures Used(s[k := s[k].(size := size)]) == Used(s)
  {
    UsedPut(s, k, s[k].(size := size));
  }

  /** Overwriting one slot of `d` by another in use for the same node, but for the size field of `d`
      itself, leaves the counts as they were. */
  lemma {:induction false} ReplaceCounts(nodes: Nodes, ds: Dirs, d: nat, k: nat, e: DirEntry)
    requires TreeOk(nodes, ds) && CountsOk(nodes, ds) && d in ds && k < |ds[d]|
    requires TreeOk(nodes, ds[d := ds[d][k := e]])
    requires e.Empty() == ds[d][k].Empty() && e.size == ds[d][k].size
    ensures CountsOk(nodes, ds[d := ds[d][k := e]])
  {
    var es := ds[d := ds[d][k := e]];
    UsedPut(ds[d], k, e);
    forall x | x in es && x != 0
      ensures Counted(nodes, es, x)
    {
      assert Counted(nodes, ds, x) && Hangs(nodes, es, x);
    }
  }

  lemma {:induction false} PadCounts(nodes: Nodes, ds: Dirs, d: nat, z: Dir)
    requires TreeOk(nodes, ds) && CountsOk(nodes, ds) && d in ds
    requires forall k :: 0 <= k < |z| ==> z[k].Empty()
    requires TreeOk(nodes, ds[d := ds[d] + z])
    ensures CountsOk(nodes, ds[d := ds[d] + z])
  {
    var es := ds[d := ds[d] + z];
    UsedAppend(ds[d], z);
    UsedNone(z);
    forall x | x in es && x != 0
      ensures Counted(nodes, es, x)
    {
      assert Counted(nodes, ds, x) && Hangs(nodes, es, x);
      assert nodes[x].parent == d ==> es[d][nodes[x].slot] == ds[d][nodes[x].slot];
    }
  }

  /** Every count is right but that of `d`, which is off by `delta`. */
  ghost predicate CountsOff(nodes: Nodes, ds: Dirs, d: nat, delta: int)
    requires TreeOk(nodes, ds)
  {
    && (forall x {:trigger Counted(nodes, ds, x)} :: x in ds && x != 0 && x != d ==> Counted(nodes, ds, x))
    && (d in ds && d != 0 ==> Hangs(nodes, ds, d) && EntryOf(nodes, ds, d).size + delta == Used(ds[d]))
  }

  lemma {:induction false} InsertCounts(nodes: Nodes, ds: Dirs, d: nat, k: nat, e: DirEntry, h: nat, chain: seq<nat>,
                                        own: Dir)
    requires TreeOk(nodes, ds) && CountsOk(nodes, ds)
    requires d in ds && k < |ds[d]| && ds[d][k].Empty() && Live(e) && h !in nodes && h != 0
    requires e.IsDir() ==> Used(own) == e.size
    requires TreeOk(NodesWith(nodes, d, k, e, h, chain), DirsWith(ds, d, k, e, h, own))
    ensures CountsOff(NodesWith(nodes, d, k, e, h, chain), DirsWith(ds, d, k, e, h, own), d, 1)
  {
    hide DirsOk, CStr;
    var ms, es := NodesWith(nodes, d, k, e, h, chain), DirsWith(ds, d, k, e, h, own);
    UsedPut(ds[d], k, e);
    assert Live(es[d][k]);
    forall x | x in es && x != 0
      ensures Hangs(ms, es, x) && if x == d then EntryOf(ms, es, d).size + 1 == Used(es[d]) else Counted(ms, es, x)
    {
      assert Hangs(ms, es, x);
      if x != h {
        assert Counted(nodes, ds, x) && Hangs(nodes, ds, x);
      }
    }
  }

  lemma {:induction false} RemoveCounts(nodes: Nodes, ds: Dirs, h: nat, none: DirEntry)
    requires TreeOk(nodes, ds) && CountsOk(nodes, ds)
    requires Leaf(nodes, ds, h) && Hangs(nodes, ds, h) && none.Empty()
    requires TreeOk(nodes - {h}, DirsWithout(nodes, ds, h, none))
    ensures CountsOff(nodes - {h}, DirsWithout(nodes, ds, h, none), nodes[h].parent, -1)
  {
    hide DirsOk, CStr;
    var p, k := nodes[h].parent, nodes[h].slot;
    var ms, es := nodes - {h}, DirsWithout(nodes, ds, h, none);
    UsedPut(ds[p], k, none);
    forall x | x in es && x != 0
      ensures Hangs(ms, es, x) && if x == p then EntryOf(ms, es, p).size - 1 == Used(es[p]) else Counted(ms, es, x)
    {
      assert Hangs(ms, es, x);
      assert Counted(nodes, ds, x) && Hangs(nodes, ds, x);
    }
  }

  /** Writing the corrected size into the entry of `d` puts the counts right. */
  lemma {:induction false} ResizeCounts(nodes: Nodes, ds: Dirs, d: nat, delta: int, size: nat)
    requires TreeOk(nodes, ds) && CountsOff(nodes, ds, d, delta)
    requires d in ds && d != 0 && Hangs(nodes, ds, d) && size == EntryOf(nodes, ds, d).size + delta
    ensures TreeOk(nodes, Resized(nodes, ds, d, size)) && CountsOk(nodes, Resized(nodes, ds, d, size))
  {
    ResizeKeeps(nodes, ds, d, size);
    var p, k := nodes[d].parent, nodes[d].slot;
    var es := Resized(nodes, ds, d, size);
    UsedResize(ds[p], k, size);
    forall x | x in es && x != 0
      ensures Counted(nodes, es, x)
    {
      assert Hangs(nodes, es, x) && Hangs(nodes, ds, x);
      if x != d {
        assert Counted(nodes, ds, x);
        SlotsApart(nodes, ds, x, d);
      }
    }
  }

  /** Two nodes never share a slot. */
  lemma {:induction false} SlotsApart(nodes: Nodes, ds: Dirs, x: nat, y: nat)
    requires LinkedUp(nodes, ds) && x in nodes && y in nodes && x != 0 && y != 0 && x != y
    ensures nodes[x].parent != nodes[y].parent || nodes[x].slot != nodes[y].slot
  {
    assert Hangs(nodes, ds, x) && Hangs(nodes, ds, y);
  }
}
