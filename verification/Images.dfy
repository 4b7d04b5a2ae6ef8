/** The whole content of a volume: the tree and the bytes of every node. */
module Images {
  import opened CText
  import opened DirEntries
  import opened Directory
  import opened FileTree
  import opened Catalogs

  /** The bytes of file `h` cover its size, and those behind its end are zero. */
  ghost predicate FileFits(nodes: Nodes, ds: Dirs, b: Bytes, h: nat)
    requires h in nodes && h in b
  {
    && Hangs(nodes, ds, h)
    && EntryOf(nodes, ds, h).size <= |b[h]|
    && forall i :: EntryOf(nodes, ds, h).size <= i < |b[h]| ==> b[h][i] == NUL
  }

  ghost predicate FilesOk(nodes: Nodes, ds: Dirs, b: Bytes)
    requires b.Keys == nodes.Keys
  {
    forall h {:trigger FileFits(nodes, ds, b, h)} :: h in nodes && !nodes[h].isDir ==> FileFits(nodes, ds, b, h)
  }

  /** The image but for the count of directory `d`, which is off by `delta`. */
  ghost predicate ImageOff(nodes: Nodes, b: Bytes, d: nat, delta: int) {
    && b.Keys == nodes.Keys
    && TreeOk(nodes, DirsIn(nodes, b))
    && CountsOff(nodes, DirsIn(nodes, b), d, delta)
    && FilesOk(nodes, DirsIn(nodes, b), b)
  }

  ghost predicate ImageOk(nodes: Nodes, b: Bytes) {
    && b.Keys == nodes.Keys
    && TreeOk(nodes, DirsIn(nodes, b))
    && CountsOk(nodes, DirsIn(nodes, b))
    && FilesOk(nodes, DirsIn(nodes, b), b)
  }

  /** The root is not counted. */
  lemma {:induction false} RootNotCounted(nodes: Nodes, b: Bytes, delta: int)
    requires ImageOff(nodes, b, 0, delta)
    ensures ImageOk(nodes, b)
  {
    var ds := DirsIn(nodes, b);
    forall d | d in ds && d != 0
      ensures Counted(nodes, ds, d)
    {
    }
  }

  /** Bytes of the new slot `k` in directory `d`. */
  ghost function Put(b: Bytes, d: nat, k: nat, e: DirEntry): Bytes
    requires d in b && e.Valid() && ENTRY_SIZE * (k + 1) <= |b[d]|
  {
    b[d := Splice(b[d], ENTRY_SIZE * k, Encode(e))]
  }

  lemma {:induction false} PutDirs(nodes: Nodes, b: Bytes, d: nat, k: nat, e: DirEntry)
    requires b.Keys == nodes.Keys && d in nodes && nodes[d].isDir
    requires e.Valid() && ENTRY_SIZE * (k + 1) <= |b[d]|
    ensures Put(b, d, k, e).Keys == nodes.Keys && k < |DirsIn(nodes, b)[d]|
    ensures DirsIn(nodes, Put(b, d, k, e)) == DirsIn(nodes, b)[d := DirsIn(nodes, b)[d][k := e]]
  {
    SlotsSplice(b[d], k, e);
  }

  // --- growing a directory -----------------------------------------------------------------

  /** The tree does not depend on where a node's bytes are stored. */
  ghost function Rechained(nodes: Nodes, h: nat, chain: seq<nat>): Nodes
    requires h in nodes
  {
    nodes[h := nodes[h].(chain := chain)]
  }

  lemma {:induction false} RechainLinked(nodes: Nodes, ds: Dirs, h: nat, chain: seq<nat>)
    requires LinkedUp(nodes, ds) && h in nodes
    ensures LinkedUp(Rechained(nodes, h, chain), ds)
  {
    var ms := Rechained(nodes, h, chain);
    forall x | x in ms && x != 0
      ensures Hangs(ms, ds, x)
    {
      assert Hangs(nodes, ds, x);
    }
    forall x, k | x in ds && 0 <= k < |ds[x]|
      ensures Names1(ms, ds, x, k)
    {
      assert Names1(nodes, ds, x, k);
    }
  }

  lemma {:induction false} RechainTree(nodes: Nodes, ds: Dirs, h: nat, chain: seq<nat>)
    requires TreeOk(nodes, ds) && h in nodes
    ensures TreeOk(Rechained(nodes, h, chain), ds)
  {
    var ms := Rechained(nodes, h, chain);
    RechainLinked(nodes, ds, h, chain);
    assert DirsOk(ms, ds) by {
      forall x | x in ds
        ensures DirOk(ds[x], x, ms[x].parent)
      {
        assert DirOk(ds[x], x, nodes[x].parent);
      }
    }
  }

  lemma {:induction false} RechainCounts(nodes: Nodes, ds: Dirs, h: nat, chain: seq<nat>)
    requires TreeOk(nodes, ds) && CountsOk(nodes, ds) && h in nodes
    requires TreeOk(Rechained(nodes, h, chain), ds)
    ensures CountsOk(Rechained(nodes, h, chain), ds)
  {
    var ms := Rechained(nodes, h, chain);
    forall x | x in ds && x != 0
      ensures Counted(ms, ds, x)
    {
      assert Counted(nodes, ds, x) && Hangs(ms, ds, x);
    }
  }

  /** A cluster of zeros behind the last slot of directory `d`. */
  lemma {:induction false} PadImage(nodes: Nodes, b: Bytes, d: nat, chain: seq<nat>, n: nat)
    requires ImageOk(nodes, b) && d in nodes && nodes[d].isDir && |b[d]| % ENTRY_SIZE == 0
    ensures ImageOk(Rechained(nodes, d, chain), b[d := b[d] + Zeros(n)])
    ensures DirsIn(Rechained(nodes, d, chain), b[d := b[d] + Zeros(n)])
         == DirsIn(nodes, b)[d := DirsIn(nodes, b)[d] + seq(n / ENTRY_SIZE, _ => NO_ENTRY)]
  {
    hide Slots, Splice, Encode, CStr, LegalName, DirOk;
    var ds, ms, bs := DirsIn(nodes, b), Rechained(nodes, d, chain), b[d := b[d] + Zeros(n)];
    var z := seq(n / ENTRY_SIZE, _ => NO_ENTRY);
    SlotsAppend(b[d], Zeros(n));
    SlotsZeros(n);
    EmptyEntry();
    var es := ds[d := ds[d] + z];
    assert DirsIn(ms, bs) == es;
    PadKeeps(nodes, ds, d, z);
    PadCounts(nodes, ds, d, z);
    RechainTree(nodes, es, d, chain);
    RechainCounts(nodes, es, d, chain);
    forall h | h in ms && !ms[h].isDir
      ensures FileFits(ms, es, bs, h)
    {
      assert FileFits(nodes, ds, b, h) && Hangs(ms, es, h);
      assert nodes[h].parent == d ==> es[d][nodes[h].slot] == ds[d][nodes[h].slot];
    }
  }

  lemma {:induction false} EmptyEntry()
    ensures NO_ENTRY.Empty()
  {
  }

  // --- naming a node -----------------------------------------------------------------------

  lemma {:induction false} InsertDirsIn(nodes: Nodes, b: Bytes, d: nat, k: nat, e: DirEntry, h: nat, chain: seq<nat>,
                                        own: seq<Byte>)
    requires b.Keys == nodes.Keys && d in nodes && nodes[d].isDir && h !in nodes
    requires e.Valid() && k < |Slots(b[d])|
    ensures ENTRY_SIZE * (k + 1) <= |b[d]|
    ensures Put(b, d, k, e)[h := own].Keys == NodesWith(nodes, d, k, e, h, chain).Keys
    ensures DirsIn(NodesWith(nodes, d, k, e, h, chain), Put(b, d, k, e)[h := own])
         == DirsWith(DirsIn(nodes, b), d, k, e, h, if e.IsDir() then Slots(own) else [])
  {
    hide Slots, Splice, Encode, CStr;
    PutDirs(nodes, b, d, k, e);
    var ms, bs := NodesWith(nodes, d, k, e, h, chain), Put(b, d, k, e)[h := own];
    var es := DirsWith(DirsIn(nodes, b), d, k, e, h, if e.IsDir() then Slots(own) else []);
    forall x
      ensures x in DirsIn(ms, bs) <==> x in es
      ensures x in es ==> DirsIn(ms, bs)[x] == es[x]
    {
      assert x in nodes && x != h && nodes[x].isDir ==> DirsIn(nodes, Put(b, d, k, e))[x] == es[x];
    }
  }

  lemma {:induction false} InsertFiles(nodes: Nodes, ds: Dirs, b: Bytes, ms: Nodes, es: Dirs, bs: Bytes, d: nat, h: nat)
    requires b.Keys == nodes.Keys && bs.Keys == ms.Keys && h !in nodes && d in ds
    requires LinkedUp(nodes, ds) && LinkedUp(ms, es) && FilesOk(nodes, ds, b)
    requires ms.Keys == nodes.Keys + {h} && forall x :: x in nodes ==> ms[x] == nodes[x]
    requires forall x :: x in nodes && x != d ==> bs[x] == b[x]
    requires ds[d := es[d]].Keys <= es.Keys
    requires forall x :: x in ds && x != d ==> es[x] == ds[x]
    requires nodes[d].isDir && |es[d]| == |ds[d]|
    requires forall k :: 0 <= k < |ds[d]| && Live(ds[d][k]) ==> es[d][k] == ds[d][k]
    requires !ms[h].isDir ==> FileFits(ms, es, bs, h)
    ensures FilesOk(ms, es, bs)
  {
    forall x | x in ms && !ms[x].isDir
      ensures FileFits(ms, es, bs, x)
    {
      if x != h {
        assert FileFits(nodes, ds, b, x) && Hangs(ms, es, x);
      }
    }
  }

  lemma {:induction false} InsertFilesOk(nodes: Nodes, b: Bytes, d: nat, k: nat, e: DirEntry, h: nat, chain: seq<nat>,
                                         own: seq<Byte>, es: Dirs)
    requires b.Keys == nodes.Keys && d in nodes && nodes[d].isDir && h !in nodes && e.Valid()
    requires LinkedUp(nodes, DirsIn(nodes, b)) && FilesOk(nodes, DirsIn(nodes, b), b)
    requires k < |Slots(b[d])| && Slots(b[d])[k].Empty() && ENTRY_SIZE * (k + 1) <= |b[d]| && e.start == h
    requires es == DirsWith(DirsIn(nodes, b), d, k, e, h, if e.IsDir() then Slots(own) else [])
    requires LinkedUp(NodesWith(nodes, d, k, e, h, chain), es) && Hangs(NodesWith(nodes, d, k, e, h, chain), es, h)
    requires !e.IsDir() ==> e.size == 0 && own == Zeros(|own|)
    ensures Put(b, d, k, e)[h := own].Keys == NodesWith(nodes, d, k, e, h, chain).Keys
    ensures FilesOk(NodesWith(nodes, d, k, e, h, chain), es, Put(b, d, k, e)[h := own])
  {
    hide Slots, Splice, Encode, LinkedUp;
    InsertFiles(nodes, DirsIn(nodes, b), b, NodesWith(nodes, d, k, e, h, chain), es, Put(b, d, k, e)[h := own], d, h);
  }

  lemma {:induction false} HangsNow(nodes: Nodes, ds: Dirs, h: nat)
    requires LinkedUp(nodes, ds) && h in nodes && h != 0
    ensures Hangs(nodes, ds, h)
  {
  }

  lemma {:induction false} LegalIsLive(e: DirEntry)
    requires LegalName(e.Name())
    ensures Live(e)
  {
  }

  /** Node `h`, with bytes `own`, named by slot `k` of directory `d`. */
  lemma {:induction false} InsertImage(nodes: Nodes, b: Bytes, d: nat, k: nat, e: DirEntry, h: nat, chain: seq<nat>,
                                       own: seq<Byte>)
    requires ImageOk(nodes, b) && d in nodes && nodes[d].isDir
    requires e.Valid() && k < |Slots(b[d])| && Slots(b[d])[k].Empty()
    requires LegalName(e.Name()) && |e.Name()| < NAME_SIZE && e.Name() !in Names(Slots(b[d]))
    requires e.start == h && h != 0 && h !in nodes
    requires if e.IsDir() then FreshDir(Slots(own), h, d) && e.size == 2 else e.size == 0 && own == Zeros(|own|)
    ensures ENTRY_SIZE * (k + 1) <= |b[d]|
    ensures ImageOff(NodesWith(nodes, d, k, e, h, chain), Put(b, d, k, e)[h := own], d, 1)
  {
    hide Slots, Splice, Encode, AsMap, UniqueNames, FreshDir, Used, LegalName, Names, DirsOk, CountsOk, CountsOff, DirOk,
         LinkedUp, FilesOk, Hangs;
    var ds, ms, bs := DirsIn(nodes, b), NodesWith(nodes, d, k, e, h, chain), Put(b, d, k, e)[h := own];
    var dir := if e.IsDir() then Slots(own) else [];
    var es := DirsWith(ds, d, k, e, h, dir);
    InsertDirsIn(nodes, b, d, k, e, h, chain, own);
    InsertKeeps(nodes, ds, d, k, e, h, chain, dir);
    LegalIsLive(e);
    if e.IsDir() {
      FreshDirOk(dir, h, d);
    }
    InsertCounts(nodes, ds, d, k, e, h, chain, dir);
    HangsNow(ms, es, h);
    InsertFilesOk(nodes, b, d, k, e, h, chain, own, es);
  }

  /** Writing the corrected size into the entry of directory `d`. */
  lemma {:induction false} ResizeImage(nodes: Nodes, b: Bytes, d: nat, delta: int, e: DirEntry)
    requires ImageOff(nodes, b, d, delta) && d in nodes && nodes[d].isDir && d != 0
    requires Hangs(nodes, DirsIn(nodes, b), d) && e.Valid()
    requires e == EntryOf(nodes, DirsIn(nodes, b), d).(size := EntryOf(nodes, DirsIn(nodes, b), d).size + delta)
    ensures ENTRY_SIZE * (nodes[d].slot + 1) <= |b[nodes[d].parent]|
    ensures ImageOk(nodes, Put(b, nodes[d].parent, nodes[d].slot, e))
    ensures DirsIn(nodes, Put(b, nodes[d].parent, nodes[d].slot, e)) == Resized(nodes, DirsIn(nodes, b), d, e.size)
  {
    hide Slots, Splice, Encode, CStr, LegalName, DirOk;
    var ds, p, k := DirsIn(nodes, b), nodes[d].parent, nodes[d].slot;
    var bs, es := Put(b, p, k, e), Resized(nodes, ds, d, e.size);
    PutDirs(nodes, b, p, k, e);
    assert DirsIn(nodes, bs) == es;
    ResizeCounts(nodes, ds, d, delta, e.size);
    forall x | x in nodes && !nodes[x].isDir
      ensures FileFits(nodes, es, bs, x)
    {
      assert FileFits(nodes, ds, b, x) && Hangs(nodes, es, x);
      SlotsApart(nodes, ds, x, d);
    }
  }

  // --- removing and renaming a node --------------------------------------------------------

  lemma {:induction false} RemoveImage(nodes: Nodes, b: Bytes, h: nat)
    requires ImageOk(nodes, b) && Leaf(nodes, DirsIn(nodes, b), h) && Hangs(nodes, DirsIn(nodes, b), h)
    ensures NO_ENTRY.Valid() && ENTRY_SIZE * (nodes[h].slot + 1) <= |b[nodes[h].parent]|
    ensures nodes[h].parent in nodes - {h}
    ensures ImageOff(nodes - {h}, Put(b, nodes[h].parent, nodes[h].slot, NO_ENTRY) - {h}, nodes[h].parent, -1)
    ensures DirsIn(nodes - {h}, Put(b, nodes[h].parent, nodes[h].slot, NO_ENTRY) - {h})
         == DirsWithout(nodes, DirsIn(nodes, b), h, NO_ENTRY)
  {
    hide Slots, Splice, Encode, CStr, LegalName, DirOk;
    EncodeNoEntry();
    EmptyEntry();
    var ds, p, k := DirsIn(nodes, b), nodes[h].parent, nodes[h].slot;
    var ms, bs, es := nodes - {h}, Put(b, p, k, NO_ENTRY) - {h}, DirsWithout(nodes, ds, h, NO_ENTRY);
    PutDirs(nodes, b, p, k, NO_ENTRY);
    assert p != h by {
      assert Live(ds[p][k]);
    }
    assert DirsIn(ms, bs) == es;
    RemoveKeeps(nodes, ds, h, NO_ENTRY);
    RemoveCounts(nodes, ds, h, NO_ENTRY);
    forall x | x in ms && !ms[x].isDir
      ensures FileFits(ms, es, bs, x)
    {
      assert FileFits(nodes, ds, b, x) && Hangs(ms, es, x);
      SlotsApart(nodes, ds, x, h);
    }
  }

  lemma {:induction false} RenameImage(nodes: Nodes, b: Bytes, h: nat, name: seq<Byte>)
    requires ImageOk(nodes, b) && h in nodes && h != 0 && Hangs(nodes, DirsIn(nodes, b), h)
    requires |name| == NAME_SIZE && LegalName(CStr(name)) && |CStr(name)| < NAME_SIZE
    requires CStr(name) !in Names(DirsIn(nodes, b)[nodes[h].parent])
    ensures var e := EntryOf(nodes, DirsIn(nodes, b), h).(name := name);
            && e.Valid() && ENTRY_SIZE * (nodes[h].slot + 1) <= |b[nodes[h].parent]|
            && ImageOk(nodes, Put(b, nodes[h].parent, nodes[h].slot, e))
            && DirsIn(nodes, Put(b, nodes[h].parent, nodes[h].slot, e))
               == DirsIn(nodes, b)[nodes[h].parent := DirsIn(nodes, b)[nodes[h].parent][nodes[h].slot := e]]
  {
    hide Slots, Splice, Encode, DirOk;
    var ds, p, k := DirsIn(nodes, b), nodes[h].parent, nodes[h].slot;
    var e := EntryOf(nodes, ds, h).(name := name);
    var bs, es := Put(b, p, k, e), ds[p := ds[p][k := e]];
    PutDirs(nodes, b, p, k, e);
    RenameKeeps(nodes, ds, h, name);
    ReplaceCounts(nodes, ds, p, k, e);
    forall x | x in nodes && !nodes[x].isDir
      ensures FileFits(nodes, es, bs, x)
    {
      assert FileFits(nodes, ds, b, x) && Hangs(nodes, es, x);
      if x != h {
        SlotsApart(nodes, ds, x, h);
      }
    }
  }

  // --- the bytes and the size of a file -----------------------------------------------------

  lemma {:induction false} FileNotDir(nodes: Nodes, b: Bytes, h: nat, x: seq<Byte>)
    requires b.Keys == nodes.Keys && h in nodes && !nodes[h].isDir
    ensures DirsIn(nodes, b[h := x]) == DirsIn(nodes, b)
  {
  }

  /** Other bytes for a file, zero behind its end. */
  lemma {:induction false} RewriteImage(nodes: Nodes, b: Bytes, h: nat, x: seq<Byte>)
    requires ImageOk(nodes, b) && h in nodes && !nodes[h].isDir && Hangs(nodes, DirsIn(nodes, b), h)
    requires EntryOf(nodes, DirsIn(nodes, b), h).size <= |x|
    requires forall i :: EntryOf(nodes, DirsIn(nodes, b), h).size <= i < |x| ==> x[i] == NUL
    ensures ImageOk(nodes, b[h := x]) && DirsIn(nodes, b[h := x]) == DirsIn(nodes, b)
  {
    var ds := DirsIn(nodes, b);
    FileNotDir(nodes, b, h, x);
    forall f | f in nodes && !nodes[f].isDir
      ensures FileFits(nodes, ds, b[h := x], f)
    {
      assert FileFits(nodes, ds, b, f);
    }
  }

  /** A new size, not beyond the bytes, in the entry of a file. */
  lemma {:induction false} ResizeFile(nodes: Nodes, b: Bytes, h: nat, e: DirEntry)
    requires ImageOk(nodes, b) && h in nodes && !nodes[h].isDir && h != 0 && Hangs(nodes, DirsIn(nodes, b), h)
    requires e.Valid() && e == EntryOf(nodes, DirsIn(nodes, b), h).(size := e.size)
    requires e.size <= |b[h]| && forall i :: e.size <= i < |b[h]| ==> b[h][i] == NUL
    ensures ENTRY_SIZE * (nodes[h].slot + 1) <= |b[nodes[h].parent]|
    ensures ImageOk(nodes, Put(b, nodes[h].parent, nodes[h].slot, e))
    ensures DirsIn(nodes, Put(b, nodes[h].parent, nodes[h].slot, e)) == Resized(nodes, DirsIn(nodes, b), h, e.size)
  {
    var ds, p, k := DirsIn(nodes, b), nodes[h].parent, nodes[h].slot;
    var bs, es := Put(b, p, k, e), Resized(nodes, ds, h, e.size);
    PutDirs(nodes, b, p, k, e);
    assert DirsIn(nodes, bs) == es;
    ResizeKeeps(nodes, ds, h, e.size);
    ResizedCounts(nodes, ds, h, e.size);
    forall f | f in nodes && !nodes[f].isDir
      ensures FileFits(nodes, es, bs, f)
    {
      assert FileFits(nodes, ds, b, f) && Hangs(nodes, es, f);
      if f != h {
        SlotsApart(nodes, ds, f, h);
      }
    }
  }

  lemma {:induction false} ResizedCounts(nodes: Nodes, ds: Dirs, h: nat, size: nat)
    requires TreeOk(nodes, ds) && CountsOk(nodes, ds) && h in nodes && !nodes[h].isDir && h != 0 && Hangs(nodes, ds, h)
    requires TreeOk(nodes, Resized(nodes, ds, h, size))
    ensures CountsOk(nodes, Resized(nodes, ds, h, size))
  {
    var p, k, es := nodes[h].parent, nodes[h].slot, Resized(nodes, ds, h, size);
    UsedResize(ds[p], k, size);
    forall x | x in es && x != 0
      ensures Counted(nodes, es, x)
    {
      assert Counted(nodes, ds, x) && Hangs(nodes, es, x);
      SlotsApart(nodes, ds, x, h);
    }
  }
}
