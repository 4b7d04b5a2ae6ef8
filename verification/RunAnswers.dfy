/** Runs of file operations, told by the names in the directories: what each operation of a run comes to. */
module RunAnswers {
  import opened CText
  import opened DirEntries
  import opened Directory
  import opened Volumes
  import opened DiskLayout
  import opened ChainGrowth
  import opened FatVolume
  import opened FileTree
  import opened Catalogs
  import opened Images
  import opened PathNames
  import opened TreeWalk
  import opened FileEffects
  import opened VolumeOrder
  import opened FileOps
  import opened FileRemoval
  import opened FileRenaming
  import opened FileWrites
  import opened FileRuns
  import opened FileAnswers
  import opened DotSlots
  import opened Mounting

  /** The directory a path leads into, by its number. */
  ghost function DirOf(v: Vol, g: Catalog, root: DirEntry, front: seq<Text>): nat
    requires v.Valid() && ChainsOk(v.table, g) && Descend(BytesOf(v, g), root, front).Found?
  {
    Descend(BytesOf(v, g), root, front).e.start
  }

  /** The path leads into directory `p`, and a count there is noted where it belongs. */
  ghost predicate Into(v: Vol, g: Catalog, root: DirEntry, front: seq<Text>, name: Text, p: nat) {
    && LeadsInto(v, g, root, front, name) && v.Valid() && ChainsOk(v.table, g)
    && p == DirOf(v, g, root, front) && p in BytesOf(v, g) && (p == 0 || Named(front))
  }

  lemma {:induction false} StepParts(v: Vol, g: Catalog, root: DirEntry, op: Op, w: Vol, k: Catalog)
    requires RunStep(v, g, root, op, w, k)
    ensures Inv(v, g) && Inv(w, k) && v.Valid() && w.Valid() && ChainsOk(v.table, g) && ChainsOk(w.table, k)
    ensures Allowed(v, g, root, op) ==> Outcome(v, g, root, op, w, k)
  {
    hide ImageOk, ChainsOk, Allowed, Outcome;
  }

  /** A creation of a run that finds the name unused, and room, is carried out: the directory has exactly one name
      more, and it leads to a new node. */
  lemma {:induction false} MadeInRun(v: Vol, g: Catalog, root: DirEntry, front: seq<Text>, name: Text, isDirectory: bool,
                                     w: Vol, k: Catalog, p: nat)
    requires RunStep(v, g, root, Make(front + [name], false, isDirectory), w, k)
    requires Into(v, g, root, front, name, p) && |name| < NAME_SIZE
    requires name !in NamesIn(BytesOf(v, g), p) && Roomy(v, BytesOf(v, g), p)
    ensures w.Valid() && ChainsOk(w.table, k) && p in BytesOf(w, k)
    ensures NamesIn(BytesOf(w, k), p) == NamesIn(BytesOf(v, g), p) + {name}
    ensures NewUnder(g.nodes, k.nodes, BytesOf(w, k), p, name, isDirectory)
  {
    hide *;
    var op := Make(front + [name], false, isDirectory);
    StepParts(v, g, root, op, w, k);
    IntoParts(v, g, root, front, name, p);
    RoomyIsFree(v, BytesOf(v, g), p);
    MakeAllowed(v, g, root, front, name, isDirectory);
    var code := MakeCode(v, g, root, front + [name], isDirectory, w, k);
    CreateAnswers(v, g, root, front, name, isDirectory, code, k, BytesOf(w, k));
  }

  lemma {:induction false} IntoParts(v: Vol, g: Catalog, root: DirEntry, front: seq<Text>, name: Text, p: nat)
    requires Into(v, g, root, front, name, p)
    ensures LeadsInto(v, g, root, front, name) && v.Valid() && ChainsOk(v.table, g) && p in BytesOf(v, g)
    ensures Descend(BytesOf(v, g), root, front).Found? && p == Descend(BytesOf(v, g), root, front).e.start
    ensures Inv(v, g) && |name| <= NAME_SIZE
    ensures var (b, cs) := (BytesOf(v, g), front + [name]);
            && Components(cs) && cs != [] && BaseOf(cs, false) == name && cs[|cs| - 1] == name && cs[..|cs| - 1] == front
            && OffFiles(b, root, front) && OffFiles(b, root, cs) && CountsRight(b, root, Upper(cs)) && Named(cs)
  {
    hide Resolve, Descend, ChainsOk, ImageOk, LegalName, OffFiles;
    IntoFacts(v, g, root, front, name);
  }

  lemma {:induction false} RoomyIsFree(v: Vol, b: Bytes, p: nat)
    requires p in b && Roomy(v, b, p)
    ensures FreeSet(v.table) != {}
  {
  }

  lemma {:induction false} MakeAllowed(v: Vol, g: Catalog, root: DirEntry, front: seq<Text>, name: Text,
                                       isDirectory: bool)
    requires Inv(v, g) && v.Valid() && ChainsOk(v.table, g) && FreeSet(v.table) != {} && |name| < NAME_SIZE
    requires var (b, cs) := (BytesOf(v, g), front + [name]);
             Components(cs) && cs[..|cs| - 1] == front && OffFiles(b, root, front) && CountsRight(b, root, Upper(cs))
    ensures Allowed(v, g, root, Make(front + [name], false, isDirectory))
  {
    hide ImageOk, ChainsOk, OffFiles, CountsRight, CreateRefusal, FreeSet;
  }

  lemma {:induction false} MakeCode(v: Vol, g: Catalog, root: DirEntry, cs: seq<Text>, isDirectory: bool, w: Vol,
                                    k: Catalog)
    returns (code: int)
    requires Inv(v, g) && Inv(w, k) && w.Valid() && ChainsOk(w.table, k)
    requires Outcome(v, g, root, Make(cs, false, isDirectory), w, k)
    ensures CreateOutcome(v, g, root, cs, false, isDirectory, code, k, BytesOf(w, k))
  {
    hide CreateOutcome, ImageOk, ChainsOk;
    code :| CreateOutcome(v, g, root, cs, false, isDirectory, code, k, BytesOf(w, k));
  }

  /** A deletion of a run that finds a file to delete as a file, or a directory without names as a directory, is carried
      out: the directory has exactly one name less. */
  lemma {:induction false} RemovedInRun(v: Vol, g: Catalog, root: DirEntry, front: seq<Text>, name: Text,
                                        isDirectory: bool, w: Vol, k: Catalog, p: nat, e: DirEntry)
    requires RunStep(v, g, root, Remove(front + [name], false, isDirectory), w, k)
    requires Into(v, g, root, front, name, p) && name in NamesIn(BytesOf(v, g), p)
    requires name in AsMap(Slots(BytesOf(v, g)[p])) && AsMap(Slots(BytesOf(v, g)[p]))[name] == e
    requires e.IsDir() == isDirectory
    requires isDirectory ==> e.start in BytesOf(v, g) && NamesIn(BytesOf(v, g), e.start) == {DOT, DOTDOT}
    ensures w.Valid() && ChainsOk(w.table, k) && p in BytesOf(w, k)
    ensures NamesIn(BytesOf(w, k), p) == NamesIn(BytesOf(v, g), p) - {name} && e.start in g.nodes && e.start !in k.nodes
  {
    hide *;
    var op := Remove(front + [name], false, isDirectory);
    StepParts(v, g, root, op, w, k);
    IntoParts(v, g, root, front, name, p);
    RemoveAllowed(v, g, root, front, name, isDirectory);
    var code := RemoveCode(v, g, root, front + [name], isDirectory, w, k);
    DeleteAnswers(v, g, root, front, name, isDirectory, code, k, w);
  }

  lemma {:induction false} RemoveAllowed(v: Vol, g: Catalog, root: DirEntry, front: seq<Text>, name: Text,
                                         isDirectory: bool)
    requires Inv(v, g) && v.Valid() && ChainsOk(v.table, g) && |name| <= NAME_SIZE
    requires var (b, cs) := (BytesOf(v, g), front + [name]);
             Components(cs) && Named(cs) && OffFiles(b, root, cs) && CountsRight(b, root, Upper(cs))
    ensures Allowed(v, g, root, Remove(front + [name], false, isDirectory))
  {
    hide ImageOk, ChainsOk, OffFiles, CountsRight, DeleteRefusal;
  }

  lemma {:induction false} RemoveCode(v: Vol, g: Catalog, root: DirEntry, cs: seq<Text>, isDirectory: bool, w: Vol,
                                      k: Catalog)
    returns (code: int)
    requires Inv(v, g) && Inv(w, k) && Outcome(v, g, root, Remove(cs, false, isDirectory), w, k)
    ensures DeleteOutcome(v, g, root, cs, false, isDirectory, code, k, w)
  {
    hide DeleteOutcome, ImageOk, ChainsOk;
    code :| DeleteOutcome(v, g, root, cs, false, isDirectory, code, k, w);
  }

  /** A renaming of a run that finds the name, and the new one unused, is carried out: the directory has the new name
      instead, for the same node. */
  lemma {:induction false} MovedInRun(v: Vol, g: Catalog, root: DirEntry, front: seq<Text>, name: Text, renamed: Text,
                                      w: Vol, k: Catalog, p: nat)
    requires RunStep(v, g, root, Move(front + [name], false, renamed), w, k)
    requires LeadsInto(v, g, root, front, name) && v.Valid() && ChainsOk(v.table, g)
    requires p == DirOf(v, g, root, front) && p in BytesOf(v, g) && LegalName(renamed) && |renamed| < NAME_SIZE
    requires name in NamesIn(BytesOf(v, g), p) && renamed !in NamesIn(BytesOf(v, g), p)
    ensures w.Valid() && ChainsOk(w.table, k)
    ensures var (b, bs) := (BytesOf(v, g), BytesOf(w, k));
            && bs.Keys == b.Keys && (forall d :: d in b && d != p ==> bs[d] == b[d]) && name in AsMap(Slots(b[p]))
            && AsMap(Slots(bs[p])).Keys == AsMap(Slots(b[p])).Keys - {name} + {renamed}
            && AsMap(Slots(bs[p]))[renamed].start == AsMap(Slots(b[p]))[name].start
  {
    hide *;
    var op := Move(front + [name], false, renamed);
    StepParts(v, g, root, op, w, k);
    IntoFacts(v, g, root, front, name);
    DirOfIs(v, g, root, front);
    NamesInNames(BytesOf(v, g), p);
    MoveAllowed(v, g, root, front, name, renamed);
    var code := MoveCode(v, g, root, front + [name], renamed, w, k);
    RenameAnswers(v, g, root, front, name, renamed, code, BytesOf(w, k));
    var e := AsMap(Slots(BytesOf(v, g)[p]))[name];
    StartKept(e, Padded(renamed, NAME_SIZE));
    Replaced(AsMap(Slots(BytesOf(v, g)[p])), name, renamed, e.(name := Padded(renamed, NAME_SIZE)));
  }

  lemma {:induction false} StartKept(e: DirEntry, name: seq<Byte>)
    ensures e.(name := name).start == e.start
  {
  }

  lemma {:induction false} Replaced(m: map<seq<Byte>, DirEntry>, name: Text, renamed: Text, e: DirEntry)
    ensures var t := m - {name} + map[renamed := e];
            t.Keys == m.Keys - {name} + {renamed} && t[renamed] == e
  {
  }

  lemma {:induction false} MoveAllowed(v: Vol, g: Catalog, root: DirEntry, front: seq<Text>, name: Text, renamed: Text)
    requires Inv(v, g) && v.Valid() && ChainsOk(v.table, g) && |renamed| < NAME_SIZE
    requires LeadsInto(v, g, root, front, name) && Named(front + [name])
    ensures Allowed(v, g, root, Move(front + [name], false, renamed))
  {
    hide ImageOk, ChainsOk, OffFiles, RenameRefusal, Descend;
  }

  lemma {:induction false} MoveCode(v: Vol, g: Catalog, root: DirEntry, cs: seq<Text>, renamed: Text, w: Vol, k: Catalog)
    returns (code: int)
    requires Inv(v, g) && Inv(w, k) && w.Valid() && ChainsOk(w.table, k) && Outcome(v, g, root, Move(cs, false, renamed), w, k)
    ensures RenameOutcome(v, g, root, cs, false, renamed, code, BytesOf(w, k))
  {
    hide RenameOutcome, ImageOk, ChainsOk;
    code :| RenameOutcome(v, g, root, cs, false, renamed, code, BytesOf(w, k));
  }

  /** A write of a run to a regular file, if it is inside the file or there are clusters for it, is carried out: the data of
      the file are those from before with what was written laid over them. */
  lemma {:induction false} StoredInRun(v: Vol, g: Catalog, root: DirEntry, front: seq<Text>, name: Text, offset: nat,
                                       x: seq<Byte>, w: Vol, k: Catalog, p: nat, e: DirEntry)
    requires RunStep(v, g, root, Store(front + [name], offset, x), w, k) && offset + |x| < 0x1_0000_0000
    requires LeadsInto(v, g, root, front, name) && v.Valid() && ChainsOk(v.table, g)
    requires p == DirOf(v, g, root, front) && p in BytesOf(v, g) && name in NamesIn(BytesOf(v, g), p)
    requires name in AsMap(Slots(BytesOf(v, g)[p])) && AsMap(Slots(BytesOf(v, g)[p]))[name] == e && !e.IsDir()
    requires e.start in g.nodes && WriteFits(v, g.nodes[e.start].chain, e.size, offset + |x|)
    ensures w.Valid() && ChainsOk(w.table, k)
    ensures var (b, bs) := (BytesOf(v, g), BytesOf(w, k));
            && e.start in k.nodes && e.size <= |b[e.start]| && Hangs(k.nodes, DirsIn(k.nodes, bs), e.start)
            && EntryOf(k.nodes, DirsIn(k.nodes, bs), e.start).size <= |bs[e.start]|
            && FileData(k.nodes, bs, e.start) == Overlay(b[e.start][..e.size], offset, x)
  {
    hide *;
    var op := Store(front + [name], offset, x);
    StepParts(v, g, root, op, w, k);
    IntoFacts(v, g, root, front, name);
    DirOfIs(v, g, root, front);
    NameLeads(v, g, root, front, name);
    FileEntry(g.nodes, BytesOf(v, g), e, p);
    StoreAllowed(v, g, root, front, name, offset, x, e);
    StoreData(v, g, root, front + [name], offset, x, w, k, e);
  }

  lemma {:induction false} DirOfIs(v: Vol, g: Catalog, root: DirEntry, front: seq<Text>)
    requires v.Valid() && ChainsOk(v.table, g) && Descend(BytesOf(v, g), root, front).Found?
    ensures DirOf(v, g, root, front) == Descend(BytesOf(v, g), root, front).e.start
  {
  }

  lemma {:induction false} FileEntry(nodes: Nodes, b: Bytes, e: DirEntry, p: nat)
    requires ImageOk(nodes, b) && p in b && nodes[p].isDir && e.start in nodes && nodes[e.start].parent == p && e.Valid()
    requires nodes[e.start].slot < |Slots(b[p])| && Slots(b[p])[nodes[e.start].slot] == e && e.start != p && !e.IsDir()
    ensures b.Keys == nodes.Keys && Hangs(nodes, DirsIn(nodes, b), e.start)
    ensures EntryOf(nodes, DirsIn(nodes, b), e.start) == e
  {
    hide CountsOk, FilesOk, Slots;
    OkHasTree(nodes, b);
    RootIsDir(nodes, DirsIn(nodes, b));
    assert e.start != 0 ==> Hangs(nodes, DirsIn(nodes, b), e.start);
  }

  lemma {:induction false} StoreAllowed(v: Vol, g: Catalog, root: DirEntry, front: seq<Text>, name: Text, offset: nat,
                                        x: seq<Byte>, e: DirEntry)
    requires Inv(v, g) && v.Valid() && ChainsOk(v.table, g) && LeadsInto(v, g, root, front, name)
    requires offset + |x| < 0x1_0000_0000 && OffFiles(BytesOf(v, g), root, front + [name])
    requires Resolve(BytesOf(v, g), root, front + [name]) == Found(e) && !e.IsDir()
    ensures Allowed(v, g, root, Store(front + [name], offset, x))
  {
    hide ImageOk, ChainsOk, OffFiles, Resolve, Descend;
  }

  lemma {:induction false} StoreData(v: Vol, g: Catalog, root: DirEntry, cs: seq<Text>, offset: nat, x: seq<Byte>, w: Vol,
                                     k: Catalog, e: DirEntry)
    requires Inv(v, g) && Inv(w, k) && v.Valid() && w.Valid() && ChainsOk(v.table, g) && ChainsOk(w.table, k)
    requires Outcome(v, g, root, Store(cs, offset, x), w, k) && Resolve(BytesOf(v, g), root, cs) == Found(e)
    requires e.start in g.nodes && WriteFits(v, g.nodes[e.start].chain, e.size, offset + |x|)
    requires Hangs(g.nodes, DirsIn(g.nodes, BytesOf(v, g)), e.start)
    requires EntryOf(g.nodes, DirsIn(g.nodes, BytesOf(v, g)), e.start) == e
    ensures var (b, bs) := (BytesOf(v, g), BytesOf(w, k));
            && e.start in k.nodes && e.size <= |b[e.start]| && Hangs(k.nodes, DirsIn(k.nodes, bs), e.start)
            && EntryOf(k.nodes, DirsIn(k.nodes, bs), e.start).size <= |bs[e.start]|
            && FileData(k.nodes, bs, e.start) == Overlay(b[e.start][..e.size], offset, x)
  {
    hide *;
    StoreOutcome(v, g, root, cs, offset, x, w, k, e);
    WrittenData(g.nodes, BytesOf(v, g), k.nodes, BytesOf(w, k), e, offset, x);
  }

  lemma {:induction false} StoreOutcome(v: Vol, g: Catalog, root: DirEntry, cs: seq<Text>, offset: nat, x: seq<Byte>,
                                        w: Vol, k: Catalog, e: DirEntry)
    requires Inv(v, g) && Inv(w, k) && v.Valid() && w.Valid() && ChainsOk(v.table, g) && ChainsOk(w.table, k)
    requires Outcome(v, g, root, Store(cs, offset, x), w, k) && Resolve(BytesOf(v, g), root, cs) == Found(e)
    requires e.start in g.nodes && WriteFits(v, g.nodes[e.start].chain, e.size, offset + |x|)
    ensures WriteOutcome(g.nodes, BytesOf(v, g), k.nodes, BytesOf(w, k), e.start, offset, x, |x|)
  {
    hide ImageOk, ChainsOk, Resolve, WriteFits, WriteOutcome;
  }

  lemma {:induction false} WrittenData(nodes: Nodes, b: Bytes, ms: Nodes, bs: Bytes, e: DirEntry, offset: nat,
                                       x: seq<Byte>)
    requires WriteOutcome(nodes, b, ms, bs, e.start, offset, x, |x|) && e.start in nodes && b.Keys == nodes.Keys
    requires Hangs(nodes, DirsIn(nodes, b), e.start) && EntryOf(nodes, DirsIn(nodes, b), e.start) == e
    ensures bs.Keys == ms.Keys && e.start in ms && e.size <= |b[e.start]| && Hangs(ms, DirsIn(ms, bs), e.start)
    ensures EntryOf(ms, DirsIn(ms, bs), e.start).size <= |bs[e.start]|
    ensures FileData(ms, bs, e.start) == Overlay(b[e.start][..e.size], offset, x)
  {
    hide ImageOk, Overlay, Slots;
  }

  // --- the first file of all ---------------------------------------------------------------

  lemma {:induction false} FormattedRoot(v: Vol)
    requires Formatted(v) && ChainsOk(v.table, ROOT_ONLY)
    ensures 0 in BytesOf(v, ROOT_ONLY) && BytesOf(v, ROOT_ONLY)[0] == Zeros(v.bpc) && v.bpc >= ENTRY_SIZE
  {
    hide ChainsOk;
    assert Content(v, [0]) == Upto(v, [0], 0) + v.data[0] == Zeros(v.bpc);
    assert 0 in ROOT_ONLY.nodes;
  }

  lemma {:induction false} ZerosNameNothing(n: nat)
    requires n >= ENTRY_SIZE
    ensures Names(Slots(Zeros(n))) == {} && |Slots(Zeros(n))| > 0 && Slots(Zeros(n))[0].Empty()
  {
    SlotsZeros(n);
    EmptyEntry();
  }

  lemma {:induction false} FormattedFree(v: Vol)
    requires Formatted(v) && |v.table| > 2
    ensures |FreeSet(v.table)| >= 1
  {
    assert 2 in FreeSet(v.table);
    SomeFree(FreeSet(v.table), 2);
  }

  lemma {:induction false} FormattedRoom(v: Vol)
    requires Formatted(v) && |v.table| > 2 && v.Valid() && ChainsOk(v.table, ROOT_ONLY)
    ensures var b := BytesOf(v, ROOT_ONLY);
            0 in b && NamesIn(b, 0) == {} && Roomy(v, b, 0)
  {
    hide Formatted, ChainsOk, BytesOf, Slots, Names, FreeSet, Zeros;
    FormattedRoot(v);
    ZerosNameNothing(v.bpc);
    FormattedFree(v);
  }

  lemma {:induction false} SomeFree(s: set<nat>, c: nat)
    requires c in s
    ensures |s| >= 1
  {
  }

  /** On a formatted volume, whatever legal name of at most ten characters is created first is created. */
  lemma {:induction false} FirstIsMade(states: seq<Snapshot>, root: DirEntry, ops: seq<Op>, name: Text, isDirectory: bool)
    requires |states| > 1 && Trace(states, root, ops) && ops != [] && ops[0] == Make([name], false, isDirectory)
    requires Formatted(states[0].v) && |states[0].v.table| > 2 && states[0].v.bpc < 0x20000 && states[0].g == ROOT_ONLY
    requires root.IsDir() && root.start == 0 && LegalName(name) && |name| < NAME_SIZE
    ensures states[1].v.Valid() && ChainsOk(states[1].v.table, states[1].g)
    ensures var bs := BytesOf(states[1].v, states[1].g);
            0 in bs && NamesIn(bs, 0) == {name} && NewUnder(ROOT_ONLY.nodes, states[1].g.nodes, bs, 0, name, isDirectory)
  {
    hide *;
    FirstStep(states, root, ops);
    var v := states[0].v;
    StepParts(v, ROOT_ONLY, root, ops[0], states[1].v, states[1].g);
    FormattedRoom(v);
    LegalComponent(name);
    assert [] + [name] == [name];
    RootInto(v, root, name);
    MadeInRun(v, ROOT_ONLY, root, [], name, isDirectory, states[1].v, states[1].g, 0);
  }

  lemma {:induction false} FirstStep(states: seq<Snapshot>, root: DirEntry, ops: seq<Op>)
    requires Trace(states, root, ops) && ops != []
    ensures |states| > 1 && RunStep(states[0].v, states[0].g, root, ops[0], states[1].v, states[1].g)
  {
  }

  lemma {:induction false} RootInto(v: Vol, root: DirEntry, name: Text)
    requires Inv(v, ROOT_ONLY) && v.Valid() && ChainsOk(v.table, ROOT_ONLY) && v.bpc < 0x20000
    requires root.IsDir() && root.start == 0 && LegalName(name) && |name| < NAME_SIZE && Components([name])
    ensures Into(v, ROOT_ONLY, root, [], name, 0)
  {
    hide ImageOk, ChainsOk, LegalName;
    assert [] + [name] == [name];
    RootDescends(BytesOf(v, ROOT_ONLY), root);
  }

  lemma {:induction false} LegalComponent(name: Text)
    requires LegalName(name)
    ensures Component(name) && Components([name])
  {
    assert forall i :: 0 <= i < |name| ==> LegalChar(name[i]) && name[i] != '/';
  }

  /** A formatted disk is mounted, a file or directory made in its root, and the disk is mounted again: there it is. */
  method FirstSession(image: seq<Byte>, name: Text, isDirectory: bool) returns (again: Volume?, ghost k: Catalog)
    requires Bootable(image) && Word(image, 510) == SIGNATURE
    requires var g := GeometryOf(image[..SECTOR]);
             g.Valid() && Formatted(Vol(g.Bpc(), TableOn(g, image), ClustersOn(g, image)))
    requires LegalName(name) && |name| < NAME_SIZE
    ensures again != null && again.Valid() && Inv(again.V(), k) && again.V().Valid() && ChainsOk(again.V().table, k)
    ensures 0 in BytesOf(again.V(), k) && NamesIn(BytesOf(again.V(), k), 0) == {name}
    ensures NewUnder(ROOT_ONLY.nodes, k.nodes, BytesOf(again.V(), k), 0, name, isDirectory)
  {
    hide Inv, Formatted, NamesIn, NewUnder, LegalName, ImageOk, ChainsOk, RunStep;
    var ops := [Make([name], false, isDirectory)];
    var vol;
    ghost var states;
    vol, again, states := Session(image, ops);
    FirstIsMade(states, RootEntry(vol.g.rootEntries), ops, name, isDirectory);
    k := states[1].g;
  }
}
