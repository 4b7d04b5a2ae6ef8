/** Runs of file operations, from a formatted disk to the next mount: whatever is asked for in whatever order, the
    accounting holds, and the disk can be mounted again. */
module FileRuns {
  import opened CText
  import opened DirEntries
  import opened Directory
  import opened FatTable
  import opened Volumes
  import opened DiskLayout
  import opened ChainGrowth
  import opened FatVolume
  import opened FileTree
  import opened Catalogs
  import opened Images
  import opened PathNames
  import opened TreeWalk
  import opened FileEffects
  import opened VolumeOrder
  import opened FileOps
  import opened DeleteSteps
  import opened FileRemoval
  import opened FileRenaming
  import opened FileWrites
  import opened Mounting

  datatype Op =
    | Make(cs: seq<Text>, slash: bool, isDirectory: bool)
    | Remove(cs: seq<Text>, slash: bool, isDirectory: bool)
    | Move(cs: seq<Text>, slash: bool, name: Text)
    | Store(cs: seq<Text>, offset: nat, data: seq<Byte>)
  {
    /** The path is one without empty components. */
    predicate Plain() {
      Components(cs) && (!Store? && slash ==> cs != [])
    }
  }

  /** What the operation did, if it was carried out. */
  ghost predicate Outcome(v: Vol, g: Catalog, root: DirEntry, op: Op, w: Vol, k: Catalog)
    requires Inv(v, g) && Inv(w, k)
  {
    match op
    case Make(cs, slash, d) => exists code: int :: CreateOutcome(v, g, root, cs, slash, d, code, k, BytesOf(w, k))
    case Remove(cs, slash, d) => exists code: int :: DeleteOutcome(v, g, root, cs, slash, d, code, k, w)
    case Move(cs, slash, name) =>
      k == g && exists code: int :: RenameOutcome(v, g, root, cs, slash, name, code, BytesOf(w, k))
    case Store(cs, o, x) =>
      var file := Resolve(BytesOf(v, g), root, cs);
      && file.Found? && file.e.start in g.nodes
      && var r := if WriteFits(v, g.nodes[file.e.start].chain, file.e.size, o + |x|) then |x| else -1;
         WriteOutcome(g.nodes, BytesOf(v, g), k.nodes, BytesOf(w, k), file.e.start, o, x, r)
  }

  /** When an operation is carried out: whenever it is refused by its own checks, and else only if it keeps the
      invariant. Behind a slash nothing is deleted. A new node needs a free entry and a name of at most ten
      characters, no path leads into a regular file, the directory counted in is the root or is not reached by a dot
      slot, no dot slot is removed or renamed, and a file to write is there. */
  ghost predicate Allowed(v: Vol, g: Catalog, root: DirEntry, op: Op)
    requires Inv(v, g)
  {
    var b := BytesOf(v, g);
    && op.Plain()
    && match op
       case Make(cs, slash, d) =>
         && Creatable(v, g, root, cs, slash)
         && (CreateRefusal(b, root, cs, slash) == 0 ==> CountsRight(b, root, Upper(cs)))
       case Remove(cs, slash, d) =>
         && |BaseOf(cs, slash)| <= NAME_SIZE && OffFiles(b, root, cs)
         && DeleteKeeps(v, g, root, cs, slash, d) && (slash ==> DeleteRefusal(b, root, cs, d) != 0)
       case Move(cs, slash, name) =>
         (slash ==> OffFiles(b, root, cs)) && RenamingKeeps(b, root, cs, slash, name)
       case Store(cs, o, x) =>
         && cs != [] && o + |x| < 0x1_0000_0000 && OffFiles(b, root, cs)
         && Resolve(b, root, cs).Found? && !Resolve(b, root, cs).e.IsDir()
  }

  /** One step of a run: both states in order, and between them the outcome if the operation was allowed, and
      nothing at all if not. */
  ghost predicate RunStep(v: Vol, g: Catalog, root: DirEntry, op: Op, w: Vol, k: Catalog) {
    && Inv(v, g) && Inv(w, k)
    && if Allowed(v, g, root, op) then Outcome(v, g, root, op, w, k) else w == v && k == g
  }

  lemma {:induction false} BlockLimit(vol: Volume)
    requires vol.Valid()
    ensures vol.V().bpc < 0x20000
  {
  }

  /** Whether what the path resolves to, if anything, is found in a directory. */
  method LeadsThroughDirectories(vol: Volume, cs: seq<Text>, ghost v: Vol, ghost g: Catalog) returns (ok: bool)
    requires vol.Valid() && vol.V() == v && Inv(v, g) && Components(cs) && vol.g.rootEntries < 0x10000
    ensures ok <==> OffFiles(BytesOf(v, g), RootEntry(vol.g.rootEntries), cs)
  {
    hide ImageOk, ChainsOk, Resolve, TreeOk;
    InvWalks(v, g);
    var e := FindPath(vol, Join(cs), g, cs);
    if cs == [] || e.Missing? {
      return true;
    }
    var up := FindPath(vol, Join(cs[..|cs| - 1]), g, cs[..|cs| - 1]);
    ok := up.Found? && up.e.IsDir();
  }

  /** Whether a count in the directory of path `cs` is noted where it belongs. */
  method CountIsRight(vol: Volume, cs: seq<Text>, ghost v: Vol, ghost g: Catalog) returns (ok: bool)
    requires vol.Valid() && vol.V() == v && Inv(v, g) && Components(cs) && vol.g.rootEntries < 0x10000
    ensures ok <==> CountsRight(BytesOf(v, g), RootEntry(vol.g.rootEntries), cs)
  {
    hide ImageOk, ChainsOk, Resolve, TreeOk;
    InvWalks(v, g);
    var up := FindPath(vol, Join(cs), g, cs);
    ok := up.Missing? || up.e.start == 0 || Named(cs);
  }

  /** The entries an open file is known by are those of a node and of the directory it is in. */
  lemma {:induction false} FoundHandle(v: Vol, g: Catalog, root: DirEntry, cs: seq<Text>, e: DirEntry, p: DirEntry)
    requires Inv(v, g) && v.bpc < 0x20000 && Components(cs) && root.IsDir() && root.start == 0 && cs != []
    requires OffFiles(BytesOf(v, g), root, cs) && Resolve(BytesOf(v, g), root, cs) == Found(e) && e.Valid() && !e.IsDir()
    requires Resolve(BytesOf(v, g), root, cs[..|cs| - 1]) == Found(p)
    ensures Handle(v, g, e, p)
  {
    hide ChainsOk, Resolve, Descend, OffFiles, Find, Slots, CountsOk, FilesOk;
    TargetFound(v, g, root, cs, 0);
  }

  /** Writing the file a path names. */
  method StoreFile(vol: Volume, cs: seq<Text>, offset: nat, data: seq<Byte>, ghost v: Vol, ghost g: Catalog)
    returns (done: bool, ghost k: Catalog)
    requires vol.Valid() && vol.V() == v && Inv(v, g) && vol.g.rootEntries < 0x10000 && v.bpc < 0x20000
    requires Components(cs) && cs != [] && offset + |data| < 0x1_0000_0000
    requires OffFiles(BytesOf(v, g), RootEntry(vol.g.rootEntries), cs)
    modifies vol`disk, vol.fat
    ensures vol.Valid() && Inv(vol.V(), k)
    ensures !done ==> k == g && vol.V() == v
    ensures done <==> Allowed(v, g, RootEntry(vol.g.rootEntries), Store(cs, offset, data))
    ensures done ==> Outcome(v, g, RootEntry(vol.g.rootEntries), Store(cs, offset, data), vol.V(), k)
  {
    hide ImageOk, ChainsOk, Resolve, Handle, WriteOutcome, WriteFits, TreeOk;
    InvWalks(v, g);
    var file := FindPath(vol, Join(cs), g, cs);
    var up := FindPath(vol, Join(cs[..|cs| - 1]), g, cs[..|cs| - 1]);
    if file.Missing? || file.e.IsDir() {
      return false, g;
    }
    FoundHandle(v, g, RootEntry(vol.g.rootEntries), cs, file.e, up.e);
    var r, after;
    r, after, k := WriteFile(vol, file.e, up.e, offset, data, v, g);
    done := true;
  }

  /** Whether a creation goes on. */
  method MayMake(vol: Volume, cs: seq<Text>, slash: bool, isDirectory: bool, ghost v: Vol, ghost g: Catalog)
    returns (ok: bool)
    requires vol.Valid() && vol.V() == v && Inv(v, g) && vol.g.rootEntries < 0x10000 && v.bpc < 0x20000
    requires Components(cs) && (slash ==> cs != [])
    ensures ok <==> Allowed(v, g, RootEntry(vol.g.rootEntries), Make(cs, slash, isDirectory))
  {
    hide ImageOk, ChainsOk, Resolve, OffFiles, CreateRefusal, CountsRight, ParentIs, TreeOk, Slots, Names, BaseName,
         ParentPath, Spelled, LegalName;
    SplitSpelled(cs, slash);
    if |BaseOf(cs, slash)| > NAME_SIZE {
      return false;
    }
    if cs != [] && !slash {
      var off := LeadsThroughDirectories(vol, cs[..|cs| - 1], v, g);
      if !off {
        return false;
      }
    }
    var path := Spelled(cs, slash);
    var refusal, parent := CheckCreate(vol, BaseName(path), ParentPath(path), v, g, cs, slash);
    if refusal != 0 {
      return true;
    }
    var free := vol.FindFree();
    var right := CountIsRight(vol, Upper(cs), v, g);
    AnyFree(v.table);
    ok := free != -1 && |cs[|cs| - 1]| < NAME_SIZE && right;
  }

  lemma {:induction false} MadeInOrder(v: Vol, g: Catalog, root: DirEntry, cs: seq<Text>, slash: bool, isDirectory: bool)
    requires Inv(v, g) && Allowed(v, g, root, Make(cs, slash, isDirectory))
    ensures Creatable(v, g, root, cs, slash) && CreateKeeps(v, g, root, cs, slash)
  {
  }

  /** Creating, if it keeps the invariant. */
  method MakeNode(vol: Volume, cs: seq<Text>, slash: bool, isDirectory: bool, ghost v: Vol, ghost g: Catalog)
    returns (ghost k: Catalog)
    requires vol.Valid() && vol.V() == v && Inv(v, g) && vol.g.rootEntries < 0x10000 && v.bpc < 0x20000
    requires Components(cs) && (slash ==> cs != [])
    modifies vol`disk, vol.fat
    ensures vol.Valid() && RunStep(v, g, RootEntry(vol.g.rootEntries), Make(cs, slash, isDirectory), vol.V(), k)
  {
    hide Inv, Allowed, CreateOutcome, Creatable, CreateKeeps, InOrder, Spelled, ImageOk, ChainsOk;
    k := g;
    var may := MayMake(vol, cs, slash, isDirectory, v, g);
    if may {
      MadeInOrder(v, g, RootEntry(vol.g.rootEntries), cs, slash, isDirectory);
      var code;
      code, k := Create(vol, Spelled(cs, slash), isDirectory, v, g, cs, slash);
    }
  }

  /** Whether a deletion goes on. */
  method MayRemove(vol: Volume, cs: seq<Text>, slash: bool, isDirectory: bool, ghost v: Vol, ghost g: Catalog)
    returns (ok: bool)
    requires vol.Valid() && vol.V() == v && Inv(v, g) && vol.g.rootEntries < 0x10000 && v.bpc < 0x20000
    requires Components(cs) && (slash ==> cs != [])
    ensures ok <==> Allowed(v, g, RootEntry(vol.g.rootEntries), Remove(cs, slash, isDirectory))
  {
    hide ImageOk, ChainsOk, Resolve, OffFiles, CountsRight, TreeOk, Slots, Names, Harmless;
    InvWalks(v, g);
    if |BaseOf(cs, slash)| > NAME_SIZE {
      return false;
    }
    ok := LeadsThroughDirectories(vol, cs, v, g);
    var found := FindPath(vol, Join(cs), g, cs);
    ResolveError(BytesOf(v, g), RootEntry(vol.g.rootEntries), cs);
    if ok && found.Found? {
      var refusal := CheckDelete(found.e, isDirectory);
      var right := CountIsRight(vol, Upper(cs), v, g);
      ok := refusal != 0 || (!slash && Named(cs) && right);
    }
  }

  lemma {:induction false} RemovedInOrder(v: Vol, g: Catalog, root: DirEntry, cs: seq<Text>, slash: bool,
                                          isDirectory: bool)
    requires Inv(v, g) && Allowed(v, g, root, Remove(cs, slash, isDirectory))
    ensures |BaseOf(cs, slash)| <= NAME_SIZE && OffFiles(BytesOf(v, g), root, cs)
    ensures DeleteKeeps(v, g, root, cs, slash, isDirectory)
    ensures slash ==> DeleteRefusal(BytesOf(v, g), root, cs, isDirectory) != 0
  {
    hide Harmless, CountsRight, OffFiles, Resolve;
  }

  /** Deleting, if it keeps the invariant. */
  method RemoveNode(vol: Volume, cs: seq<Text>, slash: bool, isDirectory: bool, ghost v: Vol, ghost g: Catalog)
    returns (ghost k: Catalog)
    requires vol.Valid() && vol.V() == v && Inv(v, g) && vol.g.rootEntries < 0x10000 && v.bpc < 0x20000
    requires Components(cs) && (slash ==> cs != [])
    modifies vol`disk, vol.fat
    ensures vol.Valid() && RunStep(v, g, RootEntry(vol.g.rootEntries), Remove(cs, slash, isDirectory), vol.V(), k)
  {
    hide Inv, Allowed, DeleteOutcome, DeleteKeeps, OffFiles, DeleteRefusal, InOrder, Spelled, ImageOk, ChainsOk;
    k := g;
    var may := MayRemove(vol, cs, slash, isDirectory, v, g);
    if may {
      RemovedInOrder(v, g, RootEntry(vol.g.rootEntries), cs, slash, isDirectory);
      var code;
      code, k := Delete(vol, Spelled(cs, slash), isDirectory, v, g, cs, slash);
    }
  }

  /** Whether the old name is in a slot of the directory taken for the parent. */
  method SlotThere(vol: Volume, e: DirEntry, up: DirEntry, ghost v: Vol, ghost g: Catalog) returns (found: bool)
    requires vol.Valid() && vol.V() == v && ChainsOk(v.table, g) && up.start in g.nodes
    ensures found <==> RenameSlot(BytesOf(v, g), up, e) < |Slots(BytesOf(v, g)[up.start])|
  {
    hide Slots, Find, LocatedAt, IsChain;
    ChainOf(v.table, g, up.start);
    var c, j, dir;
    ghost var i;
    found, c, j, dir, i := vol.Locate(e.Name(), true, up.start, v, g.nodes[up.start].chain);
  }

  lemma {:induction false} RenamingDir(nodes: Nodes, b: Bytes, root: DirEntry, cs: seq<Text>, slash: bool, e: DirEntry,
                                       up: DirEntry)
    requires Renaming(nodes, b, root, cs, slash, e, up)
    ensures up.start in nodes
  {
  }

  /** Whether a renaming goes on. */
  method MayMove(vol: Volume, cs: seq<Text>, slash: bool, name: Text, ghost v: Vol, ghost g: Catalog) returns (ok: bool)
    requires vol.Valid() && vol.V() == v && Inv(v, g) && vol.g.rootEntries < 0x10000 && v.bpc < 0x20000
    requires Components(cs) && (slash ==> cs != [])
    ensures ok <==> Allowed(v, g, RootEntry(vol.g.rootEntries), Move(cs, slash, name))
  {
    hide ImageOk, ChainsOk, Resolve, RenameRefusal, TreeOk, Slots, Names, LegalName, OffFiles, Renaming, RenameSlot, Spelled;
    InvWalks(v, g);
    if slash {
      var off := LeadsThroughDirectories(vol, cs, v, g);
      if !off {
        return false;
      }
    }
    var refusal, e, parent := CheckRename(vol, Spelled(cs, slash), name, v, g, cs, slash);
    if refusal != 0 || (!slash && Named(cs) && |name| < NAME_SIZE) {
      return true;
    }
    RenamingDir(g.nodes, BytesOf(v, g), RootEntry(vol.g.rootEntries), cs, slash, e, parent);
    var there := SlotThere(vol, e, parent, v, g);
    ok := !there;
  }

  lemma {:induction false} MovedInOrder(v: Vol, g: Catalog, root: DirEntry, cs: seq<Text>, slash: bool, name: Text)
    requires Inv(v, g) && Allowed(v, g, root, Move(cs, slash, name))
    ensures (slash ==> OffFiles(BytesOf(v, g), root, cs)) && RenamingKeeps(BytesOf(v, g), root, cs, slash, name)
  {
  }

  /** Renaming, if it keeps the invariant. */
  method MoveNode(vol: Volume, cs: seq<Text>, slash: bool, name: Text, ghost v: Vol, ghost g: Catalog)
    requires vol.Valid() && vol.V() == v && Inv(v, g) && vol.g.rootEntries < 0x10000 && v.bpc < 0x20000
    requires Components(cs) && (slash ==> cs != [])
    modifies vol`disk, vol.fat
    ensures vol.Valid() && RunStep(v, g, RootEntry(vol.g.rootEntries), Move(cs, slash, name), vol.V(), g)
  {
    hide Inv, Allowed, RenameOutcome, RenamingKeeps, OffFiles, InOrder, Spelled, ImageOk, ChainsOk;
    var may := MayMove(vol, cs, slash, name, v, g);
    if may {
      MovedInOrder(v, g, RootEntry(vol.g.rootEntries), cs, slash, name);
      var code := Rename(vol, Spelled(cs, slash), name, v, g, cs, slash);
    }
  }

  /** One operation, if it is allowed. */
  method Apply(vol: Volume, op: Op, ghost v: Vol, ghost g: Catalog) returns (ghost k: Catalog)
    requires vol.Valid() && vol.V() == v && Inv(v, g) && vol.g.rootEntries < 0x10000
    modifies vol`disk, vol.fat
    ensures vol.Valid() && RunStep(v, g, RootEntry(vol.g.rootEntries), op, vol.V(), k)
  {
    hide ImageOk, ChainsOk, Resolve, OffFiles, Handle, Outcome, TreeOk, Creatable, CreateRefusal, DeleteRefusal,
         RenameRefusal, CountsRight, Inv, InOrder, CreateKeeps, DeleteKeeps, RenamingKeeps;
    k := g;
    BlockLimit(vol);
    if !op.Plain() {
      return;
    }
    match op {
      case Make(cs, slash, d) =>
        k := MakeNode(vol, cs, slash, d, v, g);
      case Remove(cs, slash, d) =>
        k := RemoveNode(vol, cs, slash, d, v, g);
      case Move(cs, slash, name) =>
        MoveNode(vol, cs, slash, name, v, g);
      case Store(cs, offset, data) =>
        if cs != [] && offset + |data| < 0x1_0000_0000 {
          var ok := LeadsThroughDirectories(vol, cs, v, g);
          if ok {
            var done;
            done, k := StoreFile(vol, cs, offset, data, v, g);
          }
        }
    }
  }

  datatype Snapshot = Snapshot(v: Vol, g: Catalog)

  ghost predicate Trace(states: seq<Snapshot>, root: DirEntry, ops: seq<Op>) {
    && |states| == |ops| + 1
    && forall i {:trigger ops[i]} :: 0 <= i < |ops| ==>
         RunStep(states[i].v, states[i].g, root, ops[i], states[i + 1].v, states[i + 1].g)
  }

  /** Any run, from any volume in order, stays in order step by step: nothing is leaked or cross-linked, the tree
      and the counts are right, and RAM and disk agree. */
  method Run(vol: Volume, ops: seq<Op>, ghost v: Vol, ghost g: Catalog) returns (ghost states: seq<Snapshot>)
    requires vol.Valid() && vol.V() == v && Inv(v, g) && vol.g.rootEntries < 0x10000
    modifies vol`disk, vol.fat
    ensures vol.Valid() && Trace(states, RootEntry(vol.g.rootEntries), ops)
    ensures states[0] == Snapshot(v, g) && states[|ops|].v == vol.V() && Inv(vol.V(), states[|ops|].g)
  {
    hide RunStep, Inv;
    states := [Snapshot(v, g)];
    for i := 0 to |ops|
      invariant vol.Valid() && |states| == i + 1 && states[0] == Snapshot(v, g)
      invariant states[i].v == vol.V() && Inv(vol.V(), states[i].g)
      invariant forall j {:trigger ops[j]} :: 0 <= j < i ==>
        RunStep(states[j].v, states[j].g, RootEntry(vol.g.rootEntries), ops[j], states[j + 1].v, states[j + 1].g)
    {
      ghost var k := Apply(vol, ops[i], vol.V(), states[i].g);
      StepInOrder(states[i].v, states[i].g, RootEntry(vol.g.rootEntries), ops[i], vol.V(), k);
      states := states + [Snapshot(vol.V(), k)];
    }
  }

  lemma {:induction false} StepInOrder(v: Vol, g: Catalog, root: DirEntry, op: Op, w: Vol, k: Catalog)
    requires RunStep(v, g, root, op, w, k)
    ensures Inv(w, k)
  {
  }

  // --- from an empty disk to the next mount ------------------------------------------------

  /** A volume as it is formatted: only the two reserved entries are in use, and the root directory is empty. */
  ghost predicate Formatted(v: Vol) {
    && v.Valid() && |v.table| >= 2 && IsEnd(v.table[0]) && v.table[1] != FREE
    && (forall c :: 2 <= c < |v.table| ==> v.table[c] == FREE)
    && v.data[0] == Zeros(v.bpc)
  }

  /** The root directory and nothing else. */
  const ROOT_ONLY := Catalog(map[0 := Node([0], true, 0, 0, 0)], map[0 := 0])

  lemma {:induction false} FormattedChains(v: Vol)
    requires Formatted(v)
    ensures ChainsOk(v.table, ROOT_ONLY)
  {
    assert LinkAt(v.table, [0], 0);
    assert ChainOk(v.table, ROOT_ONLY, 0);
    assert OwnOk(ROOT_ONLY, 0);
  }

  lemma {:induction false} FormattedTree(n: nat)
    ensures var b := map[0 := Zeros(n)];
            ImageOk(ROOT_ONLY.nodes, b)
  {
    hide Slots, CStr;
    var nodes, b := ROOT_ONLY.nodes, map[0 := Zeros(n)];
    var ds := DirsIn(nodes, b);
    SlotsZeros(n);
    EmptyEntry();
    assert ds[0] == seq(n / ENTRY_SIZE, _ => NO_ENTRY);
    forall k | 0 <= k < |ds[0]|
      ensures ds[0][k].Empty() && Names1(nodes, ds, 0, k)
    {
    }
    assert LinkedUp(nodes, ds);
    assert DirOk(ds[0], 0, 0);
  }

  /** A freshly formatted volume is in order. */
  lemma {:induction false} FormattedInOrder(v: Vol)
    requires Formatted(v)
    ensures Inv(v, ROOT_ONLY)
  {
    FormattedChains(v);
    FormattedTree(v.bpc);
    assert Content(v, [0]) == Upto(v, [0], 0) + v.data[0] == Zeros(v.bpc);
    var b := BytesOf(v, ROOT_ONLY);
    assert 0 in ROOT_ONLY.nodes && b[0] == Zeros(v.bpc) && b.Keys == {0};
    assert b == map[0 := Zeros(v.bpc)];
  }

  /** A formatted disk is mounted, any operations are run on it, and it is mounted again: every state on the way is in
      order, and the second mount finds what the operations left. */
  method Session(image: seq<Byte>, ops: seq<Op>) returns (vol: Volume?, again: Volume?, ghost states: seq<Snapshot>)
    requires Bootable(image) && Word(image, 510) == SIGNATURE
    requires var g := GeometryOf(image[..SECTOR]);
             g.Valid() && Formatted(Vol(g.Bpc(), TableOn(g, image), ClustersOn(g, image)))
    ensures vol != null && vol.Valid() && again != null && again.Valid() && again.g == vol.g
    ensures vol.g.rootEntries < 0x10000 && Trace(states, RootEntry(vol.g.rootEntries), ops)
    ensures Formatted(states[0].v) && states[0].g == ROOT_ONLY
    ensures |states[0].v.table| >= 256 && states[0].v.bpc < 0x20000
    ensures states[|ops|].v == vol.V() == again.V() && Inv(again.V(), states[|ops|].g)
  {
    hide Inv, Trace, Formatted, LinksInRange;
    vol := FatInit(image);
    FormattedInOrder(vol.V());
    BlockLimit(vol);
    states := Run(vol, ops, vol.V(), ROOT_ONLY);
    assert Word(vol.boot, 510) == Word(image, 510);
    again := Remount(vol);
  }
}
