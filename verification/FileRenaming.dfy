/** fat.c: renaming by path. */
module FileRenaming {
  import opened CText
  import opened DirEntries
  import opened Directory
  import opened FatTable
  import opened Volumes
  import opened ChainGrowth
  import opened FatVolume
  import opened FileTree
  import opened Catalogs
  import opened Images
  import opened PathNames
  import opened Errno
  import opened TreeWalk
  import opened FileEffects
  import opened VolumeOrder
  import opened FileOps
  import opened DeleteSteps

  /** The slot `fat_update_dir_entry` finds the old name in, in the directory of entry `up`. */
  ghost function RenameSlot(b: Bytes, up: DirEntry, e: DirEntry): nat
    requires up.start in b
  {
    Find(Slots(b[up.start]), e.Name(), true, 0)
  }

  /** The checks of `fat_rename`, in their order: the code with which it refuses, or 0. */
  ghost function RenameRefusal(b: Bytes, root: DirEntry, cs: seq<Text>, slash: bool, name: Text): int {
    match Resolve(b, root, cs)
    case Missing(code) => code
    case Found(e) =>
      match Resolve(b, root, ParentOf(cs, slash))
      case Missing(code) => code
      case Found(up) =>
        if !up.IsDir() then -ENOENT
        else if |name| > NAME_SIZE || !LegalName(name) then -EINVAL
        else if Lookup(b, up, name).Found? then -EEXIST
        else if up.start in b && RenameSlot(b, up, e) < |Slots(b[up.start])| then 0
        else -EIO
  }

  /** `fat_rename(path, name)` for the path of `cs`, perhaps with a slash behind it: the entry the path leads to, with the
      new name, goes into the slot that has its old name in the directory taken for the parent. */
  ghost predicate RenameOutcome(v: Vol, g: Catalog, root: DirEntry, cs: seq<Text>, slash: bool, name: Text, code: int,
                                bs: Bytes)
    requires Inv(v, g)
  {
    var b := BytesOf(v, g);
    var e, up := Resolve(b, root, cs), Resolve(b, root, ParentOf(cs, slash));
    && code == RenameRefusal(b, root, cs, slash, name)
    && if code != 0 then
         bs == b
       else
         e.Found? && up.Found? && up.e.start in b && Renamed(b, Spot(up.e.start, RenameSlot(b, up.e, e.e)), e.e, name, bs)
  }

  /** The slot has the entry with the new name, and nothing else is different. */
  ghost predicate Renamed(b: Bytes, s: Spot, e: DirEntry, name: Text, bs: Bytes) {
    && s.Spot? && SpotIn(b, s) && |name| <= NAME_SIZE && e.Valid()
    && bs == Put(b, s.dir, s.slot, e.(name := Padded(name, NAME_SIZE)))
  }

  /** When `fat_rename` leaves the volume in order: if it refuses, or the path ends in a name and the new one is not of
      full length; behind a slash never. */
  ghost predicate RenamingKeeps(b: Bytes, root: DirEntry, cs: seq<Text>, slash: bool, name: Text) {
    RenameRefusal(b, root, cs, slash, name) != 0 || (!slash && Named(cs) && |name| < NAME_SIZE)
  }

  // --- what no catalog can put right -------------------------------------------------------

  /** Overwriting slot `j` of directory `d` leaves the nodes nearer to the root. */
  lemma {:induction false} RenameAbove(v: Vol, g: Catalog, w: Vol, d: nat, j: nat, x: DirEntry)
    requires WalkReady(v, g) && d in g.nodes && v.Holds(g.nodes[d].chain) && x.Valid()
    requires Patched(v, w, g.nodes[d].chain, ENTRY_SIZE * j, Encode(x))
    ensures Above(v, g, w, g.nodes[d].depth) && w.Holds(g.nodes[d].chain) && IsChain(w.table, g.nodes[d].chain)
    ensures j < |DirOn(v, g.nodes[d].chain)| && DirOn(w, g.nodes[d].chain) == DirOn(v, g.nodes[d].chain)[j := x]
  {
    hide IsChain, ChainsOk, TreeOk, Slots, Encode, Content;
    ChainOf(v.table, g, d);
    SlotPatchStays(v.table, g, v, w, d, j, x, d);
    forall h | h in g.nodes && g.nodes[h].depth < g.nodes[d].depth
      ensures NodeStays(v, g, w, h)
    {
      ChainOf(v.table, g, h);
      SlotPatchStays(v.table, g, v, w, d, j, x, h);
    }
  }

  /** With a legal name for an entry that leads to the directory it is in, the directory names itself. */
  lemma {:induction false} RenamedToItself(v: Vol, g: Catalog, w: Vol, d: nat, j: nat, e: DirEntry, name: Text)
    requires Inv(v, g) && d in g.nodes && g.nodes[d].isDir && v.Valid() && v.Holds(g.nodes[d].chain)
    requires e.Valid() && e.start == d && LegalName(name) && |name| <= NAME_SIZE
    requires Patched(v, w, g.nodes[d].chain, ENTRY_SIZE * j, Encode(e.(name := Padded(name, NAME_SIZE))))
    ensures !InOrder(w)
  {
    hide ImageOk, TreeOk, ChainsOk, IsChain, Slots, Encode, Content, Padded, LegalName, InOrder, CStr;
    InvWalks(v, g);
    LegalHasNoNul(name);
    CStrPadded(name, NAME_SIZE);
    LegalIsLive(e.(name := Padded(name, NAME_SIZE)));
    RenameAbove(v, g, w, d, j, e.(name := Padded(name, NAME_SIZE)));
    SelfNamingIsFatal(v, g, w, d, j);
  }

  /** The path of a directory that holds an entry of its own name, with a slash behind it: nothing is refused, and the
      directory comes to name itself. */
  lemma {:induction false} SlashRenamesInside(v: Vol, g: Catalog, root: DirEntry, cs: seq<Text>, e: DirEntry, name: Text)
    requires Inv(v, g) && Resolve(BytesOf(v, g), root, cs) == Found(e) && e.IsDir() && e.Name() != []
    requires e.start in g.nodes && g.nodes[e.start].isDir && e.Name() in Names(Slots(BytesOf(v, g)[e.start]))
    requires LegalName(name) && |name| <= NAME_SIZE && name !in Names(Slots(BytesOf(v, g)[e.start]))
    ensures RenameRefusal(BytesOf(v, g), root, cs, true, name) == 0
    ensures !RenamingKeeps(BytesOf(v, g), root, cs, true, name)
  {
    hide ChainsOk, Slots, Find, Resolve, LinkedUp, CountsOk, FilesOk, CStr, LegalName;
    var x := Slots(BytesOf(v, g)[e.start]);
    assert DirOk(DirsIn(g.nodes, BytesOf(v, g))[e.start], e.start, g.nodes[e.start].parent);
    FindShort(x, e.Name(), 0);
    FindIsLookup(x, e.Name());
    NoName();
    FindIsLookup(x, name);
  }

  /** With a dot slot renamed, or a name of full length, the directory is none. */
  lemma {:induction false} RenamedBadly(v: Vol, g: Catalog, w: Vol, s: Spot, e: DirEntry, last: Text, name: Text)
    requires Inv(v, g) && Placed(g.nodes, DirsIn(g.nodes, BytesOf(v, g)), s, e, last) && e.Valid()
    requires v.Valid() && v.Holds(g.nodes[s.dir].chain) && LegalName(name) && |name| <= NAME_SIZE
    requires last == DOT || last == DOTDOT || |name| == NAME_SIZE
    requires Patched(v, w, g.nodes[s.dir].chain, ENTRY_SIZE * s.slot, Encode(e.(name := Padded(name, NAME_SIZE))))
    ensures !InOrder(w)
  {
    hide ImageOk, TreeOk, ChainsOk, IsChain, Slots, Encode, Content, Padded, LegalName, InOrder, CStr, DirOk, Find;
    InvWalks(v, g);
    LegalHasNoNul(name);
    CStrPadded(name, NAME_SIZE);
    RenameAbove(v, g, w, s.dir, s.slot, e.(name := Padded(name, NAME_SIZE)));
    BadName(DirOn(w, g.nodes[s.dir].chain), s.dir, g.nodes[s.dir].parent, s.slot, name, last);
    BadDirIsFatal(v, g, w, s.dir);
  }

  lemma {:induction false} BadName(u: Dir, d: nat, parent: nat, k: nat, name: Text, last: Text)
    requires k < |u| && u[k].Name() == name && LegalName(name) && |name| <= NAME_SIZE
    requires |name| == NAME_SIZE || (last == DOT && k == 0 && d != 0) || (last == DOTDOT && k == 1 && d != 0)
    ensures !DirOk(u, d, parent)
  {
    hide CStr, UniqueNames;
    assert DirOk(u, d, parent) ==> ShortNames(u);
  }

  // --- the checks --------------------------------------------------------------------------

  /** The entry a path leads to and the directory taken for its parent: behind a slash it is the entry's own. */
  ghost predicate Renaming(nodes: Nodes, b: Bytes, root: DirEntry, cs: seq<Text>, slash: bool, e: DirEntry, up: DirEntry) {
    && b.Keys == nodes.Keys && e.Valid() && Resolve(b, root, cs) == Found(e)
    && Resolve(b, root, ParentOf(cs, slash)) == Found(up) && up.IsDir()
    && up.start in nodes && nodes[up.start].isDir
    && if cs == [] then e.name == Padded("~", NAME_SIZE) && up.start == 0
       else if slash then up == e
       else Placed(nodes, DirsIn(nodes, b), SpotOf(b, root, cs), e, LastOf(cs)) && SpotOf(b, root, cs).dir == up.start
  }

  lemma {:induction false} RenamingFound(v: Vol, g: Catalog, root: DirEntry, cs: seq<Text>, slash: bool, e: DirEntry,
                                         up: DirEntry)
    requires Inv(v, g) && v.bpc < 0x20000 && Components(cs) && root.start == 0 && root.IsDir()
    requires root.name == Padded("~", NAME_SIZE) && root.Valid() && (slash ==> cs != [])
    requires slash ==> OffFiles(BytesOf(v, g), root, cs)
    requires Resolve(BytesOf(v, g), root, cs) == Found(e) && e.Valid()
    requires Resolve(BytesOf(v, g), root, ParentOf(cs, slash)) == Found(up) && up.IsDir()
    ensures Renaming(g.nodes, BytesOf(v, g), root, cs, slash, e, up)
  {
    hide ImageOk, ChainsOk, Slots, Find, TreeOk, Resolve, Placed;
    var b := BytesOf(v, g);
    InvImage(v, g);
    OkHasTree(g.nodes, b);
    RootIsDir(g.nodes, DirsIn(g.nodes, b));
    if cs == [] {
      RootResolves(b, root);
    } else {
      UpIsFront(b, root, cs, slash, up);
      TargetFound(v, g, root, cs, 0);
      if slash {
        PlacedDir(g.nodes, DirsIn(g.nodes, b), SpotOf(b, root, cs), e, LastOf(cs));
      } else {
        PlacedUp(g.nodes, DirsIn(g.nodes, b), SpotOf(b, root, cs), e, LastOf(cs));
        PlacedDirs(g.nodes, DirsIn(g.nodes, b), SpotOf(b, root, cs), e, LastOf(cs));
      }
    }
  }

  lemma {:induction false} RootResolves(b: Bytes, root: DirEntry)
    ensures Resolve(b, root, []) == Found(root)
  {
  }

  lemma {:induction false} UpIsFront(b: Bytes, root: DirEntry, cs: seq<Text>, slash: bool, up: DirEntry)
    requires cs != [] && Resolve(b, root, ParentOf(cs, slash)) == Found(up) && up.IsDir()
    requires slash ==> OffFiles(b, root, cs)
    ensures OffFiles(b, root, cs)
  {
    hide Resolve;
  }

  lemma {:induction false} PlacedDirs(nodes: Nodes, ds: Dirs, s: Spot, e: DirEntry, last: Text)
    requires TreeOk(nodes, ds) && Placed(nodes, ds, s, e, last)
    ensures s.Spot? && s.dir in nodes && nodes[s.dir].isDir
  {
    hide DirsOk, Find, CStr;
  }

  /** A directory found is a directory of the tree. */
  lemma {:induction false} PlacedDir(nodes: Nodes, ds: Dirs, s: Spot, e: DirEntry, last: Text)
    requires TreeOk(nodes, ds) && Placed(nodes, ds, s, e, last) && e.IsDir()
    ensures e.start in nodes && nodes[e.start].isDir
  {
    hide DirsOk, Find, CStr;
    assert s.dir != 0 ==> Hangs(nodes, ds, s.dir);
  }

  /** The checks at the start of `fat_rename`. */
  method CheckRename(vol: Volume, path: Text, name: Text, ghost v: Vol, ghost g: Catalog, ghost cs: seq<Text>,
                     ghost slash: bool)
    returns (code: int, e: DirEntry, parent: DirEntry)
    requires vol.Valid() && vol.V() == v && Inv(v, g) && v.bpc < 0x20000
    requires Components(cs) && (slash ==> cs != []) && path == Spelled(cs, slash)
    requires slash ==> OffFiles(BytesOf(v, g), RootEntry(vol.g.rootEntries), cs)
    ensures code == 0 || code == RenameRefusal(BytesOf(v, g), RootEntry(vol.g.rootEntries), cs, slash, name)
    ensures code == 0 ==> Renaming(g.nodes, BytesOf(v, g), RootEntry(vol.g.rootEntries), cs, slash, e, parent)
    ensures code == 0 ==> LegalName(name) && |name| <= NAME_SIZE
    ensures code == 0 ==> parent.start in BytesOf(v, g) && name !in Names(Slots(BytesOf(v, g)[parent.start]))
    ensures code == 0 ==>
      (RenameRefusal(BytesOf(v, g), RootEntry(vol.g.rootEntries), cs, slash, name) == 0 <==>
         RenameSlot(BytesOf(v, g), parent, e) < |Slots(BytesOf(v, g)[parent.start])|)
    ensures code == 0 ==>
      RenameRefusal(BytesOf(v, g), RootEntry(vol.g.rootEntries), cs, slash, name) in {0, -EIO}
  {
    hide DirOk, ChainsOk, ImageOk, Slots, Find, Splice, Resolve, Descend, Encode, Names, LegalName, Spelled;
    ghost var root, b := RootEntry(vol.g.rootEntries), BytesOf(v, g);
    SplitSpelled(cs, slash);
    FrontParts(cs, slash);
    InvWalks(v, g);
    e, parent := RootEntry(vol.g.rootEntries), RootEntry(vol.g.rootEntries);
    var file := FindSlashed(vol, path, g, cs, slash);
    if file.Missing? {
      ResolveError(b, root, cs);
      return file.code, e, parent;
    }
    e := file.e;
    var up := FindPath(vol, ParentPath(path), g, ParentOf(cs, slash));
    if up.Missing? {
      ResolveError(b, root, ParentOf(cs, slash));
      return up.code, e, parent;
    }
    parent := up.e;
    if !parent.IsDir() {
      return -ENOENT, e, parent;
    }
    if |name| > NAME_SIZE {
      return -EINVAL, e, parent;
    }
    var legal := CheckFileName(name);
    if !legal {
      return -EINVAL, e, parent;
    }
    RootName(vol.g.rootEntries);
    RenamingFound(v, g, root, cs, slash, e, parent);
    var taken := NameTaken(vol, name, parent, v, g);
    code := if taken then -EEXIST else 0;
    NoName();
  }

  lemma {:induction false} FrontParts(cs: seq<Text>, slash: bool)
    requires Components(cs)
    ensures Components(ParentOf(cs, slash))
  {
  }

  // --- the update --------------------------------------------------------------------------

  /** `fat_update_dir_entry` with the changed name. */
  method RenameEntry(vol: Volume, e: DirEntry, name: Text, up: DirEntry, ghost v: Vol, ghost g: Catalog,
                     ghost root: DirEntry, ghost cs: seq<Text>, ghost slash: bool)
    returns (ok: bool)
    requires vol.Valid() && vol.V() == v && Inv(v, g) && LegalName(name) && |name| <= NAME_SIZE
    requires Components(cs) && (slash ==> cs != []) && Renaming(g.nodes, BytesOf(v, g), root, cs, slash, e, up)
    requires up.start in BytesOf(v, g) && name !in Names(Slots(BytesOf(v, g)[up.start]))
    modifies vol`disk, vol.fat
    ensures vol.Valid() && ChainsOk(vol.V().table, g)
    ensures ok <==> RenameSlot(BytesOf(v, g), up, e) < |Slots(BytesOf(v, g)[up.start])|
    ensures if ok then Renamed(BytesOf(v, g), Spot(up.start, RenameSlot(BytesOf(v, g), up, e)), e, name, BytesOf(vol.V(), g))
            else vol.V() == v
    ensures InOrder(vol.V()) <==> !ok || (!slash && Named(cs) && |name| < NAME_SIZE)
    ensures InOrder(vol.V()) ==> Inv(vol.V(), g)
  {
    hide IsChain, Splice, Slots, DirOk, ChainsOk, ImageOk, Encode, Names, CStr, Padded, Find, TreeOk, LegalName, Inv,
         InOrder, Renaming;
    InvWalks(v, g);
    RenamingUp(g.nodes, BytesOf(v, g), root, cs, slash, e, up);
    ChainOf(v.table, g, up.start);
    var renamed := e.(name := Padded(name, NAME_SIZE));
    ok := vol.UpdateDirEntry(e.Name(), up.start, renamed, g.nodes[up.start].chain);
    if ok {
      PatchedBytes(v, vol.V(), g, up.start, ENTRY_SIZE * RenameSlot(BytesOf(v, g), up, e), Encode(renamed));
      EntryRenamed(v, vol.V(), g, root, cs, slash, e, up, name);
    } else {
      IsInOrder(v, g);
    }
  }

  lemma {:induction false} IsInOrder(v: Vol, g: Catalog)
    requires Inv(v, g)
    ensures InOrder(v)
  {
  }

  lemma {:induction false} RenamingUp(nodes: Nodes, b: Bytes, root: DirEntry, cs: seq<Text>, slash: bool, e: DirEntry,
                                      up: DirEntry)
    requires Renaming(nodes, b, root, cs, slash, e, up)
    ensures up.start in nodes && nodes[up.start].isDir && e.Valid()
  {
  }

  /** What the changed slot comes to. */
  lemma {:induction false} EntryRenamed(v: Vol, w: Vol, g: Catalog, root: DirEntry, cs: seq<Text>, slash: bool,
                                        e: DirEntry, up: DirEntry, name: Text)
    requires Inv(v, g) && v.Valid() && ChainsOk(v.table, g) && LegalName(name) && |name| <= NAME_SIZE && Components(cs)
    requires (slash ==> cs != []) && Renaming(g.nodes, BytesOf(v, g), root, cs, slash, e, up)
    requires up.start in BytesOf(v, g) && name !in Names(Slots(BytesOf(v, g)[up.start])) && v.Holds(g.nodes[up.start].chain)
    requires RenameSlot(BytesOf(v, g), up, e) < |Slots(BytesOf(v, g)[up.start])|
    requires Patched(v, w, g.nodes[up.start].chain, ENTRY_SIZE * RenameSlot(BytesOf(v, g), up, e),
                     Encode(e.(name := Padded(name, NAME_SIZE))))
    ensures InOrder(w) <==> !slash && Named(cs) && |name| < NAME_SIZE
    ensures InOrder(w) ==> Inv(w, g)
  {
    hide IsChain, Slots, ChainsOk, ImageOk, Encode, Names, CStr, Padded, Find, TreeOk, LegalName, Inv, InOrder, Patched,
         Content, Placed, SpotOf;
    var b, ds := BytesOf(v, g), DirsIn(g.nodes, BytesOf(v, g));
    var s := SpotOf(b, root, cs);
    InvImage(v, g);
    OkHasTree(g.nodes, b);
    if cs == [] {
      NotTheRoot(g.nodes, b, e);
    } else if slash {
      RenamedToItself(v, g, w, e.start, RenameSlot(b, up, e), e, name);
    } else {
      PlacedUp(g.nodes, ds, s, e, LastOf(cs));
      KeptWhere(g.nodes, b, s, e, LastOf(cs));
      if Named(cs) && |name| < NAME_SIZE {
        RenamedWell(v, w, g, s, e, LastOf(cs), name);
      } else {
        RenamedBadly(v, g, w, s, e, LastOf(cs), name);
      }
    }
  }

  /** The root's made-up entry is in no slot. */
  lemma {:induction false} NotTheRoot(nodes: Nodes, b: Bytes, e: DirEntry)
    requires b.Keys == nodes.Keys && TreeOk(nodes, DirsIn(nodes, b)) && e.name == Padded("~", NAME_SIZE)
    ensures 0 in b && Find(Slots(b[0]), e.Name(), true, 0) == |Slots(b[0])|
  {
    hide Slots, CStr, Find;
    RootIsDir(nodes, DirsIn(nodes, b));
    RootNameIsIllegal(e);
    NoSuchName(nodes, DirsIn(nodes, b), 0, "~");
  }

  lemma {:induction false} RenamedWell(v: Vol, w: Vol, g: Catalog, s: Spot, e: DirEntry, last: Text, name: Text)
    requires Inv(v, g) && v.Valid() && ChainsOk(v.table, g) && LegalName(name) && |name| < NAME_SIZE && e.Valid()
    requires Placed(g.nodes, DirsIn(g.nodes, BytesOf(v, g)), s, e, last) && last != DOT && last != DOTDOT
    requires name !in Names(Slots(BytesOf(v, g)[s.dir])) && v.Holds(g.nodes[s.dir].chain)
    requires Patched(v, w, g.nodes[s.dir].chain, ENTRY_SIZE * s.slot, Encode(e.(name := Padded(name, NAME_SIZE))))
    ensures InOrder(w) && Inv(w, g)
  {
    hide IsChain, Slots, ChainsOk, Encode, Names, CStr, Padded, Find, TreeOk, LegalName, Content;
    LegalHasNoNul(name);
    CStrPadded(name, NAME_SIZE);
    RenameImage(g.nodes, BytesOf(v, g), e.start, Padded(name, NAME_SIZE));
    PatchedBytes(v, w, g, s.dir, ENTRY_SIZE * s.slot, Encode(e.(name := Padded(name, NAME_SIZE))));
    assert BytesOf(w, g) == Put(BytesOf(v, g), s.dir, s.slot, e.(name := Padded(name, NAME_SIZE)));
    assert Inv(w, g);
  }

  /** `fat_rename`. */
  method Rename(vol: Volume, path: Text, name: Text, ghost v: Vol, ghost g: Catalog, ghost cs: seq<Text>,
                ghost slash: bool)
    returns (code: int)
    requires vol.Valid() && vol.V() == v && Inv(v, g) && v.bpc < 0x20000
    requires Components(cs) && (slash ==> cs != []) && path == Spelled(cs, slash)
    requires slash ==> OffFiles(BytesOf(v, g), RootEntry(vol.g.rootEntries), cs)
    modifies vol`disk, vol.fat
    ensures vol.Valid() && ChainsOk(vol.V().table, g)
    ensures RenameOutcome(v, g, RootEntry(vol.g.rootEntries), cs, slash, name, code, BytesOf(vol.V(), g))
    ensures InOrder(vol.V()) <==> RenamingKeeps(BytesOf(v, g), RootEntry(vol.g.rootEntries), cs, slash, name)
    ensures InOrder(vol.V()) ==> Inv(vol.V(), g)
  {
    hide DirOk, ChainsOk, ImageOk, Slots, Find, Splice, Resolve, Descend, Encode, Names, LegalName, RenameRefusal, Inv,
         InOrder, Renamed;
    InvWalks(v, g);
    IsInOrder(v, g);
    var e, parent;
    code, e, parent := CheckRename(vol, path, name, v, g, cs, slash);
    if code == 0 {
      var ok := RenameEntry(vol, e, name, parent, v, g, RootEntry(vol.g.rootEntries), cs, slash);
      code := if ok then 0 else -EIO;
    }
  }
}
