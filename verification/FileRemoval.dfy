/** fat.c: deleting by path. */
module FileRemoval {
  import opened CText
  import opened DirEntries
  import opened Directory
  import opened FatTable
  import opened Volumes
  import opened DiskLayout
  import opened ChainGrowth
  import opened FatVolume
  import opened FileTree
  import opened Catalogs
  import opened Images
  import opened PathNames
  import opened Errno
  import opened TreeWalk
  import opened FileEffects
  import opened VolumeOrder
  import opened FileOps
  import opened DeleteSteps

  // --- delete ------------------------------------------------------------------------------

  /** The checks of `fat_delete`: the code with which it refuses, or 0. A directory counts as empty if
      its entry's size is 2. */
  ghost function DeleteRefusal(b: Bytes, root: DirEntry, cs: seq<Text>, isDirectory: bool): int {
    match Resolve(b, root, cs)
    case Missing(code) => code
    case Found(e) =>
      if isDirectory then
        if e.attr == 0 then -ENOENT else if e.size != 2 then -EINVAL else 0
      else if e.IsDir() then -EISDIR
      else 0
  }

  /** What deleting asks of the tree holds once the checks have passed. */
  lemma {:induction false} TargetIsLeaf(v: Vol, g: Catalog, root: DirEntry, cs: seq<Text>, e: DirEntry, isDirectory: bool)
    requires Inv(v, g) && Target(g.nodes, BytesOf(v, g), root, cs, e, -1) && Named(cs)
    requires DeleteRefusal(BytesOf(v, g), root, cs, isDirectory) == 0
    ensures Leaf(g.nodes, DirsIn(g.nodes, BytesOf(v, g)), e.start)
  {
    hide Slots, Find, ParentIs, Resolve, Descend, SpotOf, TreeOk, FilesOk, CountsOk;
    var ds := DirsIn(g.nodes, BytesOf(v, g));
    TargetNode(g.nodes, BytesOf(v, g), root, cs, e, -1);
    if e.start in ds {
      EmptyDirIsLeaf(g.nodes, ds, e.start);
    }
  }

  /** `fat_delete(path)` for the path of `cs`, perhaps with a slash behind it: what it returns and what it leaves. The
      two stores are always the same; for a path that ends in a name they delete the node. */
  ghost predicate DeleteOutcome(v: Vol, g: Catalog, root: DirEntry, cs: seq<Text>, slash: bool, isDirectory: bool,
                                code: int, k: Catalog, w: Vol)
    requires Inv(v, g)
  {
    var b := BytesOf(v, g);
    var refusal, e := DeleteRefusal(b, root, cs, isDirectory), Resolve(b, root, cs);
    if refusal != 0 then
      code == refusal && k == g && w == v
    else
      && code == 0 && e.Found? && Executed(v, g, root, cs, slash, w)
      && if !slash && Named(cs) then
           WalkReady(w, k) && Deleted(g.nodes, b, SpotOf(b, root, Upper(cs)), e.e.start, k.nodes, BytesOf(w, k))
         else
           k == g
  }

  /** The removal and the update of `fat_delete`, on the directory it takes for the parent. */
  ghost predicate Executed(v: Vol, g: Catalog, root: DirEntry, cs: seq<Text>, slash: bool, w: Vol)
    requires Inv(v, g)
  {
    var b, dir := BytesOf(v, g), ParentOf(cs, slash);
    && Resolve(b, root, dir).Found?
    && exists u: Vol, removed: bool, found: bool ::
         Steps(v, g, Resolve(b, root, dir).e, BaseOf(cs, slash), SpotOf(b, root, dir), u, removed, w, found)
  }

  /** When `fat_delete` leaves the volume in order: if it refuses, and else, for a path that ends in a name, if the count
      of its directory is noted where it belongs; for a dot slot never; behind a slash if no harm is done. */
  ghost predicate DeleteKeeps(v: Vol, g: Catalog, root: DirEntry, cs: seq<Text>, slash: bool, isDirectory: bool)
    requires Inv(v, g)
  {
    var b := BytesOf(v, g);
    var e := Resolve(b, root, cs);
    || DeleteRefusal(b, root, cs, isDirectory) != 0
    || (if slash then e.Found? && e.e.start in b && e.e.Valid() && Harmless(v, b, e.e, Named(cs))
        else Named(cs) && CountsRight(b, root, Upper(cs)))
  }

  /** The slot with an empty name that a path with a slash leads to points into the table. */
  ghost predicate SlotInTable(v: Vol, b: Bytes, e: DirEntry) {
    e.start in b ==>
      var x := Slots(b[e.start]);
      Find(x, [], false, 0) < |x| ==> x[Find(x, [], false, 0)].start < |v.table|
  }

  /** Node `h` is gone, and one less is noted in the entry kept at `s`. */
  ghost predicate Deleted(nodes: Nodes, b: Bytes, s: Spot, h: nat, ms: Nodes, bs: Bytes)
    requires b.Keys == nodes.Keys
  {
    SpotIn(b, s) && Lost(nodes, Noted(b, s, -1), ms, bs, h)
  }

  /** Node `h` is a leaf, and `name` the name of its slot in directory `p`. */
  ghost predicate Doomed(v: Vol, g: Catalog, h: nat, p: nat, name: Text) {
    && Inv(v, g) && h in g.nodes && h != 0 && Hangs(g.nodes, DirsIn(g.nodes, BytesOf(v, g)), h) && p == g.nodes[h].parent
    && Leaf(g.nodes, DirsIn(g.nodes, BytesOf(v, g)), h)
    && Find(DirsIn(g.nodes, BytesOf(v, g))[p], name, false, 0) == g.nodes[h].slot
  }

  lemma {:induction false} DoomedParts(v: Vol, g: Catalog, h: nat, p: nat, name: Text)
    requires Doomed(v, g, h, p, name)
    ensures v.Valid() && ChainsOk(v.table, g) && h in g.nodes && h != 0 && p in g.nodes && h < |v.table|
    ensures IsChain(v.table, g.nodes[p].chain) && g.nodes[p].chain[0] == p
    ensures p in CatalogFreed(g, h).nodes && CatalogFreed(g, h).nodes[p] == g.nodes[p] && p != h
    ensures ENTRY_SIZE * (g.nodes[h].slot + 1) <= |BytesOf(v, g)[p]| && p in BytesOf(v, g)
    ensures var s := DirOn(v, g.nodes[p].chain);
            Find(s, name, false, 0) == g.nodes[h].slot < |s| && s[g.nodes[h].slot].start == h
  {
    hide IsChain, ChainsOk, TreeOk, CountsOk, FilesOk, Slots, Find;
    ChainOf(v.table, g, p);
    ChainOf(v.table, g, h);
  }

  lemma {:induction false} RemovedPatch(v: Vol, w: Vol, g: Catalog, h: nat, p: nat, name: Text, ok: bool)
    requires Doomed(v, g, h, p, name) && v.Valid() && p in g.nodes && IsChain(v.table, g.nodes[p].chain)
    requires Removable(v, g.nodes[p].chain, name) && Removed(v, w, g.nodes[p].chain, name, ok)
    ensures ok && h < |v.table| && Freed(v, h).Holds(g.nodes[p].chain)
    ensures w.Valid() && w.bpc == v.bpc && w.table == Freed(v, h).table
    ensures Patched(Freed(v, h), w, g.nodes[p].chain, ENTRY_SIZE * g.nodes[h].slot, Zeros(ENTRY_SIZE))
  {
    hide Doomed, IsChain, Find, Slots, ChainsOk, Patched;
    DoomedParts(v, g, h, p, name);
    PatchedSame(Freed(v, h), w, g.nodes[p].chain, ENTRY_SIZE * g.nodes[h].slot, Zeros(ENTRY_SIZE));
  }

  lemma {:induction false} PutMinus(b: Bytes, p: nat, slot: nat, h: nat)
    requires p in b && p != h && ENTRY_SIZE * (slot + 1) <= |b[p]|
    ensures NO_ENTRY.Valid() && ENTRY_SIZE * slot + |Zeros(ENTRY_SIZE)| <= |b[p]| && p in b - {h}
    ensures (b - {h})[p := Splice((b - {h})[p], ENTRY_SIZE * slot, Zeros(ENTRY_SIZE))] == Put(b, p, slot, NO_ENTRY) - {h}
  {
    EncodeNoEntry();
  }

  lemma {:induction false} PatchedSame(v: Vol, w: Vol, ch: seq<nat>, at: nat, b: seq<Byte>)
    requires v.Valid() && v.Holds(ch) && Patched(v, w, ch, at, b)
    ensures w.Valid() && w.bpc == v.bpc && w.table == v.table
  {
  }

  lemma {:induction false} NodeRemoved(v: Vol, w: Vol, g: Catalog, h: nat, p: nat, name: Text, ok: bool)
    requires Doomed(v, g, h, p, name) && v.Valid() && p in g.nodes && IsChain(v.table, g.nodes[p].chain)
    requires Removable(v, g.nodes[p].chain, name) && Removed(v, w, g.nodes[p].chain, name, ok)
    ensures ok && w.Valid() && w.bpc == v.bpc && ChainsOk(v.table, g) && ChainsOk(w.table, CatalogFreed(g, h))
    ensures NO_ENTRY.Valid() && p in BytesOf(v, g) && ENTRY_SIZE * (g.nodes[h].slot + 1) <= |BytesOf(v, g)[p]|
    ensures BytesOf(w, CatalogFreed(g, h)) == Put(BytesOf(v, g), p, g.nodes[h].slot, NO_ENTRY) - {h}
  {
    hide *;
    DoomedParts(v, g, h, p, name);
    RemovedPatch(v, w, g, h, p, name, ok);
    FreedBytes(v, g, h);
    PutMinus(BytesOf(v, g), p, g.nodes[h].slot, h);
    PatchedBytes(Freed(v, h), w, CatalogFreed(g, h), p, ENTRY_SIZE * g.nodes[h].slot, Zeros(ENTRY_SIZE));
  }

  /** The checks of `fat_delete` on the entry the path resolves to. */
  method CheckDelete(e: DirEntry, isDirectory: bool) returns (code: int)
    ensures code == if isDirectory then if e.attr == 0 then -ENOENT else if e.size != 2 then -EINVAL else 0
                    else if e.IsDir() then -EISDIR else 0
  {
    code := 0;
    if isDirectory {
      if e.attr == 0 {
        return -ENOENT;
      }
      if e.size != 2 {
        return -EINVAL;
      }
    } else if e.IsDir() {
      return -EISDIR;
    }
  }

  /** The root's size is a multiple of 32, so it never counts as an empty directory. */
  lemma {:induction false} RootNotDeleted(b: Bytes, rootEntries: nat, isDirectory: bool)
    requires rootEntries < 0x10000
    ensures DeleteRefusal(b, RootEntry(rootEntries), [], isDirectory) != 0
  {
  }

  /** The entry kept at `s`, updated through the walk `ch` of its directory. */
  lemma {:induction false} UpdatedIsNoted(u: Vol, w: Vol, k: Catalog, s: Spot, p: DirEntry, name: Text, delta: int,
                                          ok: bool)
    requires WalkReady(u, k) && Kept(k.nodes, DirsIn(k.nodes, BytesOf(u, k)), s, p, name) && p.Valid()
    requires s.NoSpot? ==> p.name == Padded("~", NAME_SIZE)
    requires UpOf(s) in k.nodes && u.Holds(k.nodes[UpOf(s)].chain)
    requires Updated(u, w, k.nodes[UpOf(s)].chain, p.Name(), Tallied(p, delta), ok)
    ensures w.Valid() && w.bpc == u.bpc && w.table == u.table && SpotIn(BytesOf(u, k), s)
    ensures BytesOf(w, k) == Noted(BytesOf(u, k), s, delta)
  {
    hide Encode, IsChain, Splice, Slots, ChainsOk, CStr, Find, TreeOk, Tallied, Hangs;
    KeptWhere(k.nodes, BytesOf(u, k), s, p, name);
    if s.Spot? {
      SpotInside(k.nodes, BytesOf(u, k), s, p, name);
      PatchedBytes(u, w, k, s.dir, ENTRY_SIZE * s.slot, Encode(Tallied(p, delta)));
    }
  }

  /** Deleting the node of a path that ends in its name: between the removal, which leaves `u`, and the count. */
  ghost predicate Removing(v: Vol, g: Catalog, h: nat, s: Spot, p: DirEntry, name: Text, u: Vol) {
    && Inv(v, g) && h in g.nodes && h != 0 && Hangs(g.nodes, DirsIn(g.nodes, BytesOf(v, g)), h)
    && Leaf(g.nodes, DirsIn(g.nodes, BytesOf(v, g)), h)
    && p.Valid() && p.start == g.nodes[h].parent && (s.NoSpot? ==> p.name == Padded("~", NAME_SIZE))
    && Kept(g.nodes, DirsIn(g.nodes, BytesOf(v, g)), s, p, name) && Countable(g.nodes, BytesOf(v, g), p.start, -1)
    && u.Valid() && u.bpc == v.bpc && ChainsOk(u.table, CatalogFreed(g, h))
    && NO_ENTRY.Valid() && ENTRY_SIZE * (g.nodes[h].slot + 1) <= |BytesOf(v, g)[g.nodes[h].parent]|
    && BytesOf(u, CatalogFreed(g, h)) == BytesWithout(g.nodes, BytesOf(v, g), h)
  }

  /** The slot counted in is not the slot removed. */
  lemma {:induction false} OtherSlot(nodes: Nodes, ds: Dirs, h: nat, s: Spot, p: DirEntry, name: Text)
    requires TreeOk(nodes, ds) && h in nodes && h != 0 && Hangs(nodes, ds, h) && Leaf(nodes, ds, h)
    requires Kept(nodes, ds, s, p, name) && p.start == nodes[h].parent
    ensures s != Spot(nodes[h].parent, nodes[h].slot) && nodes[h].parent != h && UpOf(s) in nodes
    ensures s.Spot? && s.dir == h ==> name == DOTDOT
  {
  }

  /** The count is noted in a directory that is still there. */
  lemma {:induction false} CountedOff(v: Vol, g: Catalog, h: nat, s: Spot, p: DirEntry, name: Text, u: Vol, w: Vol,
                                      ok: bool)
    requires Removing(v, g, h, s, p, name, u) && (s.Spot? ==> s.dir != h)
    requires UpOf(s) in g.nodes && u.Holds(g.nodes[UpOf(s)].chain)
    requires Updated(u, w, g.nodes[UpOf(s)].chain, p.Name(), Tallied(p, -1), ok)
    ensures var (k, b) := (CatalogFreed(g, h), BytesOf(v, g));
            && WalkReady(w, k) && Deleted(g.nodes, b, s, h, k.nodes, BytesOf(w, k))
            && (Inv(w, k) <==> p.start == 0 || (name != DOT && name != DOTDOT))
  {
    hide IsChain, Slots, Splice, Encode, Find, ChainsOk, Tallied, Kept, Countable, Lost, TreeOk, ImageOk, Hangs, Noted,
         Updated, Leaf, BytesWithout;
    var b, k := BytesOf(v, g), CatalogFreed(g, h);
    FreedNodes(g, h);
    OkHasTree(g.nodes, b);
    OtherSlot(g.nodes, DirsIn(g.nodes, b), h, s, p, name);
    WithoutImage(g.nodes, b, h);
    var bs := BytesWithout(g.nodes, b, h);
    OffHasTree(k.nodes, bs, p.start, -1);
    KeptAfterLoss(g.nodes, b, h, s, p, name);
    RootIsDir(g.nodes, DirsIn(g.nodes, b));
    assert k.nodes[UpOf(s)] == g.nodes[UpOf(s)];
    UpdatedIsNoted(u, w, k, s, p, name, -1, ok);
    NotedIsOk(k.nodes, bs, s, p, name, -1);
    KeptInside(g.nodes, b, s, p, name);
    LostNoted(g.nodes, b, h, s);
    InvAfter(u, w, k, Noted(bs, s, -1));
  }

  lemma {:induction false} KeptInside(nodes: Nodes, b: Bytes, s: Spot, p: DirEntry, name: Text)
    requires b.Keys == nodes.Keys && Kept(nodes, DirsIn(nodes, b), s, p, name)
    ensures SpotIn(b, s)
  {
    hide Slots, Find;
    if s.Spot? {
      SpotInside(nodes, b, s, p, name);
    }
  }

  lemma {:induction false} WithoutImage(nodes: Nodes, b: Bytes, h: nat)
    requires ImageOk(nodes, b) && Leaf(nodes, DirsIn(nodes, b), h) && h in nodes && Hangs(nodes, DirsIn(nodes, b), h)
    ensures NO_ENTRY.Valid() && ENTRY_SIZE * (nodes[h].slot + 1) <= |b[nodes[h].parent]|
    ensures nodes[h].parent in nodes - {h} && (nodes - {h})[nodes[h].parent].isDir
    ensures ImageOff(nodes - {h}, BytesWithout(nodes, b, h), nodes[h].parent, -1)
    ensures BytesWithout(nodes, b, h).Keys == (nodes - {h}).Keys
    ensures DirsIn(nodes - {h}, BytesWithout(nodes, b, h)) == DirsWithout(nodes, DirsIn(nodes, b), h, NO_ENTRY)
  {
    hide Slots, Splice, Encode, ImageOff;
    RemoveImage(nodes, b, h);
  }

  /** The count is noted in the first cluster of the directory just removed, where it does no harm. */
  lemma {:induction false} CountedInGone(v: Vol, g: Catalog, h: nat, s: Spot, p: DirEntry, name: Text, u: Vol, w: Vol,
                                         ok: bool)
    requires Removing(v, g, h, s, p, name, u) && s.Spot? && s.dir == h
    requires h < |u.table| && u.table[h] == FREE && u.Holds([h]) && Updated(u, w, [h], p.Name(), Tallied(p, -1), ok)
    ensures var (k, b) := (CatalogFreed(g, h), BytesOf(v, g));
            && WalkReady(w, k) && Deleted(g.nodes, b, s, h, k.nodes, BytesOf(w, k))
            && (Inv(w, k) <==> p.start == 0) && name == DOTDOT
  {
    hide IsChain, Slots, Splice, Encode, Find, ChainsOk, Tallied, Kept, Countable, Lost, TreeOk, ImageOk, Hangs, Noted, Leaf,
         BytesWithout;
    var b, k := BytesOf(v, g), CatalogFreed(g, h);
    FreedNodes(g, h);
    OkHasTree(g.nodes, b);
    OtherSlot(g.nodes, DirsIn(g.nodes, b), h, s, p, name);
    WithoutImage(g.nodes, b, h);
    var bs := BytesWithout(g.nodes, b, h);
    OffHasTree(k.nodes, bs, p.start, -1);
    OffIsOk(k.nodes, bs, p.start, -1);
    UnownedBytes(u, w, k, h);
    KeptInside(g.nodes, b, s, p, name);
    LostNoted(g.nodes, b, h, s);
    InvAfter(u, w, k, bs);
  }

  /** What `fat_delete` needs for its lookups and its removal. */
  lemma {:induction false} TargetParts(v: Vol, g: Catalog, root: DirEntry, cs: seq<Text>, slash: bool, e: DirEntry)
    requires Inv(v, g) && Components(cs) && Target(g.nodes, BytesOf(v, g), root, cs, e, -1)
    requires slash ==> SlotInTable(v, BytesOf(v, g), e)
    ensures v.Valid() && ChainsOk(v.table, g) && WalkReady(v, g) && cs != []
    ensures var (b, dir) := (BytesOf(v, g), ParentOf(cs, slash));
            var s := SpotOf(b, root, dir);
            && Components(dir) && Components(Upper(dir)) && ParentPath(Join(dir)) == Join(Upper(dir))
            && Resolve(b, root, dir).Found? && Resolve(b, root, Upper(dir)).Found?
            && Resolve(b, root, Upper(dir)).e.start == UpOf(s) && UpOf(s) in g.nodes
            && IsChain(v.table, g.nodes[UpOf(s)].chain) && g.nodes[UpOf(s)].chain[0] == UpOf(s)
            && var p := Resolve(b, root, dir).e;
               && p.start in g.nodes && e.start in g.nodes && IsChain(v.table, g.nodes[p.start].chain)
               && g.nodes[p.start].chain[0] == p.start && Removable(v, g.nodes[p.start].chain, BaseOf(cs, slash))
  {
    hide TreeOk, CountsOk, FilesOk, ChainsOk, Slots, Find, Descend, Resolve, Hangs, Components, Join, ParentPath, Upper,
         IsChain, SpotOf;
    FrontPaths(cs);
    TargetWhere(g.nodes, BytesOf(v, g), root, cs, e);
    var dir := ParentOf(cs, slash);
    var p := Resolve(BytesOf(v, g), root, dir).e;
    InvImage(v, g);
    OkHasTree(g.nodes, BytesOf(v, g));
    RootIsDir(g.nodes, DirsIn(g.nodes, BytesOf(v, g)));
    ChainOf(v.table, g, p.start);
    ChainOf(v.table, g, e.start);
    ChainOf(v.table, g, UpOf(SpotOf(BytesOf(v, g), root, dir)));
  }

  lemma {:induction false} TargetWhere(nodes: Nodes, b: Bytes, root: DirEntry, cs: seq<Text>, e: DirEntry)
    requires Target(nodes, b, root, cs, e, -1) && TreeOk(nodes, DirsIn(nodes, b))
    ensures var (front, s) := (Upper(cs), SpotOf(b, root, Upper(cs)));
            && Resolve(b, root, front).Found? && Resolve(b, root, Upper(front)).Found?
            && Resolve(b, root, Upper(front)).e.start == UpOf(s) && UpOf(s) in nodes
            && var p := Resolve(b, root, front).e;
               && p.start in nodes && e.start in nodes && p.start in DirsIn(nodes, b)
               && Find(Slots(b[p.start]), LastOf(cs), false, 0) < |Slots(b[p.start])|
               && Slots(b[p.start])[Find(Slots(b[p.start]), LastOf(cs), false, 0)] == e
               && UpOf(SpotOf(b, root, cs)) == p.start
  {
    hide Slots, Find, DirsOk;
    RootIsDir(nodes, DirsIn(nodes, b));
  }

  lemma {:induction false} FrontPaths(cs: seq<Text>)
    requires Components(cs) && cs != []
    ensures Components(Upper(cs)) && Components(Upper(Upper(cs)))
    ensures ParentPath(Join(cs)) == Join(Upper(cs)) && ParentPath(Join(Upper(cs))) == Join(Upper(Upper(cs)))
  {
    hide Join, ParentPath;
    SplitAny(cs);
    SplitAny(Upper(cs));
  }

  lemma {:induction false} FreedNodes(g: Catalog, h: nat)
    requires h in g.nodes
    ensures CatalogFreed(g, h).nodes == g.nodes - {h}
  {
  }

  /** The two stores that make a deletion, for a path that ends in the node's name. */
  lemma {:induction false} NodeDeleted(v: Vol, u: Vol, w: Vol, g: Catalog, root: DirEntry, cs: seq<Text>, e: DirEntry,
                                       p: DirEntry, removed: bool, found: bool)
    requires Inv(v, g) && Components(cs) && Target(g.nodes, BytesOf(v, g), root, cs, e, -1) && Named(cs)
    requires Leaf(g.nodes, DirsIn(g.nodes, BytesOf(v, g)), e.start)
    requires Resolve(BytesOf(v, g), root, Upper(cs)) == Found(p) && root.name == Padded("~", NAME_SIZE)
    requires Steps(v, g, p, LastOf(cs), SpotOf(BytesOf(v, g), root, Upper(cs)), u, removed, w, found)
    ensures var (k, b, front) := (CatalogFreed(g, e.start), BytesOf(v, g), Upper(cs));
            && WalkReady(w, k) && Deleted(g.nodes, b, SpotOf(b, root, front), e.start, k.nodes, BytesOf(w, k))
            && (Inv(w, k) <==> p.start == 0 || Named(front))
  {
    hide *;
    TargetParts(v, g, root, cs, false, e);
    NotSlashed(cs);
    var b, front, h := BytesOf(v, g), Upper(cs), e.start;
    var s := SpotOf(b, root, front);
    StepsParts(v, g, p, LastOf(cs), s, u, removed, w, found);
    TargetNode(g.nodes, b, root, cs, e, -1);
    TargetParent(v, g, root, cs, e, p);
    NodeRemoved(v, u, g, h, p.start, LastOf(cs), removed);
    IsRemoving(v, g, h, s, p, LastOf(front), LastOf(cs), u);
    NamedOrNot(g.nodes, DirsIn(g.nodes, b), front, s, p);
    TableCleared(v, u, g, h, p.start, LastOf(cs), removed);
    SeenInCleared(v, u, g, h, UpOf(s));
    if s.Spot? && s.dir == h {
      HeadFreed(v, u, g, h);
      CountedInGone(v, g, h, s, p, LastOf(front), u, w, found);
    } else {
      UpNotGone(s, h);
      CountedOff(v, g, h, s, p, LastOf(front), u, w, found);
    }
  }

  lemma {:induction false} NotSlashed(cs: seq<Text>)
    ensures ParentOf(cs, false) == Upper(cs) && BaseOf(cs, false) == LastOf(cs)
  {
  }

  lemma {:induction false} StepsParts(v: Vol, g: Catalog, p: DirEntry, name: Text, s: Spot, u: Vol, removed: bool, w: Vol,
                                      found: bool)
    requires Steps(v, g, p, name, s, u, removed, w, found)
    ensures v.Valid() && ChainsOk(v.table, g) && p.Valid() && p.start in g.nodes && UpOf(s) in g.nodes
    ensures IsChain(v.table, g.nodes[p.start].chain) && Removable(v, g.nodes[p.start].chain, name)
    ensures Removed(v, u, g.nodes[p.start].chain, name, removed)
    ensures u.Valid() && u.Holds(g.nodes[UpOf(s)].chain) && u.Holds(Seen(u.table, g.nodes[UpOf(s)].chain))
    ensures Updated(u, w, Seen(u.table, g.nodes[UpOf(s)].chain), p.Name(), Tallied(p, -1), found)
  {
    hide IsChain, Removable, Removed, Updated, ChainsOk;
  }

  lemma {:induction false} TableCleared(v: Vol, u: Vol, g: Catalog, h: nat, q: nat, name: Text, removed: bool)
    requires Doomed(v, g, h, q, name) && v.Valid() && q in g.nodes && IsChain(v.table, g.nodes[q].chain)
    requires Removable(v, g.nodes[q].chain, name) && Removed(v, u, g.nodes[q].chain, name, removed)
    ensures h in g.nodes && u.table == Cleared(v.table, g.nodes[h].chain)
  {
    hide Doomed, IsChain, Find, Slots, ChainsOk, Patched;
    RemovedPatch(v, u, g, h, q, name, removed);
    DoomedParts(v, g, h, q, name);
    ChainOf(v.table, g, h);
    FreeFromChain(v.table, g.nodes[h].chain);
  }

  /** With the chain of `h` free, of `h` the first cluster is still met, of another chain all. */
  lemma {:induction false} SeenInCleared(v: Vol, u: Vol, g: Catalog, h: nat, up: nat)
    requires v.Valid() && u.Valid() && ChainsOk(v.table, g) && h in g.nodes && up in g.nodes
    requires u.table == Cleared(v.table, g.nodes[h].chain) && u.Holds(g.nodes[up].chain)
    ensures Seen(u.table, g.nodes[up].chain) == if up == h then [h] else g.nodes[up].chain
  {
    ChainOf(v.table, g, h);
    ChainOf(v.table, g, up);
    if up == h {
      assert h in g.nodes[h].chain;
    } else {
      ChainsApart(v.table, g, up, h);
      ChainFrame(v.table, u.table, g.nodes[up].chain);
      SeenWhole(u.table, g.nodes[up].chain);
    }
  }

  lemma {:induction false} UpNotGone(s: Spot, h: nat)
    requires h != 0 && !(s.Spot? && s.dir == h)
    ensures UpOf(s) != h
  {
  }

  lemma {:induction false} HeadFreed(v: Vol, u: Vol, g: Catalog, h: nat)
    requires ChainsOk(v.table, g) && h in g.nodes && u.table == Cleared(v.table, g.nodes[h].chain)
    ensures h < |u.table| && u.table[h] == FREE
  {
    ChainOf(v.table, g, h);
    assert h in g.nodes[h].chain;
  }

  lemma {:induction false} NamedOrNot(nodes: Nodes, ds: Dirs, front: seq<Text>, s: Spot, p: DirEntry)
    requires Kept(nodes, ds, s, p, LastOf(front))
    ensures p.start == 0 || Named(front) <==> p.start == 0 || (LastOf(front) != DOT && LastOf(front) != DOTDOT)
    ensures s.Spot? ==> UpOf(s) == s.dir
  {
  }

  /** What is known of the directory `p` a node is taken from. */
  lemma {:induction false} TargetParent(v: Vol, g: Catalog, root: DirEntry, cs: seq<Text>, e: DirEntry, p: DirEntry)
    requires Inv(v, g) && Target(g.nodes, BytesOf(v, g), root, cs, e, -1) && Named(cs)
    requires Leaf(g.nodes, DirsIn(g.nodes, BytesOf(v, g)), e.start)
    requires Resolve(BytesOf(v, g), root, Upper(cs)) == Found(p)
    ensures ChainsOk(v.table, g) && Doomed(v, g, e.start, p.start, LastOf(cs)) && e.start != 0
    ensures Kept(g.nodes, DirsIn(g.nodes, BytesOf(v, g)), SpotOf(BytesOf(v, g), root, Upper(cs)), p, LastOf(Upper(cs)))
    ensures Countable(g.nodes, BytesOf(v, g), p.start, -1)
    ensures SpotOf(BytesOf(v, g), root, Upper(cs)).NoSpot? ==> p == root
  {
    hide TreeOk, CountsOk, FilesOk, ChainsOk, Slots, Find, Descend, Resolve, Leaf, SpotOf;
    TargetNode(g.nodes, BytesOf(v, g), root, cs, e, -1);
  }

  lemma {:induction false} IsRemoving(v: Vol, g: Catalog, h: nat, s: Spot, p: DirEntry, name: Text, last: Text, u: Vol)
    requires Doomed(v, g, h, p.start, last) && p.Valid() && (s.NoSpot? ==> p.name == Padded("~", NAME_SIZE))
    requires v.Valid() && ChainsOk(v.table, g)
    requires Kept(g.nodes, DirsIn(g.nodes, BytesOf(v, g)), s, p, name) && Countable(g.nodes, BytesOf(v, g), p.start, -1)
    requires u.Valid() && u.bpc == v.bpc && ChainsOk(u.table, CatalogFreed(g, h)) && h in g.nodes
    requires NO_ENTRY.Valid() && p.start in BytesOf(v, g) && ENTRY_SIZE * (g.nodes[h].slot + 1) <= |BytesOf(v, g)[p.start]|
    requires BytesOf(u, CatalogFreed(g, h)) == Put(BytesOf(v, g), p.start, g.nodes[h].slot, NO_ENTRY) - {h}
    ensures Removing(v, g, h, s, p, name, u)
  {
    hide Kept, Countable, Slots, Find, Put, ChainsOk, TreeOk, CountsOk, FilesOk;
  }

  /** Behind a dot component, the chain freed is that of a directory a slot still names. */
  lemma {:induction false} DotDeleted(v: Vol, u: Vol, w: Vol, g: Catalog, root: DirEntry, cs: seq<Text>, e: DirEntry,
                                      p: DirEntry, removed: bool, found: bool)
    requires Inv(v, g) && Components(cs) && Target(g.nodes, BytesOf(v, g), root, cs, e, -1) && !Named(cs)
    requires Resolve(BytesOf(v, g), root, Upper(cs)) == Found(p) && root.name == Padded("~", NAME_SIZE)
    requires Steps(v, g, p, LastOf(cs), SpotOf(BytesOf(v, g), root, Upper(cs)), u, removed, w, found)
    ensures !InOrder(w)
  {
    hide ImageOk, ChainsOk, Slots, Find, IsChain, Removable, Removed, Updated, TreeOk, CStr, Inv, InOrder, Resolve,
         Descend, Target, SpotOf, Held, Steps;
    InvWalks(v, g);
    InvImage(v, g);
    var b, s := BytesOf(v, g), SpotOf(BytesOf(v, g), root, Upper(cs));
    OkHasTree(g.nodes, b);
    TargetWhere(g.nodes, b, root, cs, e);
    StepsParts(v, g, p, LastOf(cs), s, u, removed, w, found);
    ParentHeld(g.nodes, b, root, cs, e, p);
    StepsStay(v, g, p, LastOf(cs), s, LastOf(Upper(cs)), u, removed, w, found);
    RemovalFacts(v, g, p.start, LastOf(cs), u, removed);
    ChainOf(v.table, g, e.start);
    ChainInUse(v.table, g.nodes[e.start].chain);
    assert e.start in g.nodes[e.start].chain;
    FreeingIsFatal(v, g, w, e.start);
  }

  lemma {:induction false} ParentHeld(nodes: Nodes, b: Bytes, root: DirEntry, cs: seq<Text>, e: DirEntry, p: DirEntry)
    requires Target(nodes, b, root, cs, e, -1) && Components(cs) && TreeOk(nodes, DirsIn(nodes, b))
    requires Resolve(b, root, Upper(cs)) == Found(p) && root.name == Padded("~", NAME_SIZE) && p.Valid()
    ensures Held(nodes, DirsIn(nodes, b), SpotOf(b, root, Upper(cs)), p, LastOf(Upper(cs)))
    ensures SpotOf(b, root, Upper(cs)).Spot? ==> LastOf(Upper(cs)) != []
  {
    hide Slots, Find, DirsOk, Resolve, Descend;
    RootIsDir(nodes, DirsIn(nodes, b));
    assert Upper(cs) != [] ==> Component(LastOf(Upper(cs)));
  }

  /** `fat_delete`. What the path leads to must not be found inside a regular file, and the slot it frees by mistake
      behind a slash must point into the table. */
  method Delete(vol: Volume, path: Text, isDirectory: bool, ghost v: Vol, ghost g: Catalog, ghost cs: seq<Text>,
                ghost slash: bool)
    returns (code: int, ghost k: Catalog)
    requires vol.Valid() && vol.V() == v && Inv(v, g) && v.bpc < 0x20000 && vol.g.rootEntries < 0x10000
    requires Components(cs) && (slash ==> cs != []) && path == Spelled(cs, slash)
    requires |BaseOf(cs, slash)| <= NAME_SIZE
    requires OffFiles(BytesOf(v, g), RootEntry(vol.g.rootEntries), cs)
    requires slash && Resolve(BytesOf(v, g), RootEntry(vol.g.rootEntries), cs).Found?
             && DeleteRefusal(BytesOf(v, g), RootEntry(vol.g.rootEntries), cs, isDirectory) == 0 ==>
               SlotInTable(v, BytesOf(v, g), Resolve(BytesOf(v, g), RootEntry(vol.g.rootEntries), cs).e)
    modifies vol`disk, vol.fat
    ensures vol.Valid()
    ensures DeleteOutcome(v, g, RootEntry(vol.g.rootEntries), cs, slash, isDirectory, code, k, vol.V())
    ensures InOrder(vol.V()) <==> DeleteKeeps(v, g, RootEntry(vol.g.rootEntries), cs, slash, isDirectory)
    ensures InOrder(vol.V()) ==> Inv(vol.V(), k)
  {
    hide DirOk, ChainsOk, ImageOk, Slots, Find, Splice, Target, Resolve, OffFiles, Lost, Encode, TreeOk, Deleted, SpotOf,
         Harmless, Executed;
    SplitSpelled(cs, slash);
    ghost var root := RootEntry(vol.g.rootEntries);
    var name, directory := BaseName(path), ParentPath(path);
    k := g;
    InvWalks(v, g);
    var found := FindSlashed(vol, path, g, cs, slash);
    if found.Missing? {
      ResolveError(BytesOf(v, g), root, cs);
      return found.code, g;
    }
    code := CheckDelete(found.e, isDirectory);
    if code != 0 {
      return code, g;
    }
    RootNotDeleted(BytesOf(v, g), vol.g.rootEntries, isDirectory);
    TargetFound(v, g, root, cs, -1);
    if Named(cs) {
      TargetIsLeaf(v, g, root, cs, found.e, isDirectory);
    }
    k := DeleteFound(vol, name, directory, found.e, v, g, cs, slash, root);
  }

  method RemoveSlot(vol: Volume, name: Text, start: nat, ghost v: Vol, ghost ch: seq<nat>) returns (ok: bool)
    requires vol.Valid() && vol.V() == v && IsChain(v.table, ch) && ch[0] == start && Removable(v, ch, name)
    modifies vol`disk, vol.fat
    ensures vol.Valid() && Removed(v, vol.V(), ch, name, ok)
  {
    hide IsChain, Find, Slots, LinksInRange, Removable, Removed;
    ok := vol.RemoveDirEntry(name, start, ch);
  }

  method UpdateSlot(vol: Volume, name: Text, start: nat, e: DirEntry, ghost u: Vol, ghost ch: seq<nat>) returns (ok: bool)
    requires vol.Valid() && vol.V() == u && Walked(u.table, ch) && ch[0] == start && u.Holds(ch) && e.Valid()
    modifies vol`disk, vol.fat
    ensures vol.Valid() && Updated(u, vol.V(), ch, name, e, ok)
  {
    hide Walked, Find, Slots, LinksInRange, Encode, Patched;
    ok := vol.UpdateDirEntry(name, start, e, ch);
  }

  /** The two stores of `fat_delete`, on the entry `p` of what it takes for the parent. */
  method TakeOut(vol: Volume, name: Text, p: DirEntry, up: nat, ghost s: Spot, ghost v: Vol, ghost g: Catalog)
    returns (ghost u: Vol, removed: bool, found: bool)
    requires vol.Valid() && vol.V() == v && v.Valid() && ChainsOk(v.table, g) && p.Valid() && p.start in g.nodes
    requires IsChain(v.table, g.nodes[p.start].chain) && g.nodes[p.start].chain[0] == p.start
    requires UpOf(s) in g.nodes && up == UpOf(s)
    requires IsChain(v.table, g.nodes[up].chain) && g.nodes[up].chain[0] == up
    requires Removable(v, g.nodes[p.start].chain, name)
    modifies vol`disk, vol.fat
    ensures vol.Valid() && Steps(v, g, p, name, s, u, removed, vol.V(), found)
  {
    hide ChainsOk, Slots, Find, IsChain, Removable, Removed, Updated, CStr, Tallied, Walked, Seen;
    removed := RemoveSlot(vol, name, p.start, v, g.nodes[p.start].chain);
    u := vol.V();
    RemovalFacts(v, g, p.start, name, u, removed);
    HoldsAll(v, u, g, up);
    SeenIsWalked(v.table, u.table, g.nodes[up].chain);
    SeenHeld(u, g.nodes[up].chain);
    found := UpdateSlot(vol, p.Name(), up, Tallied(p, -1), u, Seen(u.table, g.nodes[up].chain));
  }

  lemma {:induction false} SeenHeld(u: Vol, ch: seq<nat>)
    requires u.Valid() && u.Holds(ch)
    ensures u.Holds(Seen(u.table, ch))
  {
  }

  /** The rest of `fat_delete`. */
  method DeleteFound(vol: Volume, name: Text, directory: Text, e: DirEntry, ghost v: Vol, ghost g: Catalog,
                     ghost cs: seq<Text>, ghost slash: bool, ghost root: DirEntry)
    returns (ghost k: Catalog)
    requires vol.Valid() && vol.V() == v && Inv(v, g) && Components(cs) && cs != []
    requires vol.g.rootEntries < 0x10000 && root == RootEntry(vol.g.rootEntries)
    requires Target(g.nodes, BytesOf(v, g), root, cs, e, -1) && (slash ==> SlotInTable(v, BytesOf(v, g), e))
    requires Named(cs) ==> Leaf(g.nodes, DirsIn(g.nodes, BytesOf(v, g)), e.start)
    requires name == BaseOf(cs, slash) && directory == Join(ParentOf(cs, slash))
    modifies vol`disk, vol.fat
    ensures vol.Valid() && Executed(v, g, root, cs, slash, vol.V())
    ensures if !slash && Named(cs) then
              && WalkReady(vol.V(), k)
              && Deleted(g.nodes, BytesOf(v, g), SpotOf(BytesOf(v, g), root, Upper(cs)), e.start, k.nodes,
                         BytesOf(vol.V(), k))
            else
              k == g
    ensures e.start in BytesOf(v, g) && e.Valid()
    ensures InOrder(vol.V()) <==> if slash then Harmless(v, BytesOf(v, g), e, Named(cs))
                                  else Named(cs) && CountsRight(BytesOf(v, g), root, Upper(cs))
    ensures InOrder(vol.V()) ==> Inv(vol.V(), k)
  {
    hide *;
    TargetParts(v, g, root, cs, slash, e);
    ghost var dir, s := ParentOf(cs, slash), SpotOf(BytesOf(v, g), root, ParentOf(cs, slash));
    RootName(vol.g.rootEntries);
    var parent := FindPath(vol, directory, g, dir);
    var up := FindPath(vol, ParentPath(directory), g, Upper(dir));
    ghost var u;
    var removed, found;
    u, removed, found := TakeOut(vol, name, parent.e, up.e.start, s, v, g);
    k := g;
    StepsExecuted(v, g, root, cs, slash, parent.e, u, removed, vol.V(), found);
    TargetIsNode(v, g, root, cs, e);
    if !slash && Named(cs) {
      k := CatalogFreed(g, e.start);
    }
    DeletedOutcome(v, g, root, cs, slash, e, parent.e, u, removed, vol.V(), found, k);
  }

  lemma {:induction false} StepsExecuted(v: Vol, g: Catalog, root: DirEntry, cs: seq<Text>, slash: bool, p: DirEntry,
                                         u: Vol, removed: bool, w: Vol, found: bool)
    requires Inv(v, g) && Resolve(BytesOf(v, g), root, ParentOf(cs, slash)) == Found(p)
    requires Steps(v, g, p, BaseOf(cs, slash), SpotOf(BytesOf(v, g), root, ParentOf(cs, slash)), u, removed, w, found)
    ensures Executed(v, g, root, cs, slash, w)
  {
    hide Steps, Resolve, SpotOf;
  }

  lemma {:induction false} TargetIsNode(v: Vol, g: Catalog, root: DirEntry, cs: seq<Text>, e: DirEntry)
    requires Inv(v, g) && Target(g.nodes, BytesOf(v, g), root, cs, e, -1)
    ensures e.start in g.nodes && e.start in BytesOf(v, g) && e.Valid()
    ensures Resolve(BytesOf(v, g), root, cs) == Found(e)
  {
    hide ImageOk, ChainsOk, Slots, Find, Resolve, Descend, TreeOk;
    InvImage(v, g);
    OkHasTree(g.nodes, BytesOf(v, g));
    TargetWhere(g.nodes, BytesOf(v, g), root, cs, e);
  }

  /** What the two stores come to, in each of the three cases. */
  lemma {:induction false} DeletedOutcome(v: Vol, g: Catalog, root: DirEntry, cs: seq<Text>, slash: bool, e: DirEntry,
                                          p: DirEntry, u: Vol, removed: bool, w: Vol, found: bool, k: Catalog)
    requires Inv(v, g) && Components(cs) && Target(g.nodes, BytesOf(v, g), root, cs, e, -1) && cs != []
    requires Named(cs) ==> Leaf(g.nodes, DirsIn(g.nodes, BytesOf(v, g)), e.start)
    requires Resolve(BytesOf(v, g), root, ParentOf(cs, slash)) == Found(p) && root.name == Padded("~", NAME_SIZE)
    requires Steps(v, g, p, BaseOf(cs, slash), SpotOf(BytesOf(v, g), root, ParentOf(cs, slash)), u, removed, w, found)
    requires e.start in g.nodes && k == if !slash && Named(cs) then CatalogFreed(g, e.start) else g
    ensures e.start in BytesOf(v, g) && e.Valid()
    ensures !slash && Named(cs) ==>
              && WalkReady(w, k)
              && Deleted(g.nodes, BytesOf(v, g), SpotOf(BytesOf(v, g), root, Upper(cs)), e.start, k.nodes, BytesOf(w, k))
    ensures InOrder(w) <==> if slash then Harmless(v, BytesOf(v, g), e, Named(cs))
                            else Named(cs) && CountsRight(BytesOf(v, g), root, Upper(cs))
    ensures InOrder(w) ==> Inv(w, k)
  {
    hide *;
    InvWalks(v, g);
    TargetIsNode(v, g, root, cs, e);
    if slash {
      SlashedTarget(g.nodes, BytesOf(v, g), root, cs, e);
      SlashOutcome(v, g, e, SpotOf(BytesOf(v, g), root, cs), LastOf(cs), u, removed, w, found);
    } else {
      NotSlashed(cs);
      if Named(cs) {
        NodeDeleted(v, u, w, g, root, cs, e, p, removed, found);
        RightFor(BytesOf(v, g), root, Upper(cs), p);
        OrderByCatalog(w, k);
      } else {
        DotDeleted(v, u, w, g, root, cs, e, p, removed, found);
      }
    }
  }

  lemma {:induction false} SlashedTarget(nodes: Nodes, b: Bytes, root: DirEntry, cs: seq<Text>, e: DirEntry)
    requires Target(nodes, b, root, cs, e, -1) && Components(cs)
    ensures ParentOf(cs, true) == cs && BaseOf(cs, true) == [] && Resolve(b, root, cs) == Found(e)
    ensures Placed(nodes, DirsIn(nodes, b), SpotOf(b, root, cs), e, LastOf(cs)) && LastOf(cs) != []
    ensures Named(cs) <==> LastOf(cs) != DOT && LastOf(cs) != DOTDOT
  {
    hide Slots, Find, Resolve, Descend, SpotOf, Placed;
    assert Component(cs[|cs| - 1]);
  }

  lemma {:induction false} RightFor(b: Bytes, root: DirEntry, front: seq<Text>, p: DirEntry)
    requires Resolve(b, root, front) == Found(p)
    ensures CountsRight(b, root, front) <==> p.start == 0 || Named(front)
  {
  }

  // --- a file nothing was written to, behind a slash ---------------------------------------

  lemma {:induction false} ZerosFirstSlot(n: nat)
    requires n >= ENTRY_SIZE
    ensures |Slots(Zeros(n))| > 0 && Find(Slots(Zeros(n)), [], false, 0) == 0 && Slots(Zeros(n))[0].start == 0
  {
    SlotsZeros(n);
    EmptyEntry();
    assert Slots(Zeros(n))[0] == NO_ENTRY;
    FindAt(Slots(Zeros(n)), [], false, 0);
  }

  lemma {:induction false} StepsFree(v: Vol, g: Catalog, e: DirEntry, s: Spot, u: Vol, removed: bool, w: Vol, found: bool)
    requires Steps(v, g, e, [], s, u, removed, w, found) && BytesOf(v, g)[e.start] == Zeros(v.bpc)
    ensures 0 in g.nodes && w.table == Cleared(v.table, g.nodes[0].chain) && w.table[0] == FREE
  {
    hide ChainsOk, Slots, Find, IsChain, Removable, Removed, Updated, Seen, CStr, Zeros;
    ZerosFirstSlot(v.bpc);
    RemovalFacts(v, g, e.start, [], u, removed);
    RootInUse(v.table, g);
    RootNode(v.table, g);
    ChainOf(v.table, g, 0);
    FreeFromChain(v.table, g.nodes[0].chain);
    ChainOf(v.table, g, UpOf(s));
    ChainDistinct(v.table, g.nodes[UpOf(s)].chain);
    UpdateFacts(u, w, g.nodes[UpOf(s)].chain, e.Name(), Tallied(e, -1), found);
  }

  lemma {:induction false} RootNode(t: Table, g: Catalog)
    requires ChainsOk(t, g)
    ensures 0 in g.nodes
  {
  }

  lemma {:induction false} RootFreed(w: Vol)
    requires |w.table| > 0 && w.table[0] == FREE
    ensures !InOrder(w)
  {
    hide ImageOk, BytesOf;
    forall k: Catalog
      ensures !Inv(w, k)
    {
      if w.Valid() && ChainsOk(w.table, k) {
        RootInUse(w.table, k);
      }
    }
  }

  /** The path of a file whose first cluster is its only one and still zeroed, with a slash behind it: the slot found
      in its bytes is empty and points to cluster 0, and so the whole root directory is freed. */
  lemma {:induction false} SlashFreesRoot(v: Vol, g: Catalog, root: DirEntry, cs: seq<Text>, e: DirEntry, code: int,
                                          k: Catalog, w: Vol)
    requires Inv(v, g) && Resolve(BytesOf(v, g), root, cs) == Found(e) && !e.IsDir() && e.Valid()
    requires e.start in g.nodes && BytesOf(v, g)[e.start] == Zeros(v.bpc)
    requires DeleteOutcome(v, g, root, cs, true, false, code, k, w)
    ensures DeleteRefusal(BytesOf(v, g), root, cs, false) == 0 && code == 0
    ensures 0 in g.nodes && w.table == Cleared(v.table, g.nodes[0].chain)
    ensures !InOrder(w) && !DeleteKeeps(v, g, root, cs, true, false)
  {
    hide ImageOk, ChainsOk, Slots, Find, Resolve, SpotOf, Steps, InOrder, Zeros;
    InvWalks(v, g);
    RootInUse(v.table, g);
    ZerosFirstSlot(v.bpc);
    var s := SpotOf(BytesOf(v, g), root, cs);
    var u: Vol, removed: bool, found: bool :| Steps(v, g, e, [], s, u, removed, w, found);
    StepsFree(v, g, e, s, u, removed, w, found);
    RootFreed(w);
  }
}
