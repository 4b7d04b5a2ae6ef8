/** fat.c: the two stores of `fat_delete` as relations, and what they do behind a path that ends in a dot component or
    a slash. */
module DeleteSteps {
  import opened CText
  import opened DirEntries
  import opened Directory
  import opened FatTable
  import opened Volumes
  import opened ChainGrowth
  import opened FileTree
  import opened Catalogs
  import opened Images
  import opened PathNames
  import opened TreeWalk
  import opened FileEffects
  import opened VolumeOrder
  import opened FileOps

  // --- where a path leads ------------------------------------------------------------------

  /** The entry `e` a path leads to, kept in the directory its parent path leads to. */
  ghost predicate Target(nodes: Nodes, b: Bytes, root: DirEntry, cs: seq<Text>, e: DirEntry, delta: int) {
    && b.Keys == nodes.Keys && cs != [] && Resolve(b, root, cs) == Found(e) && e.Valid()
    && Placed(nodes, DirsIn(nodes, b), SpotOf(b, root, cs), e, cs[|cs| - 1])
    && Descend(b, root, cs[..|cs| - 1]).Found?
    && Descend(b, root, cs[..|cs| - 1]).e.start == SpotOf(b, root, cs).dir
    && ParentIs(nodes, b, root, cs[..|cs| - 1], Descend(b, root, cs[..|cs| - 1]).e, delta)
  }

  lemma {:induction false} TargetFound(v: Vol, g: Catalog, root: DirEntry, cs: seq<Text>, delta: int)
    requires Inv(v, g) && v.bpc < 0x20000 && Components(cs) && root.IsDir() && root.start == 0 && -1 <= delta <= 1
    requires OffFiles(BytesOf(v, g), root, cs) && Resolve(BytesOf(v, g), root, cs).Found? && cs != []
    requires Resolve(BytesOf(v, g), root, cs).e.Valid()
    ensures Target(g.nodes, BytesOf(v, g), root, cs, Resolve(BytesOf(v, g), root, cs).e, delta)
  {
    hide ImageOk, ChainsOk, Slots, Find, Resolve, OffFiles, ParentIs, TreeOk, Placed;
    var b, front, name := BytesOf(v, g), cs[..|cs| - 1], cs[|cs| - 1];
    assert Component(name);
    InvImage(v, g);
    OkHasTree(g.nodes, b);
    OffFilesDescends(b, root, cs);
    ResolveIsLookup(b, root, cs);
    DescendNode(g.nodes, b, root, front);
    var p := Descend(b, root, front).e;
    CountFits(v, g, p.start, delta);
    ParentIsFound(g.nodes, b, root, front, delta);
    LookupPlaced(g.nodes, b, p, name);
  }

  /** A path that does not end in a dot component leads to the one slot that names a node. */
  lemma {:induction false} TargetNode(nodes: Nodes, b: Bytes, root: DirEntry, cs: seq<Text>, e: DirEntry, delta: int)
    requires Target(nodes, b, root, cs, e, delta) && Named(cs)
    ensures e.start in nodes && e.start != 0 && Hangs(nodes, DirsIn(nodes, b), e.start)
    ensures EntryOf(nodes, DirsIn(nodes, b), e.start) == e && e.Name() == cs[|cs| - 1]
    ensures Descend(b, root, cs[..|cs| - 1]).e.start == nodes[e.start].parent
    ensures Find(DirsIn(nodes, b)[nodes[e.start].parent], cs[|cs| - 1], false, 0) == nodes[e.start].slot
  {
  }

  /** The entry `p` a path leads to as the code finds it: the root's made-up one, or one kept at `s`. */
  ghost predicate Held(nodes: Nodes, ds: Dirs, s: Spot, p: DirEntry, last: Text) {
    && p.Valid() && p.start in nodes && UpOf(s) in ds
    && if s.NoSpot? then p.name == Padded("~", NAME_SIZE) else Placed(nodes, ds, s, p, last)
  }

  // --- the two stores ----------------------------------------------------------------------

  /** `fat_update_dir_entry` as a relation. */
  ghost predicate Updated(v: Vol, w: Vol, ch: seq<nat>, name: Text, e: DirEntry, ok: bool)
    requires v.Valid() && v.Holds(ch) && e.Valid()
  {
    var k := Find(DirOn(v, ch), name, true, 0);
    && (ok <==> k < |DirOn(v, ch)|)
    && if ok then Patched(v, w, ch, ENTRY_SIZE * k, Encode(e)) else w == v
  }

  /** The removal of `name` from the node of entry `p`, which leaves `u`, and then the update of that entry, kept at
      `s`, in the part of its directory that can still be walked through. */
  ghost predicate Steps(v: Vol, g: Catalog, p: DirEntry, name: Text, s: Spot, u: Vol, removed: bool, w: Vol, found: bool) {
    && v.Valid() && ChainsOk(v.table, g) && p.Valid() && p.start in g.nodes && UpOf(s) in g.nodes
    && IsChain(v.table, g.nodes[p.start].chain) && Removable(v, g.nodes[p.start].chain, name)
    && Removed(v, u, g.nodes[p.start].chain, name, removed)
    && u.Valid() && u.Holds(g.nodes[UpOf(s)].chain)
    && Updated(u, w, Seen(u.table, g.nodes[UpOf(s)].chain), p.Name(), Tallied(p, -1), found)
  }

  /** The slot a removal works on. */
  ghost function SlotOf(v: Vol, g: Catalog, q: nat, name: Text): nat
    requires v.Valid() && ChainsOk(v.table, g) && q in g.nodes
  {
    Find(Slots(BytesOf(v, g)[q]), name, false, 0)
  }

  /** The removal alone. */
  lemma {:induction false} RemovalFacts(v: Vol, g: Catalog, q: nat, name: Text, u: Vol, removed: bool)
    requires v.Valid() && ChainsOk(v.table, g) && q in g.nodes && IsChain(v.table, g.nodes[q].chain)
    requires Removable(v, g.nodes[q].chain, name) && Removed(v, u, g.nodes[q].chain, name, removed)
    ensures var (x, j) := (Slots(BytesOf(v, g)[q]), SlotOf(v, g, q, name));
            && (removed <==> j < |x|)
            && (removed ==> x[j].start < |v.table| && u.table == FreeFrom(v.table, x[j].start))
            && (removed ==> u.Valid() && u.Holds(g.nodes[q].chain) && DirOn(u, g.nodes[q].chain) == x[j := NO_ENTRY])
    ensures !removed ==> u == v
    ensures u.Valid() && u.bpc == v.bpc && |u.data| == |v.data| && SomeFreed(v.table, u.table)
  {
    hide Slots, Find, ChainsOk, IsChain, Encode;
    if removed {
      var j := SlotOf(v, g, q, name);
      EncodeNoEntry();
      SlotPatched(Freed(v, Slots(BytesOf(v, g)[q])[j].start), u, g.nodes[q].chain, j, NO_ENTRY);
      ContentFrame(v, Freed(v, Slots(BytesOf(v, g)[q])[j].start), g.nodes[q].chain);
    }
  }

  lemma {:induction false} RemovalElsewhere(v: Vol, g: Catalog, q: nat, name: Text, u: Vol, removed: bool, d: nat)
    requires v.Valid() && ChainsOk(v.table, g) && q in g.nodes && IsChain(v.table, g.nodes[q].chain)
    requires Removable(v, g.nodes[q].chain, name) && Removed(v, u, g.nodes[q].chain, name, removed) && d in g.nodes
    ensures u.Valid() && u.Holds(g.nodes[d].chain)
    ensures d != q || !removed ==> Content(u, g.nodes[d].chain) == BytesOf(v, g)[d]
  {
    hide Slots, Find, ChainsOk, IsChain, Encode, Content;
    RemovalFacts(v, g, q, name, u, removed);
    ChainOf(v.table, g, d);
    HoldsAll(v, u, g, d);
    if removed && d != q {
      ChainsApart(v.table, g, d, q);
      var f := Freed(v, Slots(BytesOf(v, g)[q])[SlotOf(v, g, q, name)].start);
      ContentFrame(v, f, g.nodes[d].chain);
      PatchedApart(f, u, g.nodes[q].chain, ENTRY_SIZE * SlotOf(v, g, q, name), Zeros(ENTRY_SIZE), g.nodes[d].chain);
    }
  }

  lemma {:induction false} HoldsAll(v: Vol, w: Vol, g: Catalog, d: nat)
    requires v.Valid() && w.Valid() && |w.data| == |v.data| && ChainsOk(v.table, g) && d in g.nodes
    ensures v.Holds(g.nodes[d].chain) && w.Holds(g.nodes[d].chain)
  {
    ChainOf(v.table, g, d);
  }

  /** The update alone, through the part of the chain `ch` that can be seen. */
  lemma {:induction false} UpdateFacts(u: Vol, w: Vol, ch: seq<nat>, name: Text, e: DirEntry, found: bool)
    requires u.Valid() && u.Holds(ch) && Distinct(ch) && e.Valid()
    requires Updated(u, w, Seen(u.table, ch), name, e, found)
    ensures w.Valid() && w.bpc == u.bpc && |w.data| == |u.data| && w.table == u.table && (!found ==> w == u)
    ensures found ==> exists i: nat :: UpdatedAt(u, w, ch, name, e, i)
    ensures Seen(u.table, ch) == ch && Find(DirOn(u, ch), name, true, 0) < |DirOn(u, ch)| ==> found
  {
    hide Find, Slots, Encode;
    if found {
      var n, seen := Reach(u.table, ch, 0), Seen(u.table, ch);
      var i := Find(DirOn(u, seen), name, true, 0);
      PatchedWhole(u, w, ch, n, ENTRY_SIZE * i, Encode(e));
      SlotPatched(u, w, ch, i, e);
      UptoOfPrefix(u, ch, n, n);
      UptoIsPrefix(u, ch, n, |ch|);
      SlotOfPrefix(Content(u, seen), Content(u, ch), i);
      assert UpdatedAt(u, w, ch, name, e, i);
    }
  }

  lemma {:induction false} SlotOfPrefix(x: seq<Byte>, y: seq<Byte>, i: nat)
    requires x <= y && i < |Slots(x)|
    ensures i < |Slots(y)| && Slots(y)[i] == Slots(x)[i]
  {
    assert x[ENTRY_SIZE * i..ENTRY_SIZE * (i + 1)] == y[ENTRY_SIZE * i..ENTRY_SIZE * (i + 1)];
  }

  ghost predicate UpdatedAt(u: Vol, w: Vol, ch: seq<nat>, name: Text, e: DirEntry, i: nat)
    requires u.Valid() && u.Holds(ch) && e.Valid()
  {
    && i < |DirOn(u, ch)| && Matches(DirOn(u, ch)[i], name, true)
    && Patched(u, w, ch, ENTRY_SIZE * i, Encode(e))
  }

  /** A slot with the name of `p` holds `p`, in its directory as it was, or without a slot of another name. */
  lemma {:induction false} HitIsKept(nodes: Nodes, ds: Dirs, s: Spot, p: DirEntry, last: Text, es: Dir, j: nat, i: nat)
    requires TreeOk(nodes, ds) && Held(nodes, ds, s, p, last) && (s.Spot? ==> last != [])
    requires es == ds[UpOf(s)] || (j < |ds[UpOf(s)]| && es == ds[UpOf(s)][j := NO_ENTRY])
    requires i < |es| && es[i].Name() == p.Name()
    ensures s.Spot? && i == s.slot && es[i] == p
  {
    hide LinkedUp, CStr, Find;
    RootIsDir(nodes, ds);
    assert DirOk(ds[UpOf(s)], UpOf(s), nodes[UpOf(s)].parent);
    EmptyEntry();
    if s.NoSpot? {
      RootNameIsIllegal(p);
      NoSuchName(nodes, ds, 0, "~");
    }
  }

  // --- what the two stores leave of the tree -----------------------------------------------

  /** All chains hold the bytes they did, but for slots that name nothing and sizes. */
  ghost predicate NamesStay(v: Vol, g: Catalog, w: Vol) {
    && v.Valid() && w.Valid() && w.bpc == v.bpc && |w.data| == |v.data|
    && forall d {:trigger DirStays(v, g, w, d)} :: d in g.nodes ==> DirStays(v, g, w, d)
  }

  ghost predicate DirStays(v: Vol, g: Catalog, w: Vol, d: nat)
    requires d in g.nodes && v.Valid() && w.Valid()
  {
    && v.Holds(g.nodes[d].chain) && w.Holds(g.nodes[d].chain)
    && (g.nodes[d].isDir ==> Stays(v, w, g.nodes[d].chain))
  }

  lemma {:induction false} RemovalStays(v: Vol, g: Catalog, q: nat, name: Text, u: Vol, removed: bool, d: nat)
    requires v.Valid() && ChainsOk(v.table, g) && q in g.nodes && IsChain(v.table, g.nodes[q].chain)
    requires Removable(v, g.nodes[q].chain, name) && Removed(v, u, g.nodes[q].chain, name, removed) && d in g.nodes
    requires name == [] || name == DOT || name == DOTDOT
    ensures u.Valid() && DirStays(v, g, u, d)
  {
    hide Slots, Find, ChainsOk, IsChain, Removable, Removed, CStr;
    RemovalFacts(v, g, q, name, u, removed);
    RemovalElsewhere(v, g, q, name, u, removed, d);
    HoldsAll(v, u, g, d);
    if d != q || !removed {
      StaysSame(v, u, g.nodes[d].chain);
    } else {
      NamesNothing(Slots(BytesOf(v, g)[q]), name);
    }
  }

  lemma {:induction false} NamesNothing(x: Dir, name: Text)
    requires name == [] || name == DOT || name == DOTDOT
    ensures Find(x, name, false, 0) < |x| ==> !Live(x[Find(x, name, false, 0)])
  {
  }

  lemma {:induction false} UpdateStays(v: Vol, g: Catalog, u: Vol, w: Vol, up: nat, p: DirEntry, found: bool, d: nat)
    requires v.Valid() && ChainsOk(v.table, g) && up in g.nodes && d in g.nodes && p.Valid()
    requires u.Valid() && u.bpc == v.bpc && |u.data| == |v.data| && DirStays(v, g, u, d) && u.Holds(g.nodes[up].chain)
    requires w.Valid() && w.bpc == u.bpc && |w.data| == |u.data| && (!found ==> w == u)
    requires found ==> exists i: nat :: UpdatedAt(u, w, g.nodes[up].chain, p.Name(), Tallied(p, -1), i)
    requires forall i: nat :: i < |DirOn(u, g.nodes[up].chain)| && DirOn(u, g.nodes[up].chain)[i].Name() == p.Name() ==>
               DirOn(u, g.nodes[up].chain)[i] == p
    ensures DirStays(v, g, w, d)
  {
    hide Slots, Find, ChainsOk, CStr, Encode, Content, Stays, Patched, Tallied, LinksInRange;
    HoldsAll(v, w, g, d);
    if found {
      var i: nat :| UpdatedAt(u, w, g.nodes[up].chain, p.Name(), Tallied(p, -1), i);
      SlotPatchStays(v.table, g, u, w, up, i, Tallied(p, -1), d);
      if g.nodes[d].isDir {
        StaysBoth(v, u, w, g.nodes[d].chain);
      }
    }
  }

  /** Behind a dot component or a slash, the two stores free entries of the table and change sizes; no directory stops
      naming what it named. */
  lemma {:induction false} StepsStay(v: Vol, g: Catalog, p: DirEntry, name: Text, s: Spot, last: Text, u: Vol,
                                     removed: bool, w: Vol, found: bool)
    requires Inv(v, g) && Steps(v, g, p, name, s, u, removed, w, found)
    requires Held(g.nodes, DirsIn(g.nodes, BytesOf(v, g)), s, p, last) && (s.Spot? ==> last != [])
    requires name == [] || name == DOT || name == DOTDOT
    ensures w.table == u.table && SomeFreed(v.table, w.table) && NamesStay(v, g, w)
  {
    hide Slots, Find, ChainsOk, IsChain, CStr, Removable, Removed, Updated, DirStays, Held, ImageOk, TreeOk;
    var up := UpOf(s);
    var ch := g.nodes[up].chain;
    InvImage(v, g);
    OkHasTree(g.nodes, BytesOf(v, g));
    RemovalFacts(v, g, p.start, name, u, removed);
    ChainOf(v.table, g, up);
    ChainDistinct(v.table, ch);
    UpdateFacts(u, w, ch, p.Name(), Tallied(p, -1), found);
    UpDirAfter(v, g, p, name, s, last, u, removed);
    forall d | d in g.nodes
      ensures DirStays(v, g, w, d)
    {
      RemovalStays(v, g, p.start, name, u, removed, d);
      UpdateStays(v, g, u, w, up, p, found, d);
    }
  }

  /** After the removal, the directory of the entry still has it in its slot, and its name in no other. */
  lemma {:induction false} UpDirAfter(v: Vol, g: Catalog, p: DirEntry, name: Text, s: Spot, last: Text, u: Vol,
                                      removed: bool)
    requires Inv(v, g) && p.start in g.nodes && UpOf(s) in g.nodes && v.Valid() && IsChain(v.table, g.nodes[p.start].chain)
    requires Held(g.nodes, DirsIn(g.nodes, BytesOf(v, g)), s, p, last) && (s.Spot? ==> last != [])
    requires Removable(v, g.nodes[p.start].chain, name) && Removed(v, u, g.nodes[p.start].chain, name, removed)
    ensures u.Valid() && u.Holds(g.nodes[UpOf(s)].chain)
    ensures forall i: nat :: i < |DirOn(u, g.nodes[UpOf(s)].chain)| && DirOn(u, g.nodes[UpOf(s)].chain)[i].Name() == p.Name() ==>
              s.Spot? && i == s.slot && DirOn(u, g.nodes[UpOf(s)].chain)[i] == p
  {
    hide Slots, Find, ChainsOk, IsChain, CStr, Removable, Removed, Held, CountsOk, FilesOk, TreeOk;
    var ds, up := DirsIn(g.nodes, BytesOf(v, g)), UpOf(s);
    RemovalFacts(v, g, p.start, name, u, removed);
    RemovalElsewhere(v, g, p.start, name, u, removed, up);
    HeldUp(g.nodes, ds, s, p, last);
    var es := DirOn(u, g.nodes[up].chain);
    forall i: nat | i < |es| && es[i].Name() == p.Name()
      ensures s.Spot? && i == s.slot && es[i] == p
    {
      HitIsKept(g.nodes, ds, s, p, last, es, SlotOf(v, g, p.start, name), i);
    }
  }

  lemma {:induction false} HeldUp(nodes: Nodes, ds: Dirs, s: Spot, p: DirEntry, last: Text)
    requires Held(nodes, ds, s, p, last)
    ensures UpOf(s) in ds
  {
  }

  // --- freeing what is still named ---------------------------------------------------------

  lemma {:induction false} ChainSuffix(t: Table, ch: seq<nat>, j: nat)
    requires IsChain(t, ch) && j < |ch|
    ensures IsChain(t, ch[j..])
  {
    forall i | 0 <= i < |ch[j..]|
      ensures LinkAt(t, ch[j..], i)
    {
      assert LinkAt(t, ch, i + j);
    }
  }

  /** Freeing from inside the chain of `y` leaves all other chains. */
  lemma {:induction false} FreedWithin(t: Table, g: Catalog, y: nat, c: nat, h: nat)
    requires ChainsOk(t, g) && y in g.nodes && c in g.nodes[y].chain && h in g.nodes && h != y
    ensures c < |t| && IsChain(FreeFrom(t, c), g.nodes[h].chain)
  {
    ChainOf(t, g, y);
    ChainOf(t, g, h);
    var ch := g.nodes[y].chain;
    var j: nat :| j < |ch| && ch[j] == c;
    ChainSuffix(t, ch, j);
    FreeFromChain(t, ch[j..]);
    ChainsApart(t, g, h, y);
    assert forall x :: x in ch[j..] ==> x in ch;
    ChainFrame(t, FreeFrom(t, c), g.nodes[h].chain);
  }

  lemma {:induction false} ReservedIsUsed(w: Vol)
    requires |w.table| > 1 && w.table[1] == FREE
    ensures !InOrder(w)
  {
  }

  /** Freeing an entry in use, while all directories name what they did, leaves a volume no catalog fits. */
  lemma {:induction false} FreeingIsFatal(v: Vol, g: Catalog, w: Vol, c: nat)
    requires Inv(v, g) && NamesStay(v, g, w) && c < |v.table| && v.table[c] != FREE && w.table == FreeFrom(v.table, c)
    ensures !InOrder(w)
  {
    hide ImageOk, TreeOk, IsChain, Stays;
    InvWalks(v, g);
    if c == 1 {
      ReservedIsUsed(w);
    } else {
      var y := g.own[c];
      assert OwnOk(g, c);
      forall h | h in g.nodes && g.nodes[h].depth < g.nodes[y].depth
        ensures NodeStays(v, g, w, h)
      {
        FreedWithin(v.table, g, y, c, h);
        assert DirStays(v, g, w, h);
      }
      CutIsFatal(v, g, w, y, c);
    }
  }

  // --- a slash behind the path -------------------------------------------------------------

  /** Behind a slash the removal looks for an empty name in what the path leads to, and frees what stands in that slot.
      No harm is done if there is no such slot or the entry it points to is free, and if a file one byte
      shorter still ends in zeros; a directory would have to count one less. A dot slot is not counted in. */
  ghost predicate Harmless(v: Vol, b: Bytes, e: DirEntry, named: bool)
    requires e.start in b && e.Valid()
  {
    var x := Slots(b[e.start]);
    var j, n := Find(x, [], false, 0), Tallied(e, -1).size;
    && (j < |x| ==> x[j].start < |v.table| && v.table[x[j].start] == FREE)
    && (named ==> !e.IsDir() && n <= |b[e.start]|
                  && (n < |b[e.start]| ==> ENTRY_SIZE * j <= n < ENTRY_SIZE * (j + 1) || b[e.start][n] == NUL))
  }

  lemma {:induction false} EmptiedTree(nodes: Nodes, ds: Dirs, h: nat, j: nat)
    requires TreeOk(nodes, ds) && h in ds && j < |ds[h]| && ds[h][j].Empty()
    ensures TreeOk(nodes, ds[h := ds[h][j := NO_ENTRY]])
    ensures Used(ds[h][j := NO_ENTRY]) == Used(ds[h])
  {
    hide CStr, AsMap, LegalChar, Names, LinkedUp;
    EmptyEntry();
    assert DirOk(ds[h], h, nodes[h].parent);
    PutSlot(ds[h], j, NO_ENTRY);
    UsedPut(ds[h], j, NO_ENTRY);
    ReplaceKeeps(nodes, ds, h, ds[h][j := NO_ENTRY]);
  }

  lemma {:induction false} EmptiedCounts(nodes: Nodes, ds: Dirs, h: nat, j: nat)
    requires TreeOk(nodes, ds) && CountsOk(nodes, ds) && h in ds && j < |ds[h]| && ds[h][j].Empty()
    requires TreeOk(nodes, ds[h := ds[h][j := NO_ENTRY]]) && Used(ds[h][j := NO_ENTRY]) == Used(ds[h])
    ensures CountsOk(nodes, ds[h := ds[h][j := NO_ENTRY]])
  {
    hide DirsOk, CStr;
    var es := ds[h := ds[h][j := NO_ENTRY]];
    forall x | x in es && x != 0
      ensures Counted(nodes, es, x)
    {
      assert Counted(nodes, ds, x) && Hangs(nodes, es, x) && Hangs(nodes, ds, x);
    }
  }

  /** Zeroing an empty slot, of a directory or in the bytes of a file. */
  lemma {:induction false} EmptiedImage(nodes: Nodes, b: Bytes, h: nat, j: nat)
    requires ImageOk(nodes, b) && h in nodes && j < |Slots(b[h])| && Slots(b[h])[j].Empty()
    ensures NO_ENTRY.Valid() && ENTRY_SIZE * (j + 1) <= |b[h]| && ImageOk(nodes, Put(b, h, j, NO_ENTRY))
    ensures DirsIn(nodes, Put(b, h, j, NO_ENTRY))
         == if nodes[h].isDir then DirsIn(nodes, b)[h := Slots(b[h])[j := NO_ENTRY]] else DirsIn(nodes, b)
  {
    hide Slots, CStr, TreeOk, Encode;
    EncodeNoEntry();
    var ds := DirsIn(nodes, b);
    if nodes[h].isDir {
      PutDirs(nodes, b, h, j, NO_ENTRY);
      EmptiedTree(nodes, ds, h, j);
      EmptiedCounts(nodes, ds, h, j);
      EmptiedFiles(nodes, b, h, j);
    } else {
      assert FileFits(nodes, ds, b, h);
      RewriteImage(nodes, b, h, Splice(b[h], ENTRY_SIZE * j, Zeros(ENTRY_SIZE)));
    }
  }

  lemma {:induction false} EmptiedFiles(nodes: Nodes, b: Bytes, h: nat, j: nat)
    requires b.Keys == nodes.Keys && h in nodes && nodes[h].isDir && j < |Slots(b[h])| && Slots(b[h])[j].Empty()
    requires NO_ENTRY.Valid() && ENTRY_SIZE * (j + 1) <= |b[h]|
    requires TreeOk(nodes, DirsIn(nodes, b)) && FilesOk(nodes, DirsIn(nodes, b), b)
    requires DirsIn(nodes, Put(b, h, j, NO_ENTRY)) == DirsIn(nodes, b)[h := Slots(b[h])[j := NO_ENTRY]]
    requires TreeOk(nodes, DirsIn(nodes, Put(b, h, j, NO_ENTRY)))
    ensures FilesOk(nodes, DirsIn(nodes, Put(b, h, j, NO_ENTRY)), Put(b, h, j, NO_ENTRY))
  {
    hide Slots, CStr, DirsOk, Encode, Splice;
    var ds, es := DirsIn(nodes, b), DirsIn(nodes, Put(b, h, j, NO_ENTRY));
    forall f | f in nodes && !nodes[f].isDir
      ensures FileFits(nodes, es, Put(b, h, j, NO_ENTRY), f)
    {
      assert FileFits(nodes, ds, b, f) && Hangs(nodes, ds, f);
      RootIsDir(nodes, ds);
      assert Hangs(nodes, es, f);
    }
  }

  /** A file of one byte less still ends where zeros begin. */
  ghost predicate EndsInZeros(b: Bytes, e: DirEntry)
    requires e.start in b && e.Valid()
  {
    var n := Tallied(e, -1).size;
    !e.IsDir() && n <= |b[e.start]| && (n < |b[e.start]| ==> b[e.start][n] == NUL)
  }

  lemma {:induction false} NamingSlotNoted(nodes: Nodes, b: Bytes, s: Spot, e: DirEntry, last: Text)
    requires ImageOk(nodes, b) && Placed(nodes, DirsIn(nodes, b), s, e, last) && e.Valid() && last != DOT && last != DOTDOT
    ensures SpotIn(b, s) && e.start in b && b.Keys == nodes.Keys
    ensures DirsIn(nodes, Noted(b, s, -1)) == Resized(nodes, DirsIn(nodes, b), e.start, Tallied(e, -1).size)
    ensures TreeOk(nodes, DirsIn(nodes, Noted(b, s, -1))) && nodes[e.start].isDir == e.IsDir()
    ensures EntryOf(nodes, DirsIn(nodes, Noted(b, s, -1)), e.start) == Tallied(e, -1)
  {
    hide Slots, CStr, Find, Encode, Splice, Tallied, DirsOk;
    SpotInside(nodes, b, s, e, last);
    NotedDirs(nodes, b, s, -1);
    ResizeKeeps(nodes, DirsIn(nodes, b), e.start, Tallied(e, -1).size);
  }

  lemma {:induction false} FileNoted(nodes: Nodes, b: Bytes, s: Spot, e: DirEntry, last: Text)
    requires ImageOk(nodes, b) && Placed(nodes, DirsIn(nodes, b), s, e, last) && e.Valid() && last != DOT && last != DOTDOT
    requires !e.IsDir()
    ensures SpotIn(b, s) && e.start in b && (ImageOk(nodes, Noted(b, s, -1)) <==> EndsInZeros(b, e))
  {
    hide Slots, CStr, Find, Encode, Splice, TreeOk, CountsOk;
    var h, ds, n := e.start, DirsIn(nodes, b), Tallied(e, -1).size;
    NamingSlotNoted(nodes, b, s, e, last);
    assert FileFits(nodes, ds, b, h);
    SpotInside(nodes, b, s, e, last);
    if EndsInZeros(b, e) {
      ResizeFile(nodes, b, h, Tallied(e, -1));
    } else {
      NotFitting(nodes, b, Noted(b, s, -1), h, n);
    }
  }

  lemma {:induction false} NotFitting(nodes: Nodes, b: Bytes, bs: Bytes, h: nat, n: nat)
    requires b.Keys == nodes.Keys == bs.Keys && h in nodes && !nodes[h].isDir && |bs[h]| == |b[h]| && bs[h] == b[h]
    requires Hangs(nodes, DirsIn(nodes, bs), h) && EntryOf(nodes, DirsIn(nodes, bs), h).size == n
    requires n > |b[h]| || (n < |b[h]| && b[h][n] != NUL)
    ensures !FilesOk(nodes, DirsIn(nodes, bs), bs)
  {
    assert !FileFits(nodes, DirsIn(nodes, bs), bs, h);
  }

  lemma {:induction false} DirNoted(nodes: Nodes, b: Bytes, s: Spot, e: DirEntry, last: Text)
    requires ImageOk(nodes, b) && Placed(nodes, DirsIn(nodes, b), s, e, last) && e.Valid() && last != DOT && last != DOTDOT
    requires e.IsDir()
    ensures SpotIn(b, s) && !ImageOk(nodes, Noted(b, s, -1))
  {
    hide Slots, CStr, Find, Encode, Splice, DirOk;
    var h, ds := e.start, DirsIn(nodes, b);
    NamingSlotNoted(nodes, b, s, e, last);
    var es := DirsIn(nodes, Noted(b, s, -1));
    assert Counted(nodes, ds, h) && Hangs(nodes, ds, h);
    assert es[h] == ds[h];
    assert !Counted(nodes, es, h);
  }

  /** With one less noted in the entry of a node, the image is in order if and only if that is a dot slot, or the size
      of a file that can lose a byte. */
  lemma {:induction false} OneLessIsOk(nodes: Nodes, b: Bytes, s: Spot, e: DirEntry, last: Text)
    requires ImageOk(nodes, b) && Placed(nodes, DirsIn(nodes, b), s, e, last) && e.Valid()
    ensures SpotIn(b, s) && e.start in b && b.Keys == nodes.Keys && TreeOk(nodes, DirsIn(nodes, Noted(b, s, -1)))
    ensures ImageOk(nodes, Noted(b, s, -1)) <==> last == DOT || last == DOTDOT || EndsInZeros(b, e)
  {
    hide ImageOk, TreeOk, Slots, CStr, Find, Noted;
    OkHasTree(nodes, b);
    if last == DOT || last == DOTDOT {
      SpotInside(nodes, b, s, e, last);
      OkIsOff(nodes, b);
      DotResized(nodes, b, s, 0, 0, -1);
      RootIsDir(nodes, DirsIn(nodes, b));
      OffIsOk(nodes, Noted(b, s, -1), 0, 0);
      OffHasTree(nodes, Noted(b, s, -1), 0, 0);
      DotLeads(nodes, DirsIn(nodes, b), s, e, last);
    } else {
      NamingSlotNoted(nodes, b, s, e, last);
      if e.IsDir() {
        DirNoted(nodes, b, s, e, last);
      } else {
        FileNoted(nodes, b, s, e, last);
      }
    }
  }

  lemma {:induction false} OkIsOff(nodes: Nodes, b: Bytes)
    requires ImageOk(nodes, b)
    ensures ImageOff(nodes, b, 0, 0)
  {
  }

  lemma {:induction false} DotLeads(nodes: Nodes, ds: Dirs, s: Spot, e: DirEntry, last: Text)
    requires TreeOk(nodes, ds) && Placed(nodes, ds, s, e, last) && (last == DOT || last == DOTDOT)
    ensures e.start in nodes
  {
    hide DirsOk, Find, CStr;
    assert Hangs(nodes, ds, s.dir);
  }

  /** Zeroing an empty slot leaves an entry where it is kept. */
  lemma {:induction false} PlacedAfterEmptied(nodes: Nodes, ds: Dirs, s: Spot, e: DirEntry, last: Text, h: nat, j: nat)
    requires TreeOk(nodes, ds) && Placed(nodes, ds, s, e, last) && last != [] && e.Valid()
    requires h in ds && j < |ds[h]| && ds[h][j].Empty() && TreeOk(nodes, ds[h := ds[h][j := NO_ENTRY]])
    ensures Placed(nodes, ds[h := ds[h][j := NO_ENTRY]], s, e, last)
  {
    hide CStr, LinkedUp, DirsOk;
    var es := ds[h := ds[h][j := NO_ENTRY]];
    EmptyEntry();
    DirUnique(nodes, ds, s.dir);
    FindAt(es[s.dir], last, false, s.slot);
    if last != DOT && last != DOTDOT {
      HangsStill(nodes, ds, es, e.start);
    }
  }

  lemma {:induction false} DirUnique(nodes: Nodes, ds: Dirs, d: nat)
    requires TreeOk(nodes, ds) && d in ds
    ensures UniqueNames(ds[d])
  {
    assert DirOk(ds[d], d, nodes[d].parent);
  }

  lemma {:induction false} HangsStill(nodes: Nodes, ds: Dirs, es: Dirs, h: nat)
    requires TreeOk(nodes, es) && h in nodes && h != 0
    ensures Hangs(nodes, es, h)
  {
  }

  /** The bytes once an empty slot, if there is one, is zeroed in node `h`. */
  ghost function Emptied(b: Bytes, h: nat): Bytes
    requires h in b
  {
    var j := Find(Slots(b[h]), [], false, 0);
    if j < |Slots(b[h])| && NO_ENTRY.Valid() then Put(b, h, j, NO_ENTRY) else b
  }

  /** The image with the slot emptied: in order, with the entry `e` of `h` where it was. */
  lemma {:induction false} EmptiedFacts(nodes: Nodes, b: Bytes, s: Spot, e: DirEntry, last: Text)
    requires ImageOk(nodes, b) && Placed(nodes, DirsIn(nodes, b), s, e, last) && last != [] && e.Valid()
    ensures e.start in b && ImageOk(nodes, Emptied(b, e.start))
    ensures Placed(nodes, DirsIn(nodes, Emptied(b, e.start)), s, e, last)
  {
    hide ImageOk, TreeOk, CStr, Find, Slots, Placed, Put, Encode;
    OkHasTree(nodes, b);
    EncodeNoEntry();
    PlacedStart(nodes, DirsIn(nodes, b), s, e, last);
    var j := Find(Slots(b[e.start]), [], false, 0);
    if j < |Slots(b[e.start])| {
      EmptiedImage(nodes, b, e.start, j);
      OkHasTree(nodes, Put(b, e.start, j, NO_ENTRY));
      if nodes[e.start].isDir {
        PlacedAfterEmptied(nodes, DirsIn(nodes, b), s, e, last, e.start, j);
      }
    }
  }

  lemma {:induction false} PlacedStart(nodes: Nodes, ds: Dirs, s: Spot, e: DirEntry, last: Text)
    requires TreeOk(nodes, ds) && Placed(nodes, ds, s, e, last)
    ensures e.start in nodes
  {
    hide Find, CStr;
    if last == DOT || last == DOTDOT {
      DotLeads(nodes, ds, s, e, last);
    }
  }

  /** The removal, if it frees nothing that was in use. */
  lemma {:induction false} RemovalEmpties(v: Vol, g: Catalog, h: nat, u: Vol, removed: bool)
    requires Inv(v, g) && v.Valid() && h in g.nodes && IsChain(v.table, g.nodes[h].chain)
    requires Removable(v, g.nodes[h].chain, []) && Removed(v, u, g.nodes[h].chain, [], removed)
    requires var x := Slots(BytesOf(v, g)[h]);
             SlotOf(v, g, h, []) < |x| ==> v.table[x[SlotOf(v, g, h, [])].start] == FREE
    ensures u.Valid() && u.bpc == v.bpc && u.table == v.table && ChainsOk(v.table, g)
    ensures BytesOf(u, g) == Emptied(BytesOf(v, g), h)
  {
    hide Slots, Find, IsChain, Encode, ImageOk, ChainsOk;
    EncodeNoEntry();
    RemovalFacts(v, g, h, [], u, removed);
    if removed {
      var x, j := Slots(BytesOf(v, g)[h]), SlotOf(v, g, h, []);
      assert FreeFrom(v.table, x[j].start) == v.table;
      assert Freed(v, x[j].start) == v;
      PatchedBytes(v, u, g, h, ENTRY_SIZE * j, Zeros(ENTRY_SIZE));
    }
  }

  /** The update, on a table where all chains are whole. */
  lemma {:induction false} UpdateNotes(u: Vol, w: Vol, g: Catalog, s: Spot, e: DirEntry, last: Text, found: bool)
    requires u.Valid() && ChainsOk(u.table, g) && TreeOk(g.nodes, DirsIn(g.nodes, BytesOf(u, g))) && e.Valid()
    requires Placed(g.nodes, DirsIn(g.nodes, BytesOf(u, g)), s, e, last) && UpOf(s) in g.nodes && u.Holds(g.nodes[UpOf(s)].chain)
    requires Updated(u, w, Seen(u.table, g.nodes[UpOf(s)].chain), e.Name(), Tallied(e, -1), found)
    ensures w.Valid() && w.bpc == u.bpc && w.table == u.table && SpotIn(BytesOf(u, g), s)
    ensures BytesOf(w, g) == Noted(BytesOf(u, g), s, -1)
  {
    hide Slots, Find, IsChain, Encode, TreeOk, ChainsOk, CStr, Placed, Splice, Tallied, Content;
    PlacedUp(g.nodes, DirsIn(g.nodes, BytesOf(u, g)), s, e, last);
    ChainOf(u.table, g, s.dir);
    SeenWhole(u.table, g.nodes[s.dir].chain);
    KeptWhere(g.nodes, BytesOf(u, g), s, e, last);
    SpotInside(g.nodes, BytesOf(u, g), s, e, last);
    PatchedBytes(u, w, g, s.dir, ENTRY_SIZE * s.slot, Encode(Tallied(e, -1)));
  }

  lemma {:induction false} PlacedUp(nodes: Nodes, ds: Dirs, s: Spot, e: DirEntry, last: Text)
    requires Placed(nodes, ds, s, e, last)
    ensures s.Spot? && UpOf(s) == s.dir && s.dir in nodes && e.Name() == last
  {
  }

  lemma {:induction false} SlashHarms(v: Vol, g: Catalog, e: DirEntry, s: Spot, last: Text, u: Vol, removed: bool, w: Vol,
                                      found: bool)
    requires Inv(v, g) && Steps(v, g, e, [], s, u, removed, w, found)
    requires Placed(g.nodes, DirsIn(g.nodes, BytesOf(v, g)), s, e, last) && last != []
    requires var x := Slots(BytesOf(v, g)[e.start]);
             SlotOf(v, g, e.start, []) < |x| && x[SlotOf(v, g, e.start, [])].start < |v.table|
             && v.table[x[SlotOf(v, g, e.start, [])].start] != FREE
    ensures !InOrder(w) && !Harmless(v, BytesOf(v, g), e, last != DOT && last != DOTDOT)
  {
    hide ImageOk, ChainsOk, Slots, Find, IsChain, Removable, Removed, Updated, TreeOk, CStr, Placed, Inv, InOrder, Harmless;
    InvWalks(v, g);
    var b := BytesOf(v, g);
    RemovalFacts(v, g, e.start, [], u, removed);
    IsHeld(g.nodes, DirsIn(g.nodes, b), s, e, last);
    StepsStay(v, g, e, [], s, last, u, removed, w, found);
    FreeingIsFatal(v, g, w, Slots(b[e.start])[SlotOf(v, g, e.start, [])].start);
    Harms(v, b, e, last != DOT && last != DOTDOT);
  }

  lemma {:induction false} SlashSpares(v: Vol, g: Catalog, e: DirEntry, s: Spot, last: Text, u: Vol, removed: bool,
                                       w: Vol, found: bool)
    requires Inv(v, g) && Steps(v, g, e, [], s, u, removed, w, found)
    requires Placed(g.nodes, DirsIn(g.nodes, BytesOf(v, g)), s, e, last) && last != []
    requires var x := Slots(BytesOf(v, g)[e.start]);
             SlotOf(v, g, e.start, []) < |x| ==> x[SlotOf(v, g, e.start, [])].start < |v.table|
                                                 && v.table[x[SlotOf(v, g, e.start, [])].start] == FREE
    ensures InOrder(w) <==> Harmless(v, BytesOf(v, g), e, last != DOT && last != DOTDOT)
    ensures InOrder(w) ==> Inv(w, g)
  {
    hide ImageOk, ChainsOk, Slots, Find, IsChain, Removable, Removed, Updated, TreeOk, CStr, Placed, Emptied, Noted, Inv,
         InOrder, EndsInZeros, Harmless;
    InvWalks(v, g);
    InvImage(v, g);
    var b := BytesOf(v, g);
    RemovalEmpties(v, g, e.start, u, removed);
    EmptiedFacts(g.nodes, b, s, e, last);
    OkHasTree(g.nodes, Emptied(b, e.start));
    UpdateNotes(u, w, g, s, e, last, found);
    OneLessIsOk(g.nodes, Emptied(b, e.start), s, e, last);
    InvAfter(u, w, g, Noted(Emptied(b, e.start), s, -1));
    OrderByCatalog(w, g);
    DirBytes(v, g, e.start);
    HarmlessIf(v, b, e, last != DOT && last != DOTDOT);
  }

  /** What `fat_delete` does behind a path with a slash: the volume is in order afterwards if and only if no harm was
      done, and then by the catalog it had. */
  lemma {:induction false} SlashOutcome(v: Vol, g: Catalog, e: DirEntry, s: Spot, last: Text, u: Vol, removed: bool,
                                        w: Vol, found: bool)
    requires Inv(v, g) && Steps(v, g, e, [], s, u, removed, w, found)
    requires Placed(g.nodes, DirsIn(g.nodes, BytesOf(v, g)), s, e, last) && last != []
    ensures InOrder(w) <==> Harmless(v, BytesOf(v, g), e, last != DOT && last != DOTDOT)
    ensures InOrder(w) ==> Inv(w, g)
  {
    hide ImageOk, ChainsOk, Slots, Find, IsChain, Removed, Updated, TreeOk, CStr, Placed, Inv, InOrder, Harmless;
    InvWalks(v, g);
    var x, j := Slots(BytesOf(v, g)[e.start]), SlotOf(v, g, e.start, []);
    if j < |x| && v.table[x[j].start] != FREE {
      SlashHarms(v, g, e, s, last, u, removed, w, found);
    } else {
      SlashSpares(v, g, e, s, last, u, removed, w, found);
    }
  }

  lemma {:induction false} IsHeld(nodes: Nodes, ds: Dirs, s: Spot, e: DirEntry, last: Text)
    requires Placed(nodes, ds, s, e, last) && e.Valid() && e.start in nodes
    ensures Held(nodes, ds, s, e, last)
  {
  }

  lemma {:induction false} Harms(v: Vol, b: Bytes, e: DirEntry, named: bool)
    requires e.start in b && e.Valid()
    requires var x := Slots(b[e.start]);
             var j := Find(x, [], false, 0);
             j < |x| && (x[j].start >= |v.table| || v.table[x[j].start] != FREE)
    ensures !Harmless(v, b, e, named)
  {
    hide Slots, Find;
  }

  lemma {:induction false} HarmlessIf(v: Vol, b: Bytes, e: DirEntry, named: bool)
    requires e.start in b && e.Valid() && |b[e.start]| % ENTRY_SIZE == 0
    requires var x := Slots(b[e.start]);
             var j := Find(x, [], false, 0);
             j < |x| ==> x[j].start < |v.table| && v.table[x[j].start] == FREE
    ensures e.start in Emptied(b, e.start)
    ensures Harmless(v, b, e, named) <==> !named || EndsInZeros(Emptied(b, e.start), e)
  {
    hide Find, CStr;
    EncodeNoEntry();
    var x := Slots(b[e.start]);
    var j, n := Find(x, [], false, 0), Tallied(e, -1).size;
    var y := Emptied(b, e.start)[e.start];
    assert |y| == |b[e.start]|;
    if n < |y| {
      assert y[n] == if j < |x| && ENTRY_SIZE * j <= n < ENTRY_SIZE * (j + 1) then NUL else b[e.start][n];
    }
  }
}
