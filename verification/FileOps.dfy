/** fat.c: finding and creating by path, over the mounted volume. */
module FileOps {
  import opened CText
  import opened DirEntries
  import opened Directory
  import opened FatTable
  import opened Volumes
  import opened DiskLayout
  import opened ChainGrowth
  import opened FatVolume
  import opened FileTree
  import opened Catalogs
  import opened Images
  import opened PathNames
  import opened Errno
  import opened TreeWalk
  import opened FileContents
  import opened FileEffects
  import opened VolumeOrder

  /** `check_file_name`. */
  method CheckFileName(name: Text) returns (ok: bool)
    ensures ok <==> LegalName(name)
  {
    for i := 0 to |name|
      invariant forall j :: 0 <= j < i ==> LegalChar(name[j])
    {
      if !LegalChar(name[i]) {
        return false;
      }
    }
    ok := name != "" && name != "." && name != ".." && name != "~";
    assert "~"[0] == '~' && !LegalChar('~');
  }

  /** The inner scan of `fat_find_dir_entry_from_path`: to the next slash or the end, which is at `stop`, or one
      character too far. */
  method ScanComponent(path: Text, start: nat, ghost stop: nat) returns (index: nat)
    requires start <= stop <= |path| && (stop < |path| ==> path[stop] == '/')
    requires forall j :: start <= j < stop ==> path[j] != '/'
    ensures index - start > NAME_SIZE <==> stop - start > NAME_SIZE
    ensures stop - start <= NAME_SIZE ==> index == stop
  {
    index := start;
    while index < |path| && index - start <= NAME_SIZE && path[index] != '/'
      invariant start <= index <= stop && index - start <= NAME_SIZE + 1
    {
      index := index + 1;
    }
  }

  /** `fat_find_dir_entry` in the directory, or whatever it is, of entry `curr`. */
  method LookIn(vol: Volume, curr: DirEntry, name: Text, ghost v: Vol, ghost g: Catalog) returns (r: Found)
    requires vol.Valid() && vol.V() == v && WalkReady(v, g) && Stands(g.nodes, curr)
    ensures r == Lookup(BytesOf(v, g), curr, name)
    ensures r.Found? ==> r.e.Valid()
    ensures r.Missing? ==> r.code == -ENOENT
    ensures r.Found? && curr.IsDir() && name != [] ==> Stands(g.nodes, r.e)
  {
    hide IsChain, Slots, Find, TreeOk;
    ChainOf(v.table, g, curr.start);
    if curr.IsDir() && name != [] {
      LookupStands(g.nodes, BytesOf(v, g), curr, name);
    }
    var found, e := vol.FindDirEntry(name, curr.start, g.nodes[curr.start].chain);
    r := if found then Found(e) else Missing(-ENOENT);
  }

  /** `fat_find_dir_entry_from_path`. */
  method FindSpelled(vol: Volume, path: Text, ghost g: Catalog, ghost head: Text, ghost cs: seq<Text>, ghost tail: Text)
    returns (r: Found)
    requires vol.Valid() && WalkReady(vol.V(), g) && Spells(path, head, cs, tail)
    ensures r == ResolveSpelled(BytesOf(vol.V(), g), RootEntry(vol.g.rootEntries), head, cs, tail)
    ensures r.Found? ==> r.e.Valid()
  {
    hide ChainsOk, Lookup, Joined, TreeOk, Spells, SpelledAt, Components, LinksInRange, Stands;
    ghost var v := vol.V();
    ghost var b := BytesOf(v, g);
    var curr := RootEntry(vol.g.rootEntries);
    ghost var root := curr;
    HeadAt(path, head, cs, tail);
    RootSpellings(path, head, cs, tail);
    if path == "~/" || path == "/" || path == "./" {
      return Found(curr);
    }
    RootStands(v, g, root);
    var index := 0;
    ghost var i := 0;
    while true
      invariant index == 0 ==> i == 0
      invariant index > 0 ==> i < |cs| && index == SpelledAt(head, cs, i) && (head == [] || head == "~")
      invariant curr.Valid() && Stands(g.nodes, curr) && i <= |cs|
      invariant Resolve(b, root, cs) == ResolveFrom(b, cs, i, curr)
      decreases |cs| - i, if index == 0 then 1 else 0
    {
      var start := index;
      if start > 0 {
        ComponentSpelled(path, head, cs, tail, i);
      }
      index := ScanComponent(path, start, if start == 0 then |head| else start + |cs[i]|);
      if index - start > NAME_SIZE {
        return Missing(-EINVAL);
      }
      var name := path[start..index];
      if start == 0 {
        if name != "" && name != "~" {
          return Missing(-ENOENT);
        }
        index := index + 1;
        FirstPlace(head, cs);
        continue;
      }
      if index >= |path| - 1 {
        r := LookIn(vol, curr, name, v, g);
        return;
      }
      if !curr.IsDir() {
        return Missing(-ENOENT);
      }
      var found := LookIn(vol, curr, name, v, g);
      if found.Missing? {
        return Missing(-ENOENT);
      }
      curr := found.e;
      index, i := index + 1, i + 1;
    }
  }

  lemma {:induction false} RootStands(v: Vol, g: Catalog, root: DirEntry)
    requires WalkReady(v, g) && root.start == 0
    ensures Stands(g.nodes, root)
  {
  }

  /** A path from the root, perhaps with a slash behind it. */
  method FindSlashed(vol: Volume, path: Text, ghost g: Catalog, ghost cs: seq<Text>, ghost slash: bool) returns (r: Found)
    requires vol.Valid() && WalkReady(vol.V(), g)
    requires Components(cs) && path == Spelled(cs, slash)
    ensures r == Resolve(BytesOf(vol.V(), g), RootEntry(vol.g.rootEntries), cs)
    ensures r.Found? ==> r.e.Valid()
  {
    hide Joined, WalkReady, Spells;
    SpelledSpells(cs, slash);
    r := FindSpelled(vol, path, g, [], cs, if slash || cs == [] then "/" else []);
  }

  method FindPath(vol: Volume, path: Text, ghost g: Catalog, ghost cs: seq<Text>) returns (r: Found)
    requires vol.Valid() && WalkReady(vol.V(), g)
    requires Components(cs) && path == Join(cs)
    ensures r == Resolve(BytesOf(vol.V(), g), RootEntry(vol.g.rootEntries), cs)
    ensures r.Found? ==> r.e.Valid()
  {
    hide Joined, WalkReady;
    r := FindSlashed(vol, path, g, cs, false);
  }

  // --- directory operations on the catalogued volume ---------------------------------------

  lemma {:induction false} WholeSlots(m: nat) returns (n: nat)
    requires m % 512 == 0
    ensures m == ENTRY_SIZE * n
  {
    n := 16 * (m / 512);
  }

  lemma {:induction false} SlotMultiple(x: nat)
    ensures ENTRY_SIZE * x % ENTRY_SIZE == 0
  {
  }

  lemma {:induction false} BytesLength(v: Vol, g: Catalog, d: nat)
    requires v.Valid() && ChainsOk(v.table, g) && d in g.nodes
    ensures |BytesOf(v, g)[d]| == Start(|g.nodes[d].chain|, v.bpc) && v.bpc % 512 == 0
  {
    hide ChainsOk, Content, Start;
  }

  lemma {:induction false} DirBytes(v: Vol, g: Catalog, d: nat)
    requires v.Valid() && ChainsOk(v.table, g) && d in g.nodes
    ensures |BytesOf(v, g)[d]| % ENTRY_SIZE == 0
  {
    hide ChainsOk, Content, Start, BytesOf;
    BytesLength(v, g, d);
    var n := WholeSlots(v.bpc);
    StartScaled(|g.nodes[d].chain|, n);
    SlotMultiple(Start(|g.nodes[d].chain|, n));
  }

  /** What `AddEntry` leaves: nothing changed for want of a cluster, or the entry in place. */
  ghost predicate EntryAdded(v: Vol, g: Catalog, w: Vol, d: nat, e: DirEntry, ok: bool, k: Catalog, pad: nat)
    requires v.Valid() && ChainsOk(v.table, g)
  {
    && w.Valid() && w.bpc == v.bpc && ChainsOk(w.table, k) && (pad == 0 || pad == v.bpc)
    && d in g.nodes && AddedTo(BytesOf(v, g), d, e, pad, ok)
    && (!ok ==> k == g && w == v && FreeSet(w.table) == {})
    && (ok ==> BytesOf(w, k) == PutPadded(BytesOf(v, g), d, e, pad))
    && (ok ==> d in k.nodes && k.nodes == Rechained(g.nodes, d, k.nodes[d].chain))
    && (ok && pad == 0 ==> k == g && w.table == v.table)
    && (ok && pad != 0 ==> FreeSet(v.table) != {} && Longer(g.nodes[d].chain, k.nodes[d].chain))
  }

  /** One cluster more at the end. */
  ghost predicate Longer(ch: seq<nat>, longer: seq<nat>) {
    |longer| == |ch| + 1 && ch <= longer
  }

  lemma {:induction false} AddedInPlace(v: Vol, w: Vol, g: Catalog, d: nat, e: DirEntry)
    requires v.Valid() && ChainsOk(v.table, g) && d in g.nodes && v.Holds(g.nodes[d].chain) && e.Valid()
    requires Find(DirOn(v, g.nodes[d].chain), [], false, 0) < |DirOn(v, g.nodes[d].chain)|
    requires Patched(v, w, g.nodes[d].chain, ENTRY_SIZE * Find(DirOn(v, g.nodes[d].chain), [], false, 0), Encode(e))
    ensures EntryAdded(v, g, w, d, e, true, g, 0)
  {
    hide Encode, IsChain, Splice, Slots, ChainsOk, Find;
    PatchedBytes(v, w, g, d, ENTRY_SIZE * Find(DirOn(v, g.nodes[d].chain), [], false, 0), Encode(e));
    NoPad(BytesOf(v, g), d);
    assert Rechained(g.nodes, d, g.nodes[d].chain) == g.nodes;
  }

  lemma {:induction false} BehindBytes(v: Vol, w: Vol, g: Catalog, d: nat, e: DirEntry, n: nat)
    requires v.Valid() && ChainsOk(v.table, g) && d in g.nodes && IsChain(v.table, g.nodes[d].chain) && e.Valid()
    requires n < |v.table| && v.table[n] == FREE && n != 0
    requires Patched(Grown(v, g.nodes[d].chain, n), w, g.nodes[d].chain + [n], |BytesOf(v, g)[d]|, Encode(e))
    ensures w.Valid() && w.bpc == v.bpc && ChainsOk(w.table, CatalogGrown(g, d, n))
    ensures |BytesOf(v, g)[d]| + ENTRY_SIZE <= |BytesOf(v, g)[d] + Zeros(v.bpc)|
    ensures BytesOf(w, CatalogGrown(g, d, n))
         == BytesOf(v, g)[d := Splice(BytesOf(v, g)[d] + Zeros(v.bpc), |BytesOf(v, g)[d]|, Encode(e))]
  {
    hide Encode, IsChain, Splice, ChainsOk, Linked, Zeros;
    GrownBytes(v, g, d, n);
    PatchedBytes(Grown(v, g.nodes[d].chain, n), w, CatalogGrown(g, d, n), d, |BytesOf(v, g)[d]|, Encode(e));
  }

  /** A full directory of bytes `x`: its first empty slot would be the one behind the last. */
  lemma {:induction false} FullDir(x: seq<Byte>, n: nat)
    requires |x| % ENTRY_SIZE == 0 && Find(Slots(x), [], false, 0) == |Slots(x)| && n >= ENTRY_SIZE
    ensures ENTRY_SIZE * Find(Slots(x), [], false, 0) == |x|
    ensures ENTRY_SIZE * (Find(Slots(x), [], false, 0) + 1) <= |x| + n
  {
  }

  lemma {:induction false} AddedBehind(v: Vol, w: Vol, g: Catalog, d: nat, e: DirEntry, n: nat)
    requires v.Valid() && ChainsOk(v.table, g) && d in g.nodes && IsChain(v.table, g.nodes[d].chain) && e.Valid()
    requires n < |v.table| && v.table[n] == FREE && n != 0 && v.bpc >= ENTRY_SIZE
    requires Find(DirOn(v, g.nodes[d].chain), [], false, 0) == |DirOn(v, g.nodes[d].chain)|
    requires Patched(Grown(v, g.nodes[d].chain, n), w, g.nodes[d].chain + [n], |Content(v, g.nodes[d].chain)|, Encode(e))
    ensures EntryAdded(v, g, w, d, e, true, CatalogGrown(g, d, n), v.bpc)
  {
    hide Encode, IsChain, Splice, Slots, ChainsOk, Find, Linked, Zeros, Patched, Grown;
    DirBytes(v, g, d);
    FullDir(BytesOf(v, g)[d], v.bpc);
    BehindBytes(v, w, g, d, e, n);
    assert n in FreeSet(v.table);
  }

  /** `fat_add_dir_entry`: the first empty slot, or the first slot of a new cluster, gets the entry. */
  method AddEntry(vol: Volume, d: nat, e: DirEntry, ghost g: Catalog) returns (ok: bool, ghost k: Catalog, ghost pad: nat)
    requires vol.Valid() && ChainsOk(vol.V().table, g) && d in g.nodes && e.Valid()
    modifies vol`disk, vol.fat
    ensures vol.Valid() && EntryAdded(old(vol.V()), g, vol.V(), d, e, ok, k, pad)
  {
    hide Encode, IsChain, Splice, Slots, ChainsOk, EntryAdded, LinksInRange, Find;
    ghost var v, ch := vol.V(), g.nodes[d].chain;
    ChainOf(v.table, g, d);
    RootInUse(v.table, g);
    ghost var c;
    ok, c := vol.AddDirEntry(d, e, ch);
    k, pad := g, 0;
    ghost var n := FirstFree(v.table, 0);
    if Find(DirOn(v, ch), [], false, 0) < |DirOn(v, ch)| {
      AddedInPlace(v, vol.V(), g, d, e);
    } else if ok {
      k, pad := CatalogGrown(g, d, n), v.bpc;
      FreeIsUnowned(v.table, g, n);
      AddedBehind(v, vol.V(), g, d, e, n);
    } else {
      NotAdded(v, g, d, e);
    }
  }

  lemma {:induction false} NotAdded(v: Vol, g: Catalog, d: nat, e: DirEntry)
    requires v.Valid() && ChainsOk(v.table, g) && d in g.nodes && v.Holds(g.nodes[d].chain) && e.Valid()
    requires Find(DirOn(v, g.nodes[d].chain), [], false, 0) == |DirOn(v, g.nodes[d].chain)|
    requires FirstFree(v.table, 0) == |v.table|
    ensures EntryAdded(v, g, v, d, e, false, g, 0)
  {
    assert FreeSet(v.table) == {};
  }

  /** Where `AddEntry` puts the entry. */
  ghost predicate AddedTo(b: Bytes, d: nat, e: DirEntry, pad: nat, ok: bool) {
    && d in b && e.Valid()
    && var k := Find(Slots(b[d]), [], false, 0);
       && (ok ==> ENTRY_SIZE * (k + 1) <= |b[d]| + pad)
       && (ok ==> (pad == 0 <==> k < |Slots(b[d])|))
       && (!ok ==> k == |Slots(b[d])|)
  }

  ghost function PutPadded(b: Bytes, d: nat, e: DirEntry, pad: nat): Bytes
    requires AddedTo(b, d, e, pad, true)
  {
    Put(b[d := b[d] + Zeros(pad)], d, Find(Slots(b[d]), [], false, 0), e)
  }

  lemma {:induction false} NoPad(b: Bytes, d: nat)
    requires d in b
    ensures b[d := b[d] + Zeros(0)] == b
  {
    assert b[d] + Zeros(0) == b[d];
  }

  /** The dot entries of a new directory: name, attribute and first cluster, all else zero. */
  function DotEntry(name: Text, start: nat): (e: DirEntry)
    requires |name| <= NAME_SIZE && start < 0x10000
    ensures e.Valid() && e.IsDir()
  {
    DirEntry(Padded(name, NAME_SIZE), ATTR_DIRECTORY, Zeros(14), start, 0)
  }

  /** The bytes of a new directory, after the first and after the second insertion. */
  ghost function DirWithDot(n: nat, h: nat): (b: seq<Byte>)
    requires n >= 2 * ENTRY_SIZE && h < 0x10000
    ensures |b| == n
  {
    Splice(Zeros(n), 0, Encode(DotEntry(DOT, h)))
  }

  ghost function DirWithDots(n: nat, h: nat, p: nat): (b: seq<Byte>)
    requires n >= 2 * ENTRY_SIZE && h < 0x10000 && p < 0x10000
    ensures |b| == n
  {
    Splice(DirWithDot(n, h), ENTRY_SIZE, Encode(DotEntry(DOTDOT, p)))
  }

  lemma {:induction false} DotsInPlace(n: nat, h: nat, p: nat)
    requires n >= 2 * ENTRY_SIZE && h < 0x10000 && p < 0x10000
    ensures FreshDir(Slots(DirWithDots(n, h, p)), h, p)
    ensures |Slots(Zeros(n))| >= 2 && Find(Slots(Zeros(n)), [], false, 0) == 0
    ensures |Slots(DirWithDot(n, h))| >= 2 && Find(Slots(DirWithDot(n, h)), [], false, 0) == 1
  {
    var dot, dotdot := DotEntry(DOT, h), DotEntry(DOTDOT, p);
    CStrPadded(DOT, NAME_SIZE);
    CStrPadded(DOTDOT, NAME_SIZE);
    SlotsZeros(n);
    EmptyEntry();
    var z := Slots(Zeros(n));
    assert z[0] == NO_ENTRY && z[1] == NO_ENTRY;
    SlotsSplice(Zeros(n), 0, dot);
    SlotsSplice(Splice(Zeros(n), 0, Encode(dot)), 1, dotdot);
    FindAt(z, [], false, 0);
    FindAt(z[0 := dot], [], false, 1);
  }

  /** One insertion into a directory with an empty slot: it never extends the chain. */
  method AddWithRoom(vol: Volume, d: nat, e: DirEntry, ghost slot: nat, ghost v: Vol, ghost g: Catalog) returns (ok: bool)
    requires vol.Valid() && vol.V() == v && ChainsOk(v.table, g) && d in g.nodes && e.Valid()
    requires slot == Find(Slots(BytesOf(v, g)[d]), [], false, 0) < |Slots(BytesOf(v, g)[d])|
    modifies vol`disk, vol.fat
    ensures vol.Valid() && ok && vol.V().table == v.table && vol.V().bpc == v.bpc
    ensures ENTRY_SIZE * (slot + 1) <= |BytesOf(v, g)[d]|
    ensures BytesOf(vol.V(), g) == BytesOf(v, g)[d := Splice(BytesOf(v, g)[d], ENTRY_SIZE * slot, Encode(e))]
  {
    NoPad(BytesOf(v, g), d);
    ghost var k, pad;
    ok, k, pad := AddEntry(vol, d, e, g);
  }

  /** The first insertion into a fresh cluster. */
  method AddDot(vol: Volume, h: nat, ghost v: Vol, ghost g: Catalog) returns (ok: bool)
    requires vol.Valid() && vol.V() == v && ChainsOk(v.table, g) && h in g.nodes && h < 0x10000
    requires BytesOf(v, g)[h] == Zeros(v.bpc) && v.bpc >= 2 * ENTRY_SIZE
    modifies vol`disk, vol.fat
    ensures vol.Valid() && ok && vol.V().table == v.table && vol.V().bpc == v.bpc
    ensures BytesOf(vol.V(), g) == BytesOf(v, g)[h := DirWithDot(v.bpc, h)]
  {
    hide Slots, Encode, Find, Splice, DotEntry, Zeros, IsChain;
    DotsInPlace(v.bpc, h, 0);
    ok := AddWithRoom(vol, h, DotEntry(DOT, h), 0, v, g);
  }

  /** The second insertion. */
  method AddDotDot(vol: Volume, h: nat, p: nat, ghost v: Vol, ghost g: Catalog) returns (ok: bool)
    requires vol.Valid() && vol.V() == v && ChainsOk(v.table, g) && h in g.nodes && h < 0x10000 && p < 0x10000
    requires v.bpc >= 2 * ENTRY_SIZE && BytesOf(v, g)[h] == DirWithDot(v.bpc, h)
    modifies vol`disk, vol.fat
    ensures vol.Valid() && ok && vol.V().table == v.table && vol.V().bpc == v.bpc
    ensures BytesOf(vol.V(), g) == BytesOf(v, g)[h := DirWithDots(v.bpc, h, p)]
  {
    hide Slots, Encode, Find, Splice, DotEntry, Zeros, IsChain, DirWithDot;
    DotsInPlace(v.bpc, h, p);
    ok := AddWithRoom(vol, h, DotEntry(DOTDOT, p), 1, v, g);
  }

  /** Both: they find room and never extend the chain. */
  method MakeDots(vol: Volume, h: nat, p: nat, ghost v: Vol, ghost g: Catalog) returns (ok: bool)
    requires vol.Valid() && vol.V() == v && ChainsOk(v.table, g) && h in g.nodes && h < 0x10000 && p < 0x10000
    requires BytesOf(v, g)[h] == Zeros(v.bpc) && v.bpc >= 2 * ENTRY_SIZE
    modifies vol`disk, vol.fat
    ensures vol.Valid() && ok && vol.V().table == v.table && vol.V().bpc == v.bpc
    ensures BytesOf(vol.V(), g) == BytesOf(v, g)[h := DirWithDots(v.bpc, h, p)]
  {
    hide *;
    ok := AddDot(vol, h, v, g);
    ok := AddDotDot(vol, h, p, vol.V(), g);
  }

  // --- create ------------------------------------------------------------------------------

  /** The entry `fat_create` makes. */
  function NewEntry(name: Text, isDirectory: bool, n: nat): (e: DirEntry)
    requires |name| <= NAME_SIZE && n < 0x10000
    ensures e.Valid() && e.start == n && e.IsDir() == isDirectory
  {
    DirEntry(Padded(name, NAME_SIZE), if isDirectory then ATTR_DIRECTORY else 0, Zeros(14), n,
             if isDirectory then 2 else 0)
  }

  lemma {:induction false} LegalHasNoNul(name: Text)
    requires LegalName(name)
    ensures NUL !in name
  {
    assert forall i :: 0 <= i < |name| ==> LegalChar(name[i]) && name[i] != NUL;
  }

  lemma {:induction false} NewEntryName(name: Text, isDirectory: bool, n: nat)
    requires |name| <= NAME_SIZE && n < 0x10000 && LegalName(name)
    ensures NewEntry(name, isDirectory, n).Name() == name
  {
    LegalHasNoNul(name);
    CStrPadded(name, NAME_SIZE);
  }

  lemma {:induction false} TimesMonotone(a: nat, b: nat, m: nat)
    requires a <= b
    ensures a * m <= b * m
  {
  }

  lemma {:induction false} StartBounded(n: nat, m: nat)
    requires n <= 0xFFFF && m < 0x20000
    ensures Start(n, m) <= 0xFFFF * 0x20000
  {
    StartIsProduct(n, m);
    TimesMonotone(n, 0xFFFF, m);
  }

  /** No directory has so many slots that its size field could overflow. */
  lemma {:induction false} SmallDir(v: Vol, g: Catalog, d: nat)
    requires v.Valid() && v.bpc < 0x20000 && ChainsOk(v.table, g) && d in g.nodes
    ensures |Slots(BytesOf(v, g)[d])| < 0xFFFF_FFFF
  {
    ChainOf(v.table, g, d);
    ChainShort(v.table, g.nodes[d].chain);
    StartBounded(|g.nodes[d].chain|, v.bpc);
  }

  lemma {:induction false} CountFits(v: Vol, g: Catalog, d: nat, delta: int)
    requires Inv(v, g) && v.bpc < 0x20000 && d in g.nodes && g.nodes[d].isDir && -1 <= delta <= 1
    ensures Countable(g.nodes, BytesOf(v, g), d, delta)
  {
    SmallDir(v, g, d);
    if d != 0 {
      var ds := DirsIn(g.nodes, BytesOf(v, g));
      assert Counted(g.nodes, ds, d) && DirOk(ds[d], d, g.nodes[d].parent);
      EmptyEntry();
      UsedPut(ds[d], 0, NO_ENTRY);
    }
  }

  /** `fat_update_chain(n, n)` on the first free entry `n`: a new node with nothing in it yet. */
  method StartNode(vol: Volume, n: nat, ghost node: Node, ghost g: Catalog)
    requires vol.Valid() && ChainsOk(vol.V().table, g)
    requires n < vol.fat.Length && vol.fat[n] == FREE && node.chain == [n]
    modifies vol`disk, vol.fat
    ensures vol.Valid() && vol.V() == Started(old(vol.V()), n)
    ensures ChainsOk(vol.V().table, CatalogStarted(g, n, node))
    ensures BytesOf(vol.V(), CatalogStarted(g, n, node)) == BytesOf(old(vol.V()), g)[n := Zeros(vol.V().bpc)]
  {
    ghost var v := vol.V();
    FreeIsUnowned(v.table, g, n);
    vol.UpdateChain(n, n, []);
    StartedBytes(v, g, n, node);
  }

  /** Giving the new node's cluster back, when its parent is full and the disk too. */
  method UndoNode(vol: Volume, n: nat, ghost v: Vol, ghost g: Catalog)
    requires v.Valid() && ChainsOk(v.table, g) && n < |v.table| && v.table[n] == FREE
    requires vol.Valid() && vol.V() == Started(v, n)
    modifies vol`disk, vol.fat
    ensures vol.Valid() && vol.V().table == v.table && vol.V().bpc == v.bpc
    ensures BytesOf(vol.V(), g) == BytesOf(v, g)
  {
    vol.FreeChain(n);
    assert vol.V().table == v.table;
    UnownedBytes(v, vol.V(), g, n);
  }

  /** What a new node's catalog looks like once its entry is in directory `p`. */
  ghost predicate NamedIn(g: Catalog, k: Catalog, p: nat, node: Node, n: nat) {
    && p in g.nodes && p in k.nodes && n !in g.nodes && n != p
    && k.nodes == Rechained(g.nodes[n := node], p, k.nodes[p].chain)
  }

  /** The first half: the node is allocated and the entry `e` added to directory `p`, or nothing is changed. */
  method NameNode(vol: Volume, p: nat, n: nat, e: DirEntry, ghost node: Node, ghost v: Vol, ghost g: Catalog)
    returns (ok: bool, ghost k: Catalog, ghost pad: nat)
    requires vol.Valid() && vol.V() == v && Inv(v, g) && p in g.nodes && e.Valid()
    requires n < |v.table| && v.table[n] == FREE && node.chain == [n] && e.start == n
    modifies vol`disk, vol.fat
    ensures vol.Valid() && vol.V().bpc == v.bpc && ChainsOk(vol.V().table, k)
    ensures NameNodeDone(v, BytesOf(v, g), g, vol.V(), BytesOf(vol.V(), k), k, p, n, e, node, pad, ok)
  {
    FreeIsUnowned(v.table, g, n);
    ChainOf(v.table, g, p);
    ghost var b := BytesOf(v, g);
    StartNode(vol, n, node, g);
    ok, k, pad := AddEntry(vol, p, e, CatalogStarted(g, n, node));
    if !ok {
      UndoNode(vol, n, v, g);
      OnlyFree(v, n);
      k, pad := g, 0;
    } else {
      AddedAfterStart(b, p, n, e, pad, Zeros(v.bpc));
      RoomLeft(v, b, p, n, pad);
    }
  }

  lemma {:induction false} AddedAfterStart(b: Bytes, p: nat, n: nat, e: DirEntry, pad: nat, own: seq<Byte>)
    requires p in b && n != p && e.start == n && AddedTo(b[n := own], p, e, pad, true)
    ensures AddedTo(b, p, e, pad, true)
    ensures PutPadded(b[n := own], p, e, pad) == BytesAdded(b, p, e, pad, own)
  {
  }

  /** The outcome of `NameNode`. */
  ghost predicate NameNodeDone(v: Vol, b: Bytes, g: Catalog, w: Vol, bs: Bytes, k: Catalog, p: nat, n: nat, e: DirEntry,
                               node: Node, pad: nat, ok: bool)
    requires p in b
  {
    if ok then
      && AddedTo(b, p, e, pad, true) && (pad == 0 || pad == v.bpc)
      && bs == BytesAdded(b, p, e, pad, Zeros(v.bpc))
      && NamedIn(g, k, p, node, n) && !NoRoom(v, b, p) && ChainKept(g.nodes, b, k.nodes, p)
    else
      k == g && bs == b && NoRoom(v, b, p)
  }

  /** The chain of directory `p` is what it was, or, if the directory was full, one cluster longer. */
  ghost predicate ChainKept(nodes: Nodes, b: Bytes, ms: Nodes, p: nat) {
    && p in nodes && p in b && p in ms
    && if Find(Slots(b[p]), [], false, 0) < |Slots(b[p])| then ms[p].chain == nodes[p].chain
       else Longer(nodes[p].chain, ms[p].chain)
  }

  /** The directory is full, and the node itself would take the last free cluster. */
  ghost predicate NoRoom(v: Vol, b: Bytes, p: nat)
    requires p in b
  {
    Find(Slots(b[p]), [], false, 0) == |Slots(b[p])| && |FreeSet(v.table)| == 1
  }

  /** Allocating a node and naming it in directory `p`: the middle of `fat_create`. */
  method AddNode(vol: Volume, p: nat, name: Text, isDirectory: bool, ghost v: Vol, ghost g: Catalog)
    returns (ok: bool, n: nat, ghost k: Catalog)
    requires vol.Valid() && vol.V() == v && Inv(v, g) && p in g.nodes && g.nodes[p].isDir
    requires LegalName(name) && |name| < NAME_SIZE && name !in Names(Slots(BytesOf(v, g)[p]))
    requires FreeSet(v.table) != {}
    modifies vol`disk, vol.fat
    ensures vol.Valid() && n < 0x10000 && vol.V().bpc == v.bpc && ChainsOk(vol.V().table, k)
    ensures !ok ==> k == g && BytesOf(vol.V(), g) == BytesOf(v, g) && NoRoom(v, BytesOf(v, g), p)
    ensures ok ==> ImageOff(k.nodes, BytesOf(vol.V(), k), p, 1) && !NoRoom(v, BytesOf(v, g), p)
    ensures ok ==> ChainKept(g.nodes, BytesOf(v, g), k.nodes, p)
    ensures ok ==> Gained(g.nodes, BytesOf(v, g), k.nodes, BytesOf(vol.V(), k), p, NewEntry(name, isDirectory, n))
  {
    hide Slots, Put, Encode, FreshDir, ImageOff, Gained, ImageOk, Splice, Find, Names, LegalName, IsChain, CStr, ChainKept;
    ghost var b := BytesOf(v, g);
    var free := vol.FindFree();
    n := FoundFree(free, v);
    FreeIsUnowned(v.table, g, n);
    var e := NewEntry(name, isDirectory, n);
    NewEntryName(name, isDirectory, n);
    ghost var node := Node([n], isDirectory, p, Find(Slots(b[p]), [], false, 0), g.nodes[p].depth + 1);
    ghost var pad;
    ok, k, pad := NameNode(vol, p, n, e, node, v, g);
    if ok {
      ghost var own := FillNode(vol, isDirectory, n, p, vol.V(), k, b, e, pad);
      AddNodeDone(v, g, p, e, pad, own, k.nodes, node, BytesOf(vol.V(), k));
    }
  }

  lemma {:induction false} BytesRefilled(b: Bytes, p: nat, e: DirEntry, pad: nat, x: seq<Byte>, y: seq<Byte>)
    requires AddedTo(b, p, e, pad, true)
    ensures BytesAdded(b, p, e, pad, x)[e.start] == x
    ensures BytesAdded(b, p, e, pad, x)[e.start := y] == BytesAdded(b, p, e, pad, y)
  {
  }

  /** The dot entries, if the node is a directory. */
  method FillNode(vol: Volume, isDirectory: bool, n: nat, p: nat, ghost w: Vol, ghost k: Catalog, ghost b: Bytes,
                  ghost e: DirEntry, ghost pad: nat)
    returns (ghost own: seq<Byte>)
    requires vol.Valid() && vol.V() == w && ChainsOk(w.table, k) && n in k.nodes && p in k.nodes && n != p
    requires w.bpc >= 2 * ENTRY_SIZE
    requires AddedTo(b, p, e, pad, true) && e.start == n
    requires BytesOf(w, k) == BytesAdded(b, p, e, pad, Zeros(w.bpc))
    modifies vol`disk, vol.fat
    ensures vol.Valid() && vol.V().table == w.table && vol.V().bpc == w.bpc
    ensures BytesOf(vol.V(), k) == BytesAdded(b, p, e, pad, own)
    ensures if isDirectory then FreshDir(Slots(own), n, p) else own == Zeros(|own|)
  {
    hide AddedTo, BytesAdded, Slots, Encode, FreshDir, Splice, Find, IsChain, DirWithDots, Zeros;
    own := Zeros(w.bpc);
    if isDirectory {
      ChainOf(w.table, k, n);
      ChainOf(w.table, k, p);
      BytesRefilled(b, p, e, pad, own, DirWithDots(w.bpc, n, p));
      var done := MakeDots(vol, n, p, w, k);
      own := DirWithDots(w.bpc, n, p);
      DotsInPlace(w.bpc, n, p);
    }
  }

  lemma {:induction false} AddNodeDone(v: Vol, g: Catalog, p: nat, e: DirEntry, pad: nat, own: seq<Byte>, ms: Nodes,
                                       node: Node, bs: Bytes)
    requires Inv(v, g) && p in g.nodes && p in ms && g.nodes[p].isDir && (pad == 0 || pad == v.bpc)
    requires e.Valid() && LegalName(e.Name()) && |e.Name()| < NAME_SIZE && e.Name() !in Names(Slots(BytesOf(v, g)[p]))
    requires e.start != 0 && e.start !in g.nodes && AddedTo(BytesOf(v, g), p, e, pad, true)
    requires if e.IsDir() then FreshDir(Slots(own), e.start, p) && e.size == 2 else e.size == 0 && own == Zeros(|own|)
    requires node == Node([e.start], e.IsDir(), p, Find(Slots(BytesOf(v, g)[p]), [], false, 0), g.nodes[p].depth + 1)
    requires ms == Rechained(g.nodes[e.start := node], p, ms[p].chain)
    requires bs == BytesAdded(BytesOf(v, g), p, e, pad, own)
    ensures ImageOff(ms, bs, p, 1) && Gained(g.nodes, BytesOf(v, g), ms, bs, p, e)
  {
    hide Slots, Put, Encode, FreshDir, ImageOff, Gained, ImageOk, Splice, Find, Names, LegalName, IsChain, CStr;
    var b := BytesOf(v, g);
    DirBytes(v, g, p);
    AddedOff(g.nodes, b, p, e, pad, ms[p].chain, own);
    AddedGains(g.nodes, b, p, e, pad, ms[p].chain, own);
    assert ms == NodesAdded(g.nodes, b, p, e, ms[p].chain);
  }

  /** `dir.start_cluster = fat_find_free()`: with a free entry left, the index found is never -1. */
  method FoundFree(free: int, ghost v: Vol) returns (n: nat)
    requires v.Valid() && FreeSet(v.table) != {}
    requires free == if FirstFree(v.table, 0) < |v.table| then FirstFree(v.table, 0) else -1
    ensures n == FirstFree(v.table, 0) < |v.table| && v.table[n] == FREE
  {
    ghost var i :| i in FreeSet(v.table);
    assert v.table[i] == FREE;
    n := free;
  }

  lemma {:induction false} RoomLeft(v: Vol, b: Bytes, p: nat, n: nat, pad: nat)
    requires v.Valid() && n < |v.table| && v.table[n] == FREE && p in b
    requires pad == 0 <==> Find(Slots(b[p]), [], false, 0) < |Slots(b[p])|
    requires pad != 0 ==> FreeSet(Started(v, n).table) != {}
    ensures !NoRoom(v, b, p)
  {
    assert FreeSet(v.table) == FreeSet(Started(v, n).table) + {n};
  }

  lemma {:induction false} OnlyFree(v: Vol, n: nat)
    requires v.Valid() && n < |v.table| && v.table[n] == FREE
    requires FreeSet(Started(v, n).table) == {}
    ensures |FreeSet(v.table)| == 1
  {
    assert FreeSet(v.table) == FreeSet(Started(v, n).table) + {n};
  }

  /** The update of a directory's size in the entry `p` it was found by, which ends `fat_create` and `fat_delete`:
      the entry kept at `s` is changed. For the root, whose made-up entry "~" is in no directory, nothing is. */
  method Recount(vol: Volume, p: DirEntry, up: nat, delta: int, ghost s: Spot, ghost name: Text, ghost v: Vol,
                 ghost g: Catalog)
    requires vol.Valid() && vol.V() == v && WalkReady(v, g) && p.Valid()
    requires Kept(g.nodes, DirsIn(g.nodes, BytesOf(v, g)), s, p, name) && up == UpOf(s)
    requires s.NoSpot? ==> p.name == Padded("~", NAME_SIZE)
    modifies vol`disk, vol.fat
    ensures vol.Valid() && vol.V().table == v.table && vol.V().bpc == v.bpc && SpotIn(BytesOf(v, g), s)
    ensures BytesOf(vol.V(), g) == Noted(BytesOf(v, g), s, delta)
  {
    hide Encode, IsChain, Splice, Slots, ChainsOk, CStr, Find, TreeOk, Tallied, Hangs;
    ghost var b := BytesOf(v, g);
    RootIsDir(g.nodes, DirsIn(g.nodes, b));
    ChainOf(v.table, g, up);
    var entry := Tallied(p, delta);
    KeptWhere(g.nodes, b, s, p, name);
    var found := vol.UpdateDirEntry(entry.Name(), up, entry, g.nodes[up].chain);
    if s.Spot? {
      SpotInside(g.nodes, b, s, p, name);
      PatchedBytes(v, vol.V(), g, up, ENTRY_SIZE * s.slot, Encode(entry));
    }
  }

  /** Where `fat_update_dir_entry` finds the entry kept at `s`. */
  lemma {:induction false} KeptWhere(nodes: Nodes, b: Bytes, s: Spot, p: DirEntry, name: Text)
    requires b.Keys == nodes.Keys && TreeOk(nodes, DirsIn(nodes, b))
    requires if s.NoSpot? then p.name == Padded("~", NAME_SIZE) else Placed(nodes, DirsIn(nodes, b), s, p, name)
    ensures UpOf(s) in b
    ensures Find(Slots(b[UpOf(s)]), p.Name(), true, 0) == if s.NoSpot? then |Slots(b[0])| else s.slot
    ensures s.Spot? ==> s.slot < |Slots(b[s.dir])|
  {
    hide Encode, Slots, CStr, LinkedUp;
    var ds := DirsIn(nodes, b);
    RootIsDir(nodes, ds);
    if s.NoSpot? {
      RootNameIsIllegal(p);
      NoSuchName(nodes, ds, 0, "~");
    } else {
      assert DirOk(ds[s.dir], s.dir, nodes[s.dir].parent);
      FindShort(ds[s.dir], name, 0);
    }
  }

  /** `get_parent_dir` and `get_base_name` in components: behind a slash, the parent is the path itself. */
  function ParentOf(cs: seq<Text>, slash: bool): seq<Text> {
    if slash then cs else Upper(cs)
  }

  function BaseOf(cs: seq<Text>, slash: bool): Text {
    if slash then [] else LastOf(cs)
  }

  /** The checks of `fat_create`, in their order: the code with which it refuses, or 0. */
  ghost function CreateRefusal(b: Bytes, root: DirEntry, cs: seq<Text>, slash: bool): int {
    if cs == [] || slash || !LegalName(cs[|cs| - 1]) then
      -EINVAL
    else
      match Resolve(b, root, cs[..|cs| - 1])
      case Missing(code) => code
      case Found(up) =>
        if !up.IsDir() then -ENOENT
        else if Lookup(b, up, cs[|cs| - 1]).Found? then -EEXIST
        else 0
  }

  /** `fat_create(path)` for the path of `cs`: its result, and the content it leaves. */
  ghost predicate CreateOutcome(v: Vol, g: Catalog, root: DirEntry, cs: seq<Text>, slash: bool, isDirectory: bool,
                                code: int, k: Catalog, bs: Bytes)
    requires Inv(v, g)
  {
    var b := BytesOf(v, g);
    var refusal := CreateRefusal(b, root, cs, slash);
    if refusal != 0 then
      code == refusal && k == g && bs == b
    else
      var up, s, name := Resolve(b, root, cs[..|cs| - 1]), SpotOf(b, root, cs[..|cs| - 1]), cs[|cs| - 1];
      && up.Found?
      && if up.e.start in b && NoRoom(v, b, up.e.start) then
           code == -EIO && k == g && bs == b
         else
           code == 0 && exists n: nat :: Created(g.nodes, b, s, up.e.start, name, isDirectory, n, k.nodes, bs)
  }

  /** Node `n` is new under `name` in directory `p`, and one more is noted in the entry kept at `s`. */
  ghost predicate Created(nodes: Nodes, b: Bytes, s: Spot, p: nat, name: Text, isDirectory: bool, n: nat, ms: Nodes,
                          bs: Bytes)
  {
    && n < 0x10000 && |name| < NAME_SIZE && SpotIn(b, s) && ChainKept(nodes, b, ms, p)
    && Gained(nodes, Noted(b, s, 1), ms, bs, p, NewEntry(name, isDirectory, n))
  }

  /** The directory a name goes into, or is taken from. */
  lemma {:induction false} ParentFacts(v: Vol, g: Catalog, root: DirEntry, front: seq<Text>, delta: int)
    requires Inv(v, g) && v.bpc < 0x20000 && Components(front) && root.IsDir() && root.start == 0 && -1 <= delta <= 1
    requires OffFiles(BytesOf(v, g), root, front)
    requires Resolve(BytesOf(v, g), root, front).Found? && Resolve(BytesOf(v, g), root, front).e.IsDir()
    ensures ParentIs(g.nodes, BytesOf(v, g), root, front, Resolve(BytesOf(v, g), root, front).e, delta)
  {
    hide ImageOk, ChainsOk, Slots, Find, Resolve, OffFiles, ParentIs, TreeOk;
    var b := BytesOf(v, g);
    InvImage(v, g);
    OkHasTree(g.nodes, b);
    ResolveOffFiles(b, root, front);
    DescendNode(g.nodes, b, root, front);
    CountFits(v, g, Descend(b, root, front).e.start, delta);
    ParentIsFound(g.nodes, b, root, front, delta);
  }

  /** The checks at the start of `fat_create`. */
  method CheckCreate(vol: Volume, name: Text, directory: Text, ghost v: Vol, ghost g: Catalog, ghost cs: seq<Text>,
                     ghost slash: bool)
    returns (code: int, parent: DirEntry)
    requires vol.Valid() && vol.V() == v && Inv(v, g) && v.bpc < 0x20000 && Components(cs) && (slash ==> cs != [])
    requires name == BaseOf(cs, slash) && directory == Join(ParentOf(cs, slash))
    requires cs == [] || slash || OffFiles(BytesOf(v, g), RootEntry(vol.g.rootEntries), cs[..|cs| - 1])
    ensures code == CreateRefusal(BytesOf(v, g), RootEntry(vol.g.rootEntries), cs, slash)
    ensures code == 0 ==> cs != [] && !slash && LegalName(name) && parent.Valid()
    ensures code == 0 ==> ParentIs(g.nodes, BytesOf(v, g), RootEntry(vol.g.rootEntries), cs[..|cs| - 1], parent, 1)
    ensures code == 0 ==> Resolve(BytesOf(v, g), RootEntry(vol.g.rootEntries), cs[..|cs| - 1]) == Found(parent)
    ensures code == 0 ==> parent.start in BytesOf(v, g) && name !in Names(Slots(BytesOf(v, g)[parent.start]))
  {
    hide ImageOk, DirOk, ChainsOk, Find, Slots, Names, CountsOk, Resolve, ParentIs, OffFiles, LegalName;
    parent := RootEntry(vol.g.rootEntries);
    var legal := CheckFileName(name);
    NoName();
    if !legal {
      return -EINVAL, parent;
    }
    ghost var root := parent;
    InvWalks(v, g);
    var found := FindPath(vol, directory, g, cs[..|cs| - 1]);
    if found.Missing? {
      ResolveError(BytesOf(v, g), root, cs[..|cs| - 1]);
      return found.code, parent;
    }
    parent := found.e;
    if !parent.IsDir() {
      return -ENOENT, parent;
    }
    ParentFacts(v, g, root, cs[..|cs| - 1], 1);
    ParentIsNode(g.nodes, BytesOf(v, g), root, cs[..|cs| - 1], parent);
    var taken := NameTaken(vol, name, parent, v, g);
    return if taken then -EEXIST else 0, parent;
  }

  lemma {:induction false} NoName()
    ensures !LegalName([])
  {
  }

  lemma {:induction false} ParentIsNode(nodes: Nodes, b: Bytes, root: DirEntry, front: seq<Text>, p: DirEntry)
    requires ParentIs(nodes, b, root, front, p, 1)
    ensures p.start in nodes && p.start in b && nodes[p.start].isDir
  {
  }

  /** A resolution that fails gives an error code, never 0. */
  lemma {:induction false} MissingIsError(b: Bytes, root: DirEntry, cs: seq<Text>, i: nat, curr: DirEntry)
    requires i <= |cs| && ResolveFrom(b, cs, i, curr).Missing?
    ensures ResolveFrom(b, cs, i, curr).code < 0
    decreases |cs| - i
  {
    if |cs[i]| <= NAME_SIZE && i < |cs| - 1 && curr.IsDir() && Lookup(b, curr, cs[i]).Found? {
      MissingIsError(b, root, cs, i + 1, Lookup(b, curr, cs[i]).e);
    }
  }

  lemma {:induction false} ResolveError(b: Bytes, root: DirEntry, cs: seq<Text>)
    ensures Resolve(b, root, cs).Missing? ==> Resolve(b, root, cs).code < 0
  {
    if Resolve(b, root, cs).Missing? {
      MissingIsError(b, root, cs, 0, root);
    }
  }

  lemma {:induction false} CreateDone(v: Vol, g: Catalog, root: DirEntry, cs: seq<Text>, slash: bool, isDirectory: bool,
                                      parent: DirEntry, n: nat, bs: Bytes, k: Catalog)
    requires Inv(v, g) && cs != [] && CreateRefusal(BytesOf(v, g), root, cs, slash) == 0
    requires Resolve(BytesOf(v, g), root, cs[..|cs| - 1]) == Found(parent) && parent.start in BytesOf(v, g)
    requires !NoRoom(v, BytesOf(v, g), parent.start)
    requires Created(g.nodes, BytesOf(v, g), SpotOf(BytesOf(v, g), root, cs[..|cs| - 1]), parent.start, cs[|cs| - 1],
                     isDirectory, n, k.nodes, bs)
    ensures CreateOutcome(v, g, root, cs, slash, isDirectory, 0, k, bs)
  {
    hide Created, CreateRefusal, NoRoom, Resolve, ImageOk, ChainsOk, SpotOf;
  }

  /** What `fat_create` goes on with once its checks have passed: a path that does not lead into a regular file, a
      name of at most ten characters, and a free entry, because the test for none compares a 16-bit field with -1
      and never fires. The base name is copied into twelve bytes before any check. */
  ghost predicate Creatable(v: Vol, g: Catalog, root: DirEntry, cs: seq<Text>, slash: bool)
    requires Inv(v, g)
  {
    && |BaseOf(cs, slash)| <= NAME_SIZE
    && (cs != [] && !slash ==> OffFiles(BytesOf(v, g), root, cs[..|cs| - 1]))
    && (CreateRefusal(BytesOf(v, g), root, cs, slash) == 0 ==> FreeSet(v.table) != {} && |cs[|cs| - 1]| < NAME_SIZE)
  }

  /** When `fat_create` leaves the volume in order: if nothing is created, or the count of the directory is noted
      where it belongs. */
  ghost predicate CreateKeeps(v: Vol, g: Catalog, root: DirEntry, cs: seq<Text>, slash: bool)
    requires Inv(v, g)
  {
    var b := BytesOf(v, g);
    var up := Resolve(b, root, Upper(cs));
    || CreateRefusal(b, root, cs, slash) != 0
    || CountsRight(b, root, Upper(cs))
    || (up.Found? && up.e.start in b && NoRoom(v, b, up.e.start))
  }

  /** In a full table `fat_find_free` answers -1, and the 16-bit field it is stored in holds the index of no entry. */
  lemma {:induction false} FullTable(t: Table)
    requires LinksInRange(t) && FreeSet(t) == {}
    ensures FirstFree(t, 0) == |t| && (-1) % 0x10000 >= |t|
  {
    AnyFree(t);
  }

  /** `fat_create`. Chains and names are in order in any case. */
  method Create(vol: Volume, path: Text, isDirectory: bool, ghost v: Vol, ghost g: Catalog, ghost cs: seq<Text>,
                ghost slash: bool)
    returns (code: int, ghost k: Catalog)
    requires vol.Valid() && vol.V() == v && Inv(v, g) && v.bpc < 0x20000
    requires Components(cs) && (slash ==> cs != []) && path == Spelled(cs, slash)
    requires Creatable(v, g, RootEntry(vol.g.rootEntries), cs, slash)
    modifies vol`disk, vol.fat
    ensures vol.Valid() && WalkReady(vol.V(), k)
    ensures CreateOutcome(v, g, RootEntry(vol.g.rootEntries), cs, slash, isDirectory, code, k, BytesOf(vol.V(), k))
    ensures InOrder(vol.V()) <==> CreateKeeps(v, g, RootEntry(vol.g.rootEntries), cs, slash)
    ensures InOrder(vol.V()) ==> Inv(vol.V(), k)
  {
    hide *;
    RootFits(vol);
    SplitSpelled(cs, slash);
    var name, directory, parent := BaseName(path), ParentPath(path), RootEntry(vol.g.rootEntries);
    InvWalks(v, g);
    ghost var b, root, front := BytesOf(v, g), RootEntry(vol.g.rootEntries), Upper(cs);
    k := g;
    CreatableFront(v, g, root, cs, slash);
    code, parent := CheckCreate(vol, name, directory, v, g, cs, slash);
    if code != 0 {
      NothingCreated(v, g, root, cs, slash, isDirectory, code);
      return code, g;
    }
    CreatableParts(v, g, root, cs, slash);
    ParentIsNode(g.nodes, b, root, front, parent);
    InvImage(v, g);
    var ok, n;
    ok, n, k := AddNode(vol, parent.start, name, isDirectory, v, g);
    if !ok {
      CreationUndone(v, g, root, cs, slash, isDirectory, parent, vol.V());
      return -EIO, g;
    }
    NewEntryName(name, isDirectory, n);
    FinishCreate(vol, directory, parent, name, isDirectory, n, g.nodes, b, front, vol.V(), k, root);
    CreateDone(v, g, root, cs, slash, isDirectory, parent, n, BytesOf(vol.V(), k), k);
    DoneKeeps(v, g, root, cs, slash, parent);
    OrderByCatalog(vol.V(), k);
  }

  lemma {:induction false} RootFits(vol: Volume)
    requires vol.Valid()
    ensures vol.g.rootEntries < 0x10000
  {
  }

  lemma {:induction false} CreatableFront(v: Vol, g: Catalog, root: DirEntry, cs: seq<Text>, slash: bool)
    requires Inv(v, g) && Creatable(v, g, root, cs, slash) && Components(cs)
    ensures Components(Upper(cs))
    ensures cs == [] || slash || OffFiles(BytesOf(v, g), root, cs[..|cs| - 1])
    ensures cs != [] ==> Upper(cs) == cs[..|cs| - 1]
  {
  }

  lemma {:induction false} CreatableParts(v: Vol, g: Catalog, root: DirEntry, cs: seq<Text>, slash: bool)
    requires Inv(v, g) && Creatable(v, g, root, cs, slash) && CreateRefusal(BytesOf(v, g), root, cs, slash) == 0
    requires cs != [] && !slash
    ensures FreeSet(v.table) != {} && |BaseOf(cs, slash)| < NAME_SIZE && BaseOf(cs, slash) == cs[|cs| - 1]
    ensures ParentOf(cs, slash) == Upper(cs)
  {
    hide CreateRefusal, OffFiles;
  }

  /** Refused. */
  lemma {:induction false} NothingCreated(v: Vol, g: Catalog, root: DirEntry, cs: seq<Text>, slash: bool,
                                          isDirectory: bool, code: int)
    requires Inv(v, g) && code != 0 && code == CreateRefusal(BytesOf(v, g), root, cs, slash)
    ensures WalkReady(v, g) && CreateOutcome(v, g, root, cs, slash, isDirectory, code, g, BytesOf(v, g))
    ensures InOrder(v) && CreateKeeps(v, g, root, cs, slash)
  {
    hide InOrder, CreateRefusal;
    InvWalks(v, g);
    OrderByCatalog(v, g);
  }

  /** Undone for want of a cluster. */
  lemma {:induction false} CreationUndone(v: Vol, g: Catalog, root: DirEntry, cs: seq<Text>, slash: bool,
                                          isDirectory: bool, p: DirEntry, w: Vol)
    requires Inv(v, g) && cs != [] && CreateRefusal(BytesOf(v, g), root, cs, slash) == 0
    requires Resolve(BytesOf(v, g), root, cs[..|cs| - 1]) == Found(p)
    requires p.start in BytesOf(v, g) && NoRoom(v, BytesOf(v, g), p.start)
    requires w.Valid() && ChainsOk(w.table, g) && BytesOf(w, g) == BytesOf(v, g)
    ensures Inv(w, g) && WalkReady(w, g) && InOrder(w) && CreateKeeps(v, g, root, cs, slash)
    ensures CreateOutcome(v, g, root, cs, slash, isDirectory, -EIO, g, BytesOf(w, g))
  {
    hide InOrder, CreateRefusal, NoRoom, Resolve, ImageOk, ChainsOk;
    InvWalks(w, g);
    OrderByCatalog(w, g);
  }

  lemma {:induction false} DoneKeeps(v: Vol, g: Catalog, root: DirEntry, cs: seq<Text>, slash: bool, p: DirEntry)
    requires Inv(v, g) && cs != [] && Resolve(BytesOf(v, g), root, cs[..|cs| - 1]) == Found(p)
    requires p.start in BytesOf(v, g) && !NoRoom(v, BytesOf(v, g), p.start)
    requires CreateRefusal(BytesOf(v, g), root, cs, slash) == 0
    ensures CreateKeeps(v, g, root, cs, slash) <==> p.start == 0 || Named(cs[..|cs| - 1])
  {
    hide CreateRefusal, NoRoom, Resolve;
  }

  method NameTaken(vol: Volume, name: Text, dir: DirEntry, ghost v: Vol, ghost g: Catalog) returns (found: bool)
    requires vol.Valid() && vol.V() == v && ChainsOk(v.table, g) && dir.start in g.nodes
    ensures found <==> Lookup(BytesOf(v, g), dir, name).Found?
    ensures !found && name != [] ==> name !in Names(Slots(BytesOf(v, g)[dir.start]))
  {
    var e;
    ChainOf(v.table, g, dir.start);
    if name != [] && Lookup(BytesOf(v, g), dir, name).Missing? {
      NotFoundIsUnused(Slots(BytesOf(v, g)[dir.start]), name);
    }
    found, e := vol.FindDirEntry(name, dir.start, g.nodes[dir.start].chain);
  }

  lemma {:induction false} SplitAny(cs: seq<Text>)
    requires Components(cs)
    ensures cs == [] ==> BaseName(Join(cs)) == [] && ParentPath(Join(cs)) == Join(cs)
    ensures cs != [] ==> BaseName(Join(cs)) == cs[|cs| - 1] && ParentPath(Join(cs)) == Join(cs[..|cs| - 1])
  {
    if cs == [] {
      SplitRoot();
    } else {
      SplitJoin(cs);
    }
  }

  lemma {:induction false} SplitSpelled(cs: seq<Text>, slash: bool)
    requires Components(cs) && (slash ==> cs != [])
    ensures BaseName(Spelled(cs, slash)) == BaseOf(cs, slash) && ParentPath(Spelled(cs, slash)) == Join(ParentOf(cs, slash))
  {
    hide BaseName, ParentPath, Join, Components;
    if slash {
      SplitSlash(cs);
    } else {
      SplitAny(cs);
      assert Spelled(cs, slash) == Join(cs);
    }
  }

  /** After the node is added: where the parent's entry is kept now, and the path it is reached by. */
  lemma {:induction false} ParentAfterGain(nodes: Nodes, b: Bytes, root: DirEntry, front: seq<Text>, p: DirEntry,
                                           ms: Nodes, bs: Bytes, e: DirEntry)
    requires ImageOk(nodes, b) && ImageOff(ms, bs, p.start, 1)
    requires Components(front) && root.IsDir() && root.start == 0 && ParentIs(nodes, b, root, front, p, 1)
    requires Gained(nodes, b, ms, bs, p.start, e) && p.start in b && e.Name() !in Names(Slots(b[p.start]))
    ensures bs.Keys == ms.Keys && TreeOk(ms, DirsIn(ms, bs))
    ensures Components(Upper(front)) && ParentPath(Join(front)) == Join(Upper(front))
    ensures Resolve(bs, root, Upper(front)).Found?
    ensures var s := SpotOf(b, root, front);
            && Resolve(bs, root, Upper(front)).e.start == UpOf(s)
            && Kept(ms, DirsIn(ms, bs), s, p, LastOf(front)) && (s.NoSpot? ==> p == root)
            && (s.NoSpot? <==> front == [])
            && SpotIn(b, s) && SpotIn(bs, s) && Gained(nodes, Noted(b, s, 1), ms, Noted(bs, s, 1), p.start, e)
            && TreeOk(ms, DirsIn(ms, Noted(bs, s, 1)))
            && (ImageOk(ms, Noted(bs, s, 1)) <==> p.start == 0 || Named(front))
  {
    hide ImageOk, ImageOff, TreeOk, Gained, Slots, Find, Names, Resolve, Descend, SpotOf, Kept, Countable, Noted, SpotIn;
    var s := SpotOf(b, root, front);
    OkHasTree(nodes, b);
    OffHasTree(ms, bs, p.start, 1);
    SplitAny(front);
    if front != [] {
      assert Component(LastOf(front));
    }
    ParentStillFound(nodes, b, root, front, p, ms, bs, e);
    GainedNoted(nodes, b, ms, bs, s, p, LastOf(front), e);
    NotedIsOk(ms, bs, s, p, LastOf(front), 1);
    NoSpotIsRoot(ms, DirsIn(ms, bs), s, p, LastOf(front));
  }

  lemma {:induction false} NoSpotIsRoot(nodes: Nodes, ds: Dirs, s: Spot, p: DirEntry, name: Text)
    requires Kept(nodes, ds, s, p, name)
    ensures s.NoSpot? ==> p.start == 0
  {
  }

  lemma {:induction false} WalksAgain(w: Vol, k: Catalog)
    requires w.Valid() && ChainsOk(w.table, k) && TreeOk(k.nodes, DirsIn(k.nodes, BytesOf(w, k)))
    ensures WalkReady(w, k)
  {
  }

  /** The volume `u` with the table of `w` and the bytes `b`: its order is the order of the image. */
  lemma {:induction false} InvAfter(w: Vol, u: Vol, k: Catalog, b: Bytes)
    requires u.Valid() && w.Valid() && u.table == w.table && ChainsOk(w.table, k)
    requires BytesOf(u, k) == b && TreeOk(k.nodes, DirsIn(k.nodes, b))
    ensures WalkReady(u, k) && (Inv(u, k) <==> ImageOk(k.nodes, b))
  {
  }

  lemma {:induction false} IsCreated(nodes: Nodes, b: Bytes, s: Spot, p: nat, name: Text, isDirectory: bool, n: nat,
                                     ms: Nodes, bs: Bytes)
    requires n < 0x10000 && |name| < NAME_SIZE && SpotIn(b, s) && ChainKept(nodes, b, ms, p)
    requires Gained(nodes, Noted(b, s, 1), ms, bs, p, NewEntry(name, isDirectory, n))
    ensures Created(nodes, b, s, p, name, isDirectory, n, ms, bs)
  {
  }

  lemma {:induction false} RootName(rootEntries: nat)
    requires rootEntries < 0x10000
    ensures RootEntry(rootEntries).name == Padded("~", NAME_SIZE) && RootEntry(rootEntries).IsDir()
    ensures RootEntry(rootEntries).start == 0
  {
  }

  /** The end of `fat_create`: finding the parent's own entry again, and counting the new name there. */
  method FinishCreate(vol: Volume, directory: Text, parent: DirEntry, ghost name: Text, ghost isDirectory: bool,
                      ghost n: nat, ghost nodes: Nodes, ghost b: Bytes, ghost front: seq<Text>, ghost w: Vol,
                      ghost k: Catalog, ghost root: DirEntry)
    requires vol.Valid() && vol.V() == w && ChainsOk(w.table, k) && ImageOk(nodes, b)
    requires vol.g.rootEntries < 0x10000 && root == RootEntry(vol.g.rootEntries)
    requires Components(front) && directory == Join(front) && parent.Valid()
    requires n < 0x10000 && |name| < NAME_SIZE && NewEntry(name, isDirectory, n).Name() == name
    requires ParentIs(nodes, b, root, front, parent, 1) && parent.start in b
    requires ImageOff(k.nodes, BytesOf(w, k), parent.start, 1)
    requires Gained(nodes, b, k.nodes, BytesOf(w, k), parent.start, NewEntry(name, isDirectory, n))
    requires name !in Names(Slots(b[parent.start])) && ChainKept(nodes, b, k.nodes, parent.start)
    modifies vol`disk, vol.fat
    ensures vol.Valid() && WalkReady(vol.V(), k) && vol.V().Valid() && ChainsOk(vol.V().table, k)
    ensures Inv(vol.V(), k) <==> parent.start == 0 || Named(front)
    ensures Created(nodes, b, SpotOf(b, root, front), parent.start, name, isDirectory, n, k.nodes, BytesOf(vol.V(), k))
  {
    hide *;
    ghost var bs, s := BytesOf(w, k), SpotOf(b, root, front);
    RootName(vol.g.rootEntries);
    ParentAfterGain(nodes, b, root, front, parent, k.nodes, bs, NewEntry(name, isDirectory, n));
    WalksAgain(w, k);
    var up := FindPath(vol, ParentPath(directory), k, Upper(front));
    Recount(vol, parent, up.e.start, 1, s, LastOf(front), w, k);
    InvAfter(w, vol.V(), k, Noted(bs, s, 1));
    IsCreated(nodes, b, s, parent.start, name, isDirectory, n, k.nodes, BytesOf(vol.V(), k));
  }
}
