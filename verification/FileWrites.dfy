/** Writing a file of the tree: the bytes it then has, and the tree around it. */
module FileWrites {
  import opened CText
  import opened DirEntries
  import opened Directory
  import opened FatTable
  import opened Volumes
  import opened DiskLayout
  import opened ChainGrowth
  import opened FileContents
  import opened FatVolume
  import opened FileTree
  import opened Catalogs
  import opened Images
  import opened FileEffects
  import opened VolumeOrder

  /** The bytes of a file after `x` is written at `o`: a gap, and everything up to the new end, is zero
      unless written. */
  function Overlay(b: seq<Byte>, o: nat, x: seq<Byte>): (r: seq<Byte>)
    ensures |r| == if o + |x| > |b| then o + |x| else |b|
  {
    if o + |x| > |b| then Splice(b + Zeros(o + |x| - |b|), o, x) else Splice(b, o, x)
  }

  /** What a file of the tree holds. */
  ghost function FileData(nodes: Nodes, b: Bytes, h: nat): seq<Byte>
    requires b.Keys == nodes.Keys && h in nodes && Hangs(nodes, DirsIn(nodes, b), h)
    requires EntryOf(nodes, DirsIn(nodes, b), h).size <= |b[h]|
  {
    b[h][..EntryOf(nodes, DirsIn(nodes, b), h).size]
  }

  // --- a grown chain in the catalog --------------------------------------------------------

  /** The catalog with chain `d` for node `h`. */
  ghost function CatalogWith(g: Catalog, h: nat, d: seq<nat>): Catalog
    requires h in g.nodes
  {
    Catalog(Rechained(g.nodes, h, d), g.own + map c | c in d :: h)
  }

  lemma {:induction false} CatalogWithOwn(t: Table, g: Catalog, h: nat)
    requires ChainsOk(t, g) && h in g.nodes
    ensures CatalogWith(g, h, g.nodes[h].chain) == g
  {
    assert ChainOk(t, g, h);
  }

  lemma {:induction false} CatalogWithMore(g: Catalog, h: nat, n: nat, d: seq<nat>)
    requires h in g.nodes && n in d
    ensures CatalogWith(CatalogGrown(g, h, n), h, d) == CatalogWith(g, h, d)
  {
  }

  /** `w`, where node `h` has the chain `d`, is `v` with zeros behind the bytes of `h`. */
  ghost predicate GrownNode(v: Vol, g: Catalog, h: nat, w: Vol, d: seq<nat>) {
    && v.Valid() && w.Valid() && w.bpc == v.bpc && h in g.nodes && |g.nodes[h].chain| <= |d|
    && ChainsOk(v.table, g) && ChainsOk(w.table, CatalogWith(g, h, d))
    && BytesOf(w, CatalogWith(g, h, d))
       == BytesOf(v, g)[h := BytesOf(v, g)[h] + Zeros(Start(|d| - |g.nodes[h].chain|, v.bpc))]
  }

  lemma {:induction false} GrownNodeMore(v: Vol, g: Catalog, h: nat, n: nat, w: Vol, d: seq<nat>)
    requires v.Valid() && ChainsOk(v.table, g) && h in g.nodes && n < |v.table| && v.table[n] == FREE && n in d
    requires IsChain(v.table, g.nodes[h].chain) && n != 0
    requires GrownNode(Grown(v, g.nodes[h].chain, n), CatalogGrown(g, h, n), h, w, d)
    ensures GrownNode(v, g, h, w, d)
  {
    hide IsChain, ChainsOk, Grown, Linked, LinksInRange, CatalogWith, Content, Zeros, BytesOf;
    var ch, b := g.nodes[h].chain, BytesOf(v, g);
    assert |CatalogGrown(g, h, n).nodes[h].chain| == |ch| + 1;
    var more := |d| - |ch| - 1;
    GrownBytes(v, g, h, n);
    CatalogWithMore(g, h, n, d);
    AppendZeros(b[h], v.bpc, Start(more, v.bpc));
    assert Start(more + 1, v.bpc) == Start(more, v.bpc) + v.bpc;
  }

  lemma {:induction false} GrownNodeSame(v: Vol, g: Catalog, h: nat)
    requires v.Valid() && ChainsOk(v.table, g) && h in g.nodes
    ensures GrownNode(v, g, h, v, g.nodes[h].chain)
  {
    CatalogWithOwn(v.table, g, h);
    assert BytesOf(v, g)[h] + Zeros(0) == BytesOf(v, g)[h];
  }

  /** Growth keeps the accounting, and adds zeros to the bytes of one node. */
  lemma {:induction false} GrowthBytes(v: Vol, g: Catalog, h: nat, k: nat)
    requires v.Valid() && ChainsOk(v.table, g) && h in g.nodes
    requires IsChain(v.table, g.nodes[h].chain) && v.table[0] != FREE
    ensures var (ok, w, d) := GrownBy(v, g.nodes[h].chain, k);
            GrownNode(v, g, h, w, d)
    decreases k
  {
    hide GrownNode, ChainsOk, IsChain, LinksInRange, Grown, BytesOf, Content;
    var ch, n := g.nodes[h].chain, FirstFree(v.table, 0);
    if k == 0 || n == |v.table| {
      GrownNodeSame(v, g, h);
    } else {
      GrownBytes(v, g, h, n);
      RootInUse(Grown(v, ch, n).table, CatalogGrown(g, h, n));
      GrowthAdds(Grown(v, ch, n), ch + [n], k - 1);
      GrowthBytes(Grown(v, ch, n), CatalogGrown(g, h, n), h, k - 1);
      var (ok, w, d) := GrownBy(Grown(v, ch, n), ch + [n], k - 1);
      assert d[|ch|] == d[..|ch + [n]|][|ch|] == n;
      GrownNodeMore(v, g, h, n, w, d);
    }
  }

  // --- the image around a written file -----------------------------------------------------

  lemma {:induction false} RechainImage(nodes: Nodes, b: Bytes, h: nat, chain: seq<nat>)
    requires ImageOk(nodes, b) && h in nodes
    ensures ImageOk(Rechained(nodes, h, chain), b)
    ensures DirsIn(Rechained(nodes, h, chain), b) == DirsIn(nodes, b)
  {
    var ds, ms := DirsIn(nodes, b), Rechained(nodes, h, chain);
    assert DirsIn(ms, b) == ds;
    RechainTree(nodes, ds, h, chain);
    RechainCounts(nodes, ds, h, chain);
    forall f | f in ms && !ms[f].isDir
      ensures FileFits(ms, ds, b, f)
    {
      assert FileFits(nodes, ds, b, f) && Hangs(ms, ds, f);
    }
  }

  // --- fat_write on a file of the tree -----------------------------------------------------

  /** `file` and `parent` are the current entries of a file and of the directory that holds it. */
  ghost predicate Handle(v: Vol, g: Catalog, file: DirEntry, parent: DirEntry) {
    && Inv(v, g) && file.start in g.nodes && !g.nodes[file.start].isDir && file.Valid() && file.start != 0
    && Hangs(g.nodes, DirsIn(g.nodes, BytesOf(v, g)), file.start)
    && EntryOf(g.nodes, DirsIn(g.nodes, BytesOf(v, g)), file.start) == file
    && parent.start == g.nodes[file.start].parent
  }

  lemma {:induction false} HandleGrows(v: Vol, g: Catalog, file: DirEntry, parent: DirEntry)
    requires Handle(v, g, file, parent)
    ensures !file.IsDir() && parent.start in g.nodes && parent.start != file.start
    ensures Growable(v, file, g.nodes[file.start].chain, g.nodes[parent.start].chain)
    ensures IsChain(v.table, g.nodes[file.start].chain) && |v.table| > 0 && v.table[0] != FREE
    ensures |g.nodes[parent.start].chain| > 0 && g.nodes[parent.start].chain[0] == parent.start
    ensures file.size <= |BytesOf(v, g)[file.start]|
    ensures forall i :: file.size <= i < |BytesOf(v, g)[file.start]| ==> BytesOf(v, g)[file.start][i] == NUL
  {
    hide IsChain;
    var ds := DirsIn(g.nodes, BytesOf(v, g));
    assert FileFits(g.nodes, ds, BytesOf(v, g), file.start);
    assert DirOk(ds[parent.start], parent.start, g.nodes[parent.start].parent);
    ChainOf(v.table, g, file.start);
    ChainOf(v.table, g, parent.start);
    ChainsApart(v.table, g, parent.start, file.start);
    RootInUse(v.table, g);
  }

  lemma {:induction false} OverlayIs(x: seq<Byte>, size: nat, m: nat, o: nat, y: seq<Byte>)
    requires size <= |x| && o + |y| <= |x| + m
    requires forall i :: size <= i < |x| ==> x[i] == NUL
    ensures Splice(x + Zeros(m), o, y)[..if o + |y| > size then o + |y| else size] == Overlay(x[..size], o, y)
  {
  }

  /** The outcome of `fat_write` on file `h`: all of the buffer is written, or nothing but room is added. */
  ghost predicate WriteOutcome(nodes: Nodes, b: Bytes, ms: Nodes, bs: Bytes, h: nat, o: nat, x: seq<Byte>, r: int) {
    && b.Keys == nodes.Keys == bs.Keys && ImageOk(nodes, b) && ImageOk(ms, bs)
    && h in nodes && !nodes[h].isDir && Hangs(nodes, DirsIn(nodes, b), h) && h in ms && Hangs(ms, DirsIn(ms, bs), h)
    && EntryOf(nodes, DirsIn(nodes, b), h).size <= |b[h]| && EntryOf(ms, DirsIn(ms, bs), h).size <= |bs[h]|
    && ms == Rechained(nodes, h, ms[h].chain)
    && (forall y :: y in nodes && y != h && !nodes[y].isDir ==> bs[y] == b[y])
    && if r < 0 then
         DirsIn(ms, bs) == DirsIn(nodes, b) && FileData(ms, bs, h) == FileData(nodes, b, h)
       else
         && r == |x|
         && DirsIn(ms, bs) == Resized(nodes, DirsIn(nodes, b), h, |Overlay(FileData(nodes, b, h), o, x)|)
         && FileData(ms, bs, h) == Overlay(FileData(nodes, b, h), o, x)
  }

  /** A write within the file. */
  lemma {:induction false} WrittenInside(nodes: Nodes, b: Bytes, h: nat, o: nat, x: seq<Byte>)
    requires ImageOk(nodes, b) && h in nodes && h != 0 && !nodes[h].isDir && Hangs(nodes, DirsIn(nodes, b), h)
    requires FileFits(nodes, DirsIn(nodes, b), b, h)
    requires o + |x| <= EntryOf(nodes, DirsIn(nodes, b), h).size
    ensures o + |x| <= |b[h]|
    ensures WriteOutcome(nodes, b, nodes, b[h := Splice(b[h], o, x)], h, o, x, |x|)
  {
    var ds, size, y := DirsIn(nodes, b), EntryOf(nodes, DirsIn(nodes, b), h).size, Splice(b[h], o, x);
    RewriteImage(nodes, b, h, y);
    OverlayIs(b[h], size, 0, o, x);
    assert b[h] + Zeros(0) == b[h];
    ResizedSame(nodes, ds, h);
    assert nodes == Rechained(nodes, h, nodes[h].chain);
  }

  /** Room added behind a file, and nothing else. */
  lemma {:induction false} WrittenNothing(nodes: Nodes, b: Bytes, h: nat, o: nat, x: seq<Byte>, m: nat, chain: seq<nat>)
    requires ImageOk(nodes, b) && h in nodes && h != 0 && !nodes[h].isDir && Hangs(nodes, DirsIn(nodes, b), h)
    requires FileFits(nodes, DirsIn(nodes, b), b, h)
    ensures WriteOutcome(nodes, b, Rechained(nodes, h, chain), b[h := b[h] + Zeros(m)], h, o, x, -1)
  {
    hide Slots, Splice, Encode, TreeOk, CountsOk;
    var ms, bs := Rechained(nodes, h, chain), b[h := b[h] + Zeros(m)];
    var size := EntryOf(nodes, DirsIn(nodes, b), h).size;
    RewriteImage(nodes, b, h, b[h] + Zeros(m));
    RechainImage(nodes, bs, h, chain);
    assert Hangs(ms, DirsIn(ms, bs), h);
    assert (b[h] + Zeros(m))[..size] == b[h][..size];
  }

  /** A write beyond the end: room is added, the size is updated and the bytes are written. */
  lemma {:induction false} WrittenBeyond(nodes: Nodes, b: Bytes, h: nat, o: nat, x: seq<Byte>, m: nat, chain: seq<nat>,
                                         e: DirEntry)
    requires ImageOk(nodes, b) && h in nodes && h != 0 && !nodes[h].isDir && Hangs(nodes, DirsIn(nodes, b), h)
    requires FileFits(nodes, DirsIn(nodes, b), b, h)
    requires EntryOf(nodes, DirsIn(nodes, b), h).size < o + |x| <= |b[h]| + m && e.Valid()
    requires e == EntryOf(nodes, DirsIn(nodes, b), h).(size := o + |x|)
    ensures nodes[h].parent in b && ENTRY_SIZE * (nodes[h].slot + 1) <= |b[nodes[h].parent]|
    ensures nodes[h].parent != h
    ensures WriteOutcome(nodes, b, Rechained(nodes, h, chain),
                         Put(b[h := b[h] + Zeros(m)], nodes[h].parent, nodes[h].slot, e)[h := Splice(b[h] + Zeros(m), o, x)],
                         h, o, x, |x|)
  {
    hide Splice, TreeOk, CountsOk, FilesOk, Encode, Slots;
    var ms, room, b1 := Rechained(nodes, h, chain), b[h] + Zeros(m), b[h := b[h] + Zeros(m)];
    var size, p, k := EntryOf(nodes, DirsIn(nodes, b), h).size, nodes[h].parent, nodes[h].slot;
    RewriteImage(nodes, b, h, room);
    RechainImage(nodes, b1, h, chain);
    assert Hangs(ms, DirsIn(ms, b1), h);
    ResizeFile(ms, b1, h, e);
    var b2, y := Put(b1, p, k, e), Splice(room, o, x);
    ResizedHangs(ms, DirsIn(ms, b1), h, o + |x|);
    SpliceTail(room, o, x);
    RewriteImage(ms, b2, h, y);
    OverlayIs(b[h], size, m, o, x);
  }

  lemma {:induction false} SpliceTail(s: seq<Byte>, o: nat, x: seq<Byte>)
    requires o + |x| <= |s|
    ensures forall i :: o + |x| <= i < |s| ==> Splice(s, o, x)[i] == s[i]
  {
  }

  lemma {:induction false} ResizedHangs(nodes: Nodes, ds: Dirs, h: nat, size: nat)
    requires h in nodes && Hangs(nodes, ds, h)
    ensures Hangs(nodes, Resized(nodes, ds, h, size), h)
    ensures EntryOf(nodes, Resized(nodes, ds, h, size), h) == EntryOf(nodes, ds, h).(size := size)
  {
  }

  lemma {:induction false} ResizedSame(nodes: Nodes, ds: Dirs, h: nat)
    requires h in nodes && Hangs(nodes, ds, h)
    ensures Resized(nodes, ds, h, EntryOf(nodes, ds, h).size) == ds
  {
    var p, k := nodes[h].parent, nodes[h].slot;
    var e := ds[p][k];
    assert e.(size := e.size) == e;
    assert ds[p][k := e] == ds[p];
  }

  /** From chains to nodes: what `fat_write` did, read off the catalog with the chain it left. */
  lemma {:induction false} WrittenOutcome(v: Vol, w: Vol, g: Catalog, file: DirEntry, parent: DirEntry, o: nat,
                                          x: seq<Byte>, r: int, after: DirEntry, d: seq<nat>)
    requires Handle(v, g, file, parent) && o + |x| < 0x1_0000_0000
    requires Growable(v, file, g.nodes[file.start].chain, g.nodes[parent.start].chain)
    requires Written(v, w, file, g.nodes[file.start].chain, g.nodes[parent.start].chain, o, x, r, after, d)
    ensures w.Valid() && ChainsOk(w.table, CatalogWith(g, file.start, d))
    ensures WriteOutcome(g.nodes, BytesOf(v, g), CatalogWith(g, file.start, d).nodes,
                         BytesOf(w, CatalogWith(g, file.start, d)), file.start, o, x, r)
    ensures after == if r >= 0 && o + |x| > file.size then file.(size := o + |x|) else file
  {
    hide IsChain, ChainsOk, GrownNode, Splice, Encode, Slots, WriteOutcome, TreeOk, CountsOk, FilesOk, GrownBy;
    var h, b := file.start, BytesOf(v, g);
    HandleGrows(v, g, file, parent);
    HandleFits(v, g, file, parent);
    if o + |x| <= file.size {
      CatalogWithOwn(v.table, g, h);
      PatchedBytes(v, w, g, h, o, x);
      WrittenInside(g.nodes, b, h, o, x);
    } else if r == -1 {
      StoppedOutcome(v, w, g, file, parent, o, x, after, d);
    } else {
      var m: Vol :| Extended(v, m, file, g.nodes[h].chain, g.nodes[parent.start].chain, o + |x|, 0, after, d)
                 && m.Valid() && m.Holds(d) && Patched(m, w, d, o, x);
      ExtendedOutcome(v, m, w, g, file, parent, o, x, after, d);
    }
  }

  lemma {:induction false} HandleFits(v: Vol, g: Catalog, file: DirEntry, parent: DirEntry)
    requires Handle(v, g, file, parent)
    ensures v.Valid() && ChainsOk(v.table, g) && ImageOk(g.nodes, BytesOf(v, g))
    ensures file.start in g.nodes && !g.nodes[file.start].isDir && file.start != 0 && parent.start == g.nodes[file.start].parent
    ensures FileFits(g.nodes, DirsIn(g.nodes, BytesOf(v, g)), BytesOf(v, g), file.start)
    ensures EntryOf(g.nodes, DirsIn(g.nodes, BytesOf(v, g)), file.start) == file
  {
  }

  /** The slot `fat_update_dir_entry` finds after growth is the slot of the file. */
  lemma {:induction false} SlotAfterGrowth(v: Vol, g: Catalog, file: DirEntry, parent: DirEntry, k: nat)
    requires Handle(v, g, file, parent)
    requires Growable(v, file, g.nodes[file.start].chain, g.nodes[parent.start].chain)
    ensures var (ok, u, d) := GrownBy(v, g.nodes[file.start].chain, k);
            && u.Holds(g.nodes[parent.start].chain)
            && g.nodes[file.start].slot < |DirOn(u, g.nodes[parent.start].chain)|
            && Find(DirOn(u, g.nodes[parent.start].chain), file.Name(), true, 0) == g.nodes[file.start].slot
            && GrownNode(v, g, file.start, u, d)
  {
    hide ChainsOk, TreeOk, CountsOk, FilesOk, GrownNode;
    var (ok, u, d) := GrownBy(v, g.nodes[file.start].chain, k);
    GrowthKeeps(v, g.nodes[file.start].chain, k, g.nodes[parent.start].chain);
    GrowthBytes(v, g, file.start, k);
    FindEntry(g.nodes, DirsIn(g.nodes, BytesOf(v, g)), file.start);
  }

  /** Growth that found no room, or no slot to update: only zeros are added. */
  lemma {:induction false} StoppedOutcome(v: Vol, w: Vol, g: Catalog, file: DirEntry, parent: DirEntry, o: nat,
                                          x: seq<Byte>, after: DirEntry, d: seq<nat>)
    requires Handle(v, g, file, parent) && file.size < o + |x| < 0x1_0000_0000
    requires Growable(v, file, g.nodes[file.start].chain, g.nodes[parent.start].chain)
    requires Extended(v, w, file, g.nodes[file.start].chain, g.nodes[parent.start].chain, o + |x|, -1, after, d)
    ensures w.Valid() && ChainsOk(w.table, CatalogWith(g, file.start, d)) && after == file
    ensures WriteOutcome(g.nodes, BytesOf(v, g), CatalogWith(g, file.start, d).nodes,
                         BytesOf(w, CatalogWith(g, file.start, d)), file.start, o, x, -1)
  {
    hide IsChain, ChainsOk, WriteOutcome, TreeOk, CountsOk, FilesOk, Slots, Encode, Splice, GrownBy, Find, Patched, Content, Upto;
    var h, ch := file.start, g.nodes[file.start].chain;
    SlotAfterGrowth(v, g, file, parent, MissingClusters(v.bpc, o + |x|, |ch|));
    HandleFits(v, g, file, parent);
    WrittenNothing(g.nodes, BytesOf(v, g), h, o, x, Start(|d| - |ch|, v.bpc), d);
  }

  /** A patch of one chain, then of another. */
  lemma {:induction false} TwoPatches(u: Vol, m: Vol, w: Vol, k: Catalog, p: nat, at: nat, y: seq<Byte>, h: nat, o: nat,
                                      x: seq<Byte>)
    requires u.Valid() && ChainsOk(u.table, k) && p in k.nodes && h in k.nodes && h != p
    requires u.Holds(k.nodes[p].chain) && Patched(u, m, k.nodes[p].chain, at, y)
    requires m.Holds(k.nodes[h].chain) && Patched(m, w, k.nodes[h].chain, o, x)
    ensures w.Valid() && ChainsOk(w.table, k)
    ensures at + |y| <= |BytesOf(u, k)[p]| && o + |x| <= |BytesOf(u, k)[h]|
    ensures BytesOf(w, k) == BytesOf(u, k)[p := Splice(BytesOf(u, k)[p], at, y)][h := Splice(BytesOf(u, k)[h], o, x)]
  {
    hide ChainsOk, Splice;
    PatchedBytes(u, m, k, p, at, y);
    PatchedBytes(m, w, k, h, o, x);
  }

  lemma {:induction false} GrownNodeIs(v: Vol, g: Catalog, h: nat, u: Vol, d: seq<nat>)
    requires GrownNode(v, g, h, u, d)
    ensures u.Valid() && ChainsOk(u.table, CatalogWith(g, h, d)) && |g.nodes[h].chain| <= |d|
    ensures CatalogWith(g, h, d).nodes == Rechained(g.nodes, h, d)
    ensures BytesOf(u, CatalogWith(g, h, d))
         == BytesOf(v, g)[h := BytesOf(v, g)[h] + Zeros(Start(|d| - |g.nodes[h].chain|, v.bpc))]
    ensures forall p :: p in g.nodes && p != h ==> p in CatalogWith(g, h, d).nodes && CatalogWith(g, h, d).nodes[p] == g.nodes[p]
    ensures CatalogWith(g, h, d).nodes[h].chain == d
  {
    hide ChainsOk, BytesOf, Zeros, Start;
  }

  /** The update of the entry and the write, on top of the bytes `b` after growth. */
  lemma {:induction false} ExtendedBytes(u: Vol, m: Vol, w: Vol, k: Catalog, b: Bytes, p: nat, slot: nat, after: DirEntry,
                                         h: nat, o: nat, x: seq<Byte>)
    requires u.Valid() && ChainsOk(u.table, k) && BytesOf(u, k) == b && p in k.nodes && h in k.nodes && h != p && after.Valid()
    requires u.Holds(k.nodes[p].chain) && Patched(u, m, k.nodes[p].chain, ENTRY_SIZE * slot, Encode(after))
    requires m.Valid() && m.Holds(k.nodes[h].chain) && Patched(m, w, k.nodes[h].chain, o, x)
    ensures w.Valid() && ChainsOk(w.table, k)
    ensures ENTRY_SIZE * (slot + 1) <= |b[p]| && o + |x| <= |b[h]|
    ensures BytesOf(w, k) == Put(b, p, slot, after)[h := Splice(b[h], o, x)]
  {
    hide ChainsOk, Splice, Encode, Patched, BytesOf;
    TwoPatches(u, m, w, k, p, ENTRY_SIZE * slot, Encode(after), h, o, x);
  }

  /** What a successful extension was. */
  lemma {:induction false} ExtendedParts(v: Vol, m: Vol, g: Catalog, file: DirEntry, parent: DirEntry, size: nat,
                                         after: DirEntry, d: seq<nat>)
    requires Handle(v, g, file, parent) && file.size < size < 0x1_0000_0000
    requires Growable(v, file, g.nodes[file.start].chain, g.nodes[parent.start].chain)
    requires Extended(v, m, file, g.nodes[file.start].chain, g.nodes[parent.start].chain, size, 0, after, d)
    ensures after == file.(size := size) && after.Valid()
    ensures var u := GrownBy(v, g.nodes[file.start].chain, MissingClusters(v.bpc, size, |g.nodes[file.start].chain|)).1;
            && u.Holds(g.nodes[parent.start].chain) && GrownNode(v, g, file.start, u, d)
            && Patched(u, m, g.nodes[parent.start].chain, ENTRY_SIZE * g.nodes[file.start].slot, Encode(after))
  {
    hide IsChain, ChainsOk, TreeOk, CountsOk, FilesOk, Slots, Encode, Find, GrownNode, Patched;
    SlotAfterGrowth(v, g, file, parent, MissingClusters(v.bpc, size, |g.nodes[file.start].chain|));
  }

  /** Growth and writing: the bytes behind the slot, the size and the content, in that order. */
  lemma {:induction false} ExtendedOutcome(v: Vol, m: Vol, w: Vol, g: Catalog, file: DirEntry, parent: DirEntry, o: nat,
                                           x: seq<Byte>, after: DirEntry, d: seq<nat>)
    requires Handle(v, g, file, parent) && file.size < o + |x| < 0x1_0000_0000
    requires Growable(v, file, g.nodes[file.start].chain, g.nodes[parent.start].chain)
    requires Extended(v, m, file, g.nodes[file.start].chain, g.nodes[parent.start].chain, o + |x|, 0, after, d)
    requires m.Valid() && m.Holds(d) && Patched(m, w, d, o, x)
    ensures w.Valid() && ChainsOk(w.table, CatalogWith(g, file.start, d)) && after == file.(size := o + |x|)
    ensures WriteOutcome(g.nodes, BytesOf(v, g), CatalogWith(g, file.start, d).nodes,
                         BytesOf(w, CatalogWith(g, file.start, d)), file.start, o, x, |x|)
  {
    hide *;
    HandleFits(v, g, file, parent);
    HandleGrows(v, g, file, parent);
    var h, p, ch := file.start, parent.start, g.nodes[file.start].chain;
    ExtendedParts(v, m, g, file, parent, o + |x|, after, d);
    var u := GrownBy(v, ch, MissingClusters(v.bpc, o + |x|, |ch|)).1;
    GrownNodeIs(v, g, h, u, d);
    ExtendedBytes(u, m, w, CatalogWith(g, h, d), BytesOf(u, CatalogWith(g, h, d)), p, g.nodes[h].slot, after, h, o, x);
    WrittenBeyond(g.nodes, BytesOf(v, g), h, o, x, Start(|d| - |ch|, v.bpc), d, after);
  }

  /** A write that ends at `n` succeeds if that is inside the file, or if the chain is not longer than the new size
      asks for and there are free clusters for the rest. */
  ghost predicate WriteFits(v: Vol, ch: seq<nat>, size: nat, n: nat)
    requires v.Valid()
  {
    n <= size || |ch| <= n / v.bpc + 1 <= |ch| + |FreeSet(v.table)|
  }

  /** Whether `fat_write` succeeds, which `WriteFits` decides beforehand. */
  lemma {:induction false} WriteSucceeds(v: Vol, w: Vol, g: Catalog, file: DirEntry, parent: DirEntry, o: nat,
                                         x: seq<Byte>, r: int, after: DirEntry, d: seq<nat>)
    requires Handle(v, g, file, parent) && o + |x| < 0x1_0000_0000
    requires Growable(v, file, g.nodes[file.start].chain, g.nodes[parent.start].chain)
    requires Written(v, w, file, g.nodes[file.start].chain, g.nodes[parent.start].chain, o, x, r, after, d)
    ensures v.Valid() && r == if WriteFits(v, g.nodes[file.start].chain, file.size, o + |x|) then |x| else -1
    ensures r >= 0 && o + |x| > file.size ==> |d| == (o + |x|) / v.bpc + 1
  {
    hide IsChain, ChainsOk, Patched, TreeOk, CountsOk, FilesOk, Slots, Encode, GrownNode, Find, DirOn, FreeSet;
    var ch := g.nodes[file.start].chain;
    if o + |x| > file.size {
      SlotAfterGrowth(v, g, file, parent, MissingClusters(v.bpc, o + |x|, |ch|));
      GrowthSucceeds(v, ch, o + |x|);
    }
  }

  lemma {:induction false} OverlayLength(b: seq<Byte>, o: nat, x: seq<Byte>)
    ensures |Overlay(b, o, x)| == if o + |x| > |b| then o + |x| else |b|
  {
  }

  /** The entry of the written file: its new size, where it hung. */
  lemma {:induction false} EntryAfter(nodes: Nodes, b: Bytes, ms: Nodes, bs: Bytes, h: nat, o: nat, x: seq<Byte>, r: int)
    requires WriteOutcome(nodes, b, ms, bs, h, o, x, r)
    ensures bs.Keys == ms.Keys && b.Keys == nodes.Keys && h in ms && h in nodes && ms[h] == nodes[h].(chain := ms[h].chain)
    ensures ImageOk(ms, bs) && Hangs(ms, DirsIn(ms, bs), h) && Hangs(nodes, DirsIn(nodes, b), h)
    ensures var e := EntryOf(nodes, DirsIn(nodes, b), h);
            EntryOf(ms, DirsIn(ms, bs), h) == if r >= 0 && o + |x| > e.size then e.(size := o + |x|) else e
  {
    hide ImageOk, Slots, Overlay;
    if r >= 0 {
      OverlayLength(FileData(nodes, b, h), o, x);
      ResizedHangs(nodes, DirsIn(nodes, b), h, |Overlay(FileData(nodes, b, h), o, x)|);
      assert EntryOf(nodes, DirsIn(nodes, b), h).(size := EntryOf(nodes, DirsIn(nodes, b), h).size)
          == EntryOf(nodes, DirsIn(nodes, b), h);
    }
  }

  /** After a write the handle, with the entry the write returned, is still current. */
  lemma {:induction false} HandleAfter(v: Vol, w: Vol, g: Catalog, k: Catalog, file: DirEntry, parent: DirEntry, o: nat,
                                       x: seq<Byte>, r: int, after: DirEntry)
    requires Handle(v, g, file, parent) && o + |x| < 0x1_0000_0000 && w.Valid() && ChainsOk(w.table, k)
    requires WriteOutcome(g.nodes, BytesOf(v, g), k.nodes, BytesOf(w, k), file.start, o, x, r)
    requires after == if r >= 0 && o + |x| > file.size then file.(size := o + |x|) else file
    ensures Inv(w, k) && Handle(w, k, after, parent)
  {
    hide ChainsOk, ImageOk, BytesOf, WriteOutcome, Slots;
    EntryAfter(g.nodes, BytesOf(v, g), k.nodes, BytesOf(w, k), file.start, o, x, r);
  }

  /** `fat_write` on a file of the tree, through a current handle. */
  method WriteFile(vol: Volume, file: DirEntry, parent: DirEntry, offset: nat, buffer: seq<Byte>, ghost v: Vol,
                   ghost g: Catalog)
    returns (r: int, after: DirEntry, ghost k: Catalog)
    requires vol.Valid() && vol.V() == v && Handle(v, g, file, parent) && offset + |buffer| < 0x1_0000_0000
    modifies vol`disk, vol.fat
    ensures vol.Valid() && Inv(vol.V(), k) && Handle(vol.V(), k, after, parent)
    ensures WriteOutcome(g.nodes, BytesOf(v, g), k.nodes, BytesOf(vol.V(), k), file.start, offset, buffer, r)
    ensures v.Valid() && file.start in g.nodes
    ensures r == if WriteFits(v, g.nodes[file.start].chain, file.size, offset + |buffer|) then |buffer| else -1
    ensures file.start in k.nodes
    ensures r >= 0 && offset + |buffer| > file.size ==>
              |k.nodes[file.start].chain| == (offset + |buffer|) / v.bpc + 1
  {
    hide IsChain, ChainsOk, ImageOk, Slots, Written, Growable, Handle, WriteOutcome, Hangs, WriteFits;
    HandleFits(v, g, file, parent);
    HandleGrows(v, g, file, parent);
    ghost var d;
    r, after, d := vol.Write(file, parent, offset, buffer, g.nodes[file.start].chain, g.nodes[parent.start].chain);
    WrittenOutcome(v, vol.V(), g, file, parent, offset, buffer, r, after, d);
    WriteSucceeds(v, vol.V(), g, file, parent, offset, buffer, r, after, d);
    k := CatalogWith(g, file.start, d);
    HandleAfter(v, vol.V(), g, k, file, parent, offset, buffer, r, after);
  }

  /** The data of the file a handle is for. */
  ghost function DataOf(v: Vol, g: Catalog, file: DirEntry, parent: DirEntry): seq<Byte>
    requires Handle(v, g, file, parent)
  {
    HandleFits(v, g, file, parent);
    FileData(g.nodes, BytesOf(v, g), file.start)
  }

  /** `fat_read` on a file of the tree, through a current handle. */
  method ReadFile(vol: Volume, file: DirEntry, offset: nat, size: nat, ghost parent: DirEntry, ghost v: Vol,
                  ghost g: Catalog)
    returns (r: int, buf: seq<Byte>)
    requires vol.Valid() && vol.V() == v && Handle(v, g, file, parent) && offset + size < 0x1_0000_0000
    ensures r == |buf| && buf == Range(DataOf(v, g, file, parent), offset, size)
  {
    hide IsChain, ChainsOk, TreeOk, CountsOk, FilesOk, Slots, Range;
    HandleGrows(v, g, file, parent);
    r, buf := vol.Read(file, offset, size, g.nodes[file.start].chain);
  }

  /** Byte by byte: what was written, else what was there, else zero in a gap. */
  lemma {:induction false} OverlayAt(b: seq<Byte>, o: nat, x: seq<Byte>, i: nat)
    requires i < |Overlay(b, o, x)|
    ensures Overlay(b, o, x)[i] == if o <= i < o + |x| then x[i - o] else if i < |b| then b[i] else NUL
  {
  }

  /** Reading back what was written, and reading a stretch apart from it. */
  lemma {:induction false} ReadBack(b: seq<Byte>, o: nat, x: seq<Byte>, at: nat, n: nat)
    ensures Range(Overlay(b, o, x), o, |x|) == x
    ensures at + n <= |b| && (at + n <= o || o + |x| <= at) ==> Range(Overlay(b, o, x), at, n) == Range(b, at, n)
  {
    var r := Range(Overlay(b, o, x), o, |x|);
    forall i | 0 <= i < |x|
      ensures |r| == |x| && r[i] == x[i]
    {
      OverlayAt(b, o, x, o + i);
    }
    assert x == [] ==> r == [];
    if at + n <= |b| && (at + n <= o || o + |x| <= at) {
      var s, t := Range(Overlay(b, o, x), at, n), Range(b, at, n);
      forall i | 0 <= i < n
        ensures |s| == |t| == n && s[i] == t[i]
      {
        OverlayAt(b, o, x, at + i);
      }
      assert n == 0 ==> s == t == [];
    }
  }
}
