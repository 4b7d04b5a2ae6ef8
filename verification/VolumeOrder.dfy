/** Whether a volume is in order: whether any catalog fits it. */
module VolumeOrder {
  import opened CText
  import opened DirEntries
  import opened FatTable
  import opened Volumes
  import opened ChainGrowth
  import opened FileTree
  import opened Catalogs
  import opened Images

  /** The volume as a whole: chains accounted for, a tree of directories, counts and file ends right. */
  ghost predicate Inv(v: Vol, g: Catalog) {
    && v.Valid() && ChainsOk(v.table, g)
    && ImageOk(g.nodes, BytesOf(v, g))
  }

  ghost predicate WalkReady(v: Vol, g: Catalog) {
    && v.Valid() && ChainsOk(v.table, g)
    && TreeOk(g.nodes, DirsIn(g.nodes, BytesOf(v, g)))
  }

  /** Some catalog fits the volume. */
  ghost predicate InOrder(v: Vol) {
    exists g: Catalog :: Inv(v, g)
  }

  lemma {:induction false} InvWalks(v: Vol, g: Catalog)
    requires Inv(v, g)
    ensures WalkReady(v, g) && v.Valid() && ChainsOk(v.table, g) && LegalName([]) == false
  {
  }

  lemma {:induction false} InvImage(v: Vol, g: Catalog)
    requires Inv(v, g)
    ensures ImageOk(g.nodes, BytesOf(v, g))
  {
  }

  // --- the catalog is in the disk ----------------------------------------------------------

  lemma {:induction false} SameChain(v: Vol, g: Catalog, k: Catalog, h: nat)
    requires v.Valid() && ChainsOk(v.table, g) && ChainsOk(v.table, k) && h in g.nodes && h in k.nodes
    ensures g.nodes[h].chain == k.nodes[h].chain && BytesOf(v, g)[h] == BytesOf(v, k)[h]
  {
    ChainOf(v.table, g, h);
    ChainOf(v.table, k, h);
    ChainUnique(v.table, g.nodes[h].chain, k.nodes[h].chain);
  }

  lemma {:induction false} SameNode(v: Vol, g: Catalog, k: Catalog, h: nat)
    requires WalkReady(v, g) && WalkReady(v, k) && h in g.nodes
    ensures h in k.nodes && g.nodes[h] == k.nodes[h] && BytesOf(v, g)[h] == BytesOf(v, k)[h]
    decreases g.nodes[h].depth
  {
    hide ChainsOk, Slots, DirsOk;
    var ds, es := DirsIn(g.nodes, BytesOf(v, g)), DirsIn(k.nodes, BytesOf(v, k));
    if h != 0 {
      assert Hangs(g.nodes, ds, h);
      var p, slot := g.nodes[h].parent, g.nodes[h].slot;
      SameNode(v, g, k, p);
      assert Names1(k.nodes, es, p, slot);
      assert Hangs(k.nodes, es, h);
    }
    SameChain(v, g, k, h);
  }

  /** A volume whose chains and names are in order has one catalog: table and clusters determine the nodes and
      what belongs to them. */
  lemma {:induction false} CatalogUnique(v: Vol, g: Catalog, k: Catalog)
    requires WalkReady(v, g) && WalkReady(v, k)
    ensures g == k
  {
    hide TreeOk;
    forall h | h in g.nodes
      ensures h in k.nodes && g.nodes[h] == k.nodes[h]
    {
      SameNode(v, g, k, h);
    }
    forall h | h in k.nodes
      ensures h in g.nodes
    {
      SameNode(v, k, g, h);
    }
    assert g.nodes == k.nodes;
    forall c
      ensures c in g.own <==> c in k.own
      ensures c in g.own ==> g.own[c] == k.own[c]
    {
      assert c in g.own ==> OwnOk(g, c) && ChainOk(v.table, k, g.own[c]);
      assert c in k.own ==> OwnOk(k, c) && ChainOk(v.table, g, k.own[c]);
    }
  }

  /** If the one catalog that fits chains and names has a count or a file wrong, none has them right. */
  lemma {:induction false} NoCatalogFits(v: Vol, k: Catalog, g: Catalog)
    requires WalkReady(v, k) && !Inv(v, k)
    ensures !Inv(v, g)
  {
    hide ImageOk, ChainsOk, TreeOk;
    if WalkReady(v, g) {
      CatalogUnique(v, k, g);
    } else if Inv(v, g) {
      InvWalks(v, g);
    }
  }

  /** If the one catalog that fits chains and names does not fit all, the volume is not in order. */
  lemma {:induction false} OrderByCatalog(v: Vol, k: Catalog)
    requires WalkReady(v, k)
    ensures InOrder(v) <==> Inv(v, k)
  {
    hide Inv, WalkReady;
    if InOrder(v) && !Inv(v, k) {
      var g: Catalog :| Inv(v, g);
      NoCatalogFits(v, k, g);
    }
  }

  // --- what survives a change --------------------------------------------------------------

  /** The directory stored on `ch` still names, slot by slot, what it named. */
  ghost predicate Stays(v: Vol, w: Vol, ch: seq<nat>)
    requires v.Valid() && w.Valid() && v.Holds(ch) && w.Holds(ch)
  {
    var s, u := DirOn(v, ch), DirOn(w, ch);
    && |u| == |s|
    && forall i :: 0 <= i < |s| && Live(s[i]) ==>
         Live(u[i]) && u[i].start == s[i].start && u[i].IsDir() == s[i].IsDir()
  }

  /** Chain and names of a node are kept. */
  ghost predicate NodeStays(v: Vol, g: Catalog, w: Vol, h: nat)
    requires h in g.nodes && v.Valid() && w.Valid()
  {
    var ch := g.nodes[h].chain;
    && IsChain(w.table, ch) && v.Holds(ch) && w.Holds(ch)
    && (g.nodes[h].isDir ==> Stays(v, w, ch))
  }

  /** All nodes nearer to the root than `depth` are kept. */
  ghost predicate Above(v: Vol, g: Catalog, w: Vol, depth: nat) {
    && v.Valid() && w.Valid() && w.bpc == v.bpc && |w.data| == |v.data|
    && forall h {:trigger NodeStays(v, g, w, h)} :: h in g.nodes && g.nodes[h].depth < depth ==> NodeStays(v, g, w, h)
  }

  lemma {:induction false} ChainSurvives(w: Vol, k: Catalog, h: nat, ch: seq<nat>)
    requires w.Valid() && ChainsOk(w.table, k) && h in k.nodes && IsChain(w.table, ch) && ch[0] == h
    ensures k.nodes[h].chain == ch && w.Holds(ch) && BytesOf(w, k)[h] == Content(w, ch)
  {
    ChainOf(w.table, k, h);
    ChainUnique(w.table, k.nodes[h].chain, ch);
  }

  /** Whatever catalog fits a changed volume, the nodes below kept directories hang where they did. */
  lemma {:induction false} Survives(v: Vol, g: Catalog, w: Vol, k: Catalog, depth: nat, h: nat)
    requires WalkReady(v, g) && WalkReady(w, k) && Above(v, g, w, depth) && h in g.nodes && g.nodes[h].depth <= depth
    ensures h in k.nodes && k.nodes[h] == g.nodes[h].(chain := k.nodes[h].chain)
    decreases g.nodes[h].depth
  {
    hide ChainsOk, Slots, DirsOk, IsChain, Content;
    var ds, es := DirsIn(g.nodes, BytesOf(v, g)), DirsIn(k.nodes, BytesOf(w, k));
    if h != 0 {
      assert Hangs(g.nodes, ds, h);
      var p, slot := g.nodes[h].parent, g.nodes[h].slot;
      Survives(v, g, w, k, depth, p);
      assert NodeStays(v, g, w, p);
      HeadOfChain(v, g, p);
      ChainSurvives(w, k, p, g.nodes[p].chain);
      assert es[p] == DirOn(w, g.nodes[p].chain) && ds[p] == DirOn(v, g.nodes[p].chain);
      assert Names1(k.nodes, es, p, slot);
      assert Hangs(k.nodes, es, h);
    }
  }

  lemma {:induction false} HeadOfChain(v: Vol, g: Catalog, h: nat)
    requires ChainsOk(v.table, g) && h in g.nodes
    ensures g.nodes[h].chain != [] && g.nodes[h].chain[0] == h
  {
    ChainOf(v.table, g, h);
  }

  /** A node whose chain is cut is still named: nothing can put that right. */
  lemma {:induction false} CutIsFatal(v: Vol, g: Catalog, w: Vol, x: nat, c: nat)
    requires WalkReady(v, g) && x in g.nodes && c in g.nodes[x].chain && Above(v, g, w, g.nodes[x].depth)
    requires SomeFreed(v.table, w.table) && c < |w.table| && w.table[c] == FREE
    ensures !InOrder(w)
  {
    hide TreeOk, ImageOk;
    forall k: Catalog
      ensures !Inv(w, k)
    {
      if WalkReady(w, k) {
        Survives(v, g, w, k, g.nodes[x].depth, x);
        ChainOf(v.table, g, x);
        if ChainsOk(w.table, k) {
          ChainOf(w.table, k, x);
          CutChain(v.table, w.table, g.nodes[x].chain, c, k.nodes[x].chain);
        }
      } else if Inv(w, k) {
        InvWalks(w, k);
      }
    }
  }

  /** The directory on a kept chain is what any catalog has to make sense of. */
  lemma {:induction false} DirSurvives(v: Vol, g: Catalog, w: Vol, k: Catalog, d: nat)
    requires WalkReady(v, g) && WalkReady(w, k) && d in g.nodes && g.nodes[d].isDir && Above(v, g, w, g.nodes[d].depth)
    requires IsChain(w.table, g.nodes[d].chain)
    ensures d in k.nodes && k.nodes[d] == g.nodes[d] && w.Holds(g.nodes[d].chain)
    ensures d in DirsIn(k.nodes, BytesOf(w, k)) && DirsIn(k.nodes, BytesOf(w, k))[d] == DirOn(w, g.nodes[d].chain)
  {
    hide TreeOk, Slots;
    Survives(v, g, w, k, g.nodes[d].depth, d);
    HeadOfChain(v, g, d);
    ChainSurvives(w, k, d, g.nodes[d].chain);
  }

  /** A directory that is none, where it still hangs. */
  lemma {:induction false} BadDirIsFatal(v: Vol, g: Catalog, w: Vol, d: nat)
    requires WalkReady(v, g) && d in g.nodes && g.nodes[d].isDir && Above(v, g, w, g.nodes[d].depth)
    requires IsChain(w.table, g.nodes[d].chain) && w.Valid() && w.Holds(g.nodes[d].chain)
    requires !DirOk(DirOn(w, g.nodes[d].chain), d, g.nodes[d].parent)
    ensures !InOrder(w)
  {
    hide LinkedUp, DirOk, Slots, ChainsOk;
    forall k: Catalog
      ensures !Inv(w, k)
    {
      if WalkReady(w, k) {
        DirSurvives(v, g, w, k, d);
      } else if Inv(w, k) {
        InvWalks(w, k);
      }
    }
  }

  lemma {:induction false} NotItself(nodes: Nodes, ds: Dirs, d: nat, j: nat)
    requires d in nodes && d in ds && j < |ds[d]| && Live(ds[d][j]) && ds[d][j].start == d
    ensures !LinkedUp(nodes, ds)
  {
    assert LinkedUp(nodes, ds) ==> Names1(nodes, ds, d, j) && Hangs(nodes, ds, d);
  }

  /** A directory that names itself. */
  lemma {:induction false} SelfNamingIsFatal(v: Vol, g: Catalog, w: Vol, d: nat, j: nat)
    requires WalkReady(v, g) && d in g.nodes && g.nodes[d].isDir && Above(v, g, w, g.nodes[d].depth)
    requires IsChain(w.table, g.nodes[d].chain) && w.Valid() && w.Holds(g.nodes[d].chain)
    requires j < |DirOn(w, g.nodes[d].chain)|
    requires Live(DirOn(w, g.nodes[d].chain)[j]) && DirOn(w, g.nodes[d].chain)[j].start == d
    ensures !InOrder(w)
  {
    hide LinkedUp, DirsOk, Slots, ChainsOk;
    forall k: Catalog
      ensures !Inv(w, k)
    {
      if WalkReady(w, k) {
        DirSurvives(v, g, w, k, d);
        NotItself(k.nodes, DirsIn(k.nodes, BytesOf(w, k)), d, j);
      } else if Inv(w, k) {
        InvWalks(w, k);
      }
    }
  }

  // --- changes that keep names -------------------------------------------------------------

  lemma {:induction false} UptoOfPrefix(v: Vol, ch: seq<nat>, n: nat, i: nat)
    requires v.Valid() && v.Holds(ch) && i <= n <= |ch|
    ensures v.Holds(ch[..n]) && Upto(v, ch[..n], i) == Upto(v, ch, i)
  {
    UptoFrame(v, v, ch, ch[..n], i);
  }

  /** Bytes copied into the first `n` clusters of a chain are copied into the chain. */
  lemma {:induction false} PatchedPrefix(v: Vol, w: Vol, ch: seq<nat>, n: nat, m: nat, at: nat, b: seq<Byte>)
    requires v.Valid() && v.Holds(ch) && Distinct(ch) && n <= m <= |ch| && v.Holds(ch[..n])
    requires Patched(v, w, ch[..n], at, b)
    ensures w.Holds(ch) && at + |b| <= |Upto(v, ch, m)|
    ensures Upto(w, ch, m) == Splice(Upto(v, ch, m), at, b)
  {
    if m == n {
      UptoOfPrefix(v, ch, n, n);
      UptoOfPrefix(w, ch, n, n);
    } else {
      PatchedPrefix(v, w, ch, n, m - 1, at, b);
      assert ch[m - 1] !in ch[..n];
      assert w.data[ch[m - 1]] == v.data[ch[m - 1]];
      SpliceLeft(Upto(v, ch, m - 1), v.data[ch[m - 1]], at, b);
    }
  }

  lemma {:induction false} PatchedWhole(v: Vol, w: Vol, ch: seq<nat>, n: nat, at: nat, b: seq<Byte>)
    requires v.Valid() && v.Holds(ch) && Distinct(ch) && n <= |ch| && v.Holds(ch[..n])
    requires Patched(v, w, ch[..n], at, b)
    ensures Patched(v, w, ch, at, b)
  {
    PatchedPrefix(v, w, ch, n, |ch|, at, b);
    assert forall c :: c in ch[..n] ==> c in ch;
  }

  /** One slot of a directory overwritten. */
  lemma {:induction false} SlotPatched(v: Vol, w: Vol, ch: seq<nat>, i: nat, e: DirEntry)
    requires v.Valid() && v.Holds(ch) && e.Valid() && Patched(v, w, ch, ENTRY_SIZE * i, Encode(e))
    ensures w.Valid() && w.Holds(ch) && i < |DirOn(v, ch)| && DirOn(w, ch) == DirOn(v, ch)[i := e]
  {
    hide Encode, Slots, Splice, Content;
    SlotsSplice(Content(v, ch), i, e);
  }

  /** What a patched chain has in common with a chain apart from it. */
  lemma {:induction false} PatchedApart(v: Vol, w: Vol, ch: seq<nat>, at: nat, b: seq<Byte>, other: seq<nat>)
    requires v.Valid() && v.Holds(ch) && Patched(v, w, ch, at, b) && v.Holds(other) && forall c :: c in other ==> c !in ch
    ensures w.Valid() && w.Holds(other) && Content(w, other) == Content(v, other)
  {
    forall c | c in other
      ensures w.data[c] == v.data[c]
    {
      var i :| 0 <= i < |other| && other[i] == c;
    }
    ContentFrame(v, w, other);
  }

  /** Patching slot `i` of node `h` of a volume whose chains are those of `g`, whatever the table says now. */
  lemma {:induction false} SlotPatchStays(t: Table, g: Catalog, v: Vol, w: Vol, h: nat, i: nat, e: DirEntry, d: nat)
    requires ChainsOk(t, g) && h in g.nodes && d in g.nodes && v.Valid() && |v.data| == |t| && e.Valid()
    requires v.Holds(g.nodes[h].chain) && Patched(v, w, g.nodes[h].chain, ENTRY_SIZE * i, Encode(e))
    ensures w.Valid() && v.Holds(g.nodes[d].chain) && w.Holds(g.nodes[d].chain) && i < |DirOn(v, g.nodes[h].chain)|
    ensures d != h ==> Content(w, g.nodes[d].chain) == Content(v, g.nodes[d].chain)
    ensures DirOn(w, g.nodes[h].chain) == DirOn(v, g.nodes[h].chain)[i := e]
    ensures d != h || KeepsName(DirOn(v, g.nodes[h].chain)[i], e) ==> Stays(v, w, g.nodes[d].chain)
  {
    hide Encode, Slots, Splice, Content, ChainsOk;
    ChainOf(t, g, h);
    ChainOf(t, g, d);
    SlotPatched(v, w, g.nodes[h].chain, i, e);
    if d != h {
      ChainsApart(t, g, d, h);
      PatchedApart(v, w, g.nodes[h].chain, ENTRY_SIZE * i, Encode(e), g.nodes[d].chain);
    }
  }

  /** A slot that names a node goes on naming it. */
  ghost predicate KeepsName(e: DirEntry, x: DirEntry) {
    Live(e) ==> Live(x) && x.start == e.start && x.IsDir() == e.IsDir()
  }

  lemma {:induction false} StaysBoth(v: Vol, u: Vol, w: Vol, ch: seq<nat>)
    requires v.Valid() && u.Valid() && w.Valid() && v.Holds(ch) && u.Holds(ch) && w.Holds(ch)
    requires Stays(v, u, ch) && Stays(u, w, ch)
    ensures Stays(v, w, ch)
  {
  }

  lemma {:induction false} StaysSame(v: Vol, w: Vol, ch: seq<nat>)
    requires v.Valid() && w.Valid() && v.Holds(ch) && w.Holds(ch) && Content(v, ch) == Content(w, ch)
    ensures Stays(v, w, ch)
  {
  }
}
