/** Which chain belongs to which node: the accounting of the FAT. */
module Catalogs {
  import opened CText
  import opened DirEntries
  import opened FatTable
  import opened Volumes
  import opened FileTree

  /** The nodes of the volume by their first cluster, and for every cluster in a chain the node it belongs to. */
  datatype Catalog = Catalog(nodes: Nodes, own: map<nat, nat>)

  ghost predicate ChainOk(t: Table, g: Catalog, h: nat)
    requires h in g.nodes
  {
    var ch := g.nodes[h].chain;
    && IsChain(t, ch) && ch[0] == h
    && forall c :: c in ch ==> c in g.own && g.own[c] == h
  }

  ghost predicate OwnOk(g: Catalog, c: nat)
    requires c in g.own
  {
    g.own[c] in g.nodes && c in g.nodes[g.own[c]].chain
  }

  /** The entries in use, apart from the reserved entry 1, are exactly the clusters of the chains of
      the nodes, and no cluster is in two chains: nothing is leaked and nothing is cross-linked. */
  ghost predicate ChainsOk(t: Table, g: Catalog) {
    && LinksInRange(t) && |t| >= 2 && t[1] != FREE && 1 !in g.own && 0 in g.nodes
    && (forall h {:trigger ChainOk(t, g, h)} :: h in g.nodes ==> ChainOk(t, g, h))
    && (forall c {:trigger OwnOk(g, c)} :: c in g.own ==> OwnOk(g, c))
    && (forall c :: 0 <= c < |t| ==> (t[c] != FREE <==> c == 1 || c in g.own))
  }

  lemma {:induction false} RootInUse(t: Table, g: Catalog)
    requires ChainsOk(t, g)
    ensures t[0] != FREE
  {
    assert ChainOk(t, g, 0);
  }

  lemma {:induction false} ChainOf(t: Table, g: Catalog, h: nat)
    requires ChainsOk(t, g) && h in g.nodes
    ensures IsChain(t, g.nodes[h].chain) && g.nodes[h].chain[0] == h && h < |t|
  {
    assert ChainOk(t, g, h);
  }

  /** Chains of different nodes share no cluster. */
  lemma {:induction false} ChainsApart(t: Table, g: Catalog, h: nat, x: nat)
    requires ChainsOk(t, g) && h in g.nodes && x in g.nodes && h != x
    ensures forall c :: c in g.nodes[h].chain ==> c !in g.nodes[x].chain
  {
    assert ChainOk(t, g, h) && ChainOk(t, g, x);
  }

  lemma {:induction false} FreeIsUnowned(t: Table, g: Catalog, n: nat)
    requires ChainsOk(t, g) && n < |t| && t[n] == FREE
    ensures n !in g.own && n !in g.nodes && n != 0 && n != 1
    ensures forall h :: h in g.nodes ==> n !in g.nodes[h].chain
  {
    RootInUse(t, g);
    forall h | h in g.nodes
      ensures n !in g.nodes[h].chain && h != n
    {
      assert ChainOk(t, g, h);
      assert h in g.nodes[h].chain;
    }
  }

  // --- steps on the table ------------------------------------------------------------------

  /** The chain of `h` one cluster longer. */
  ghost function CatalogGrown(g: Catalog, h: nat, n: nat): Catalog
    requires h in g.nodes
  {
    Catalog(g.nodes[h := g.nodes[h].(chain := g.nodes[h].chain + [n])], g.own[n := h])
  }

  lemma {:induction false} GrownChains(t: Table, g: Catalog, h: nat, n: nat)
    requires ChainsOk(t, g) && h in g.nodes && n < |t| && t[n] == FREE
    ensures g.nodes[h].chain != [] && Last(g.nodes[h].chain) < |t|
    ensures ChainsOk(Linked(t, Last(g.nodes[h].chain), n), CatalogGrown(g, h, n))
  {
    ChainOf(t, g, h);
    FreeIsUnowned(t, g, n);
    var ch := g.nodes[h].chain;
    var u, k := Linked(t, Last(ch), n), CatalogGrown(g, h, n);
    ChainExtend(t, ch, n);
    assert Last(ch) in ch;
    assert ChainOk(t, g, h);
    forall x | x in k.nodes
      ensures ChainOk(u, k, x)
    {
      assert ChainOk(t, g, x);
      if x != h {
        ChainsApart(t, g, x, h);
        ChainFrame(t, u, g.nodes[x].chain);
      }
    }
    forall c | c in k.own
      ensures OwnOk(k, c)
    {
      assert c != n ==> OwnOk(g, c);
    }
  }

  /** A new node with a chain of one cluster. */
  ghost function CatalogStarted(g: Catalog, n: nat, node: Node): Catalog {
    Catalog(g.nodes[n := node], g.own[n := n])
  }

  lemma {:induction false} StartedChains(t: Table, g: Catalog, n: nat, node: Node)
    requires ChainsOk(t, g) && n < |t| && t[n] == FREE && node.chain == [n]
    ensures ChainsOk(t[n := CHAIN_END], CatalogStarted(g, n, node))
  {
    FreeIsUnowned(t, g, n);
    ChainStart(t, n);
    var u, k := t[n := CHAIN_END], CatalogStarted(g, n, node);
    forall x | x in k.nodes
      ensures ChainOk(u, k, x)
    {
      if x != n {
        assert ChainOk(t, g, x);
        ChainFrame(t, u, g.nodes[x].chain);
      }
    }
    forall c | c in k.own
      ensures OwnOk(k, c)
    {
      assert c != n ==> OwnOk(g, c);
    }
  }

  /** Node `h` gone, with all its clusters. */
  ghost function CatalogFreed(g: Catalog, h: nat): Catalog
    requires h in g.nodes
  {
    Catalog(g.nodes - {h}, g.own - (set c | c in g.nodes[h].chain))
  }

  lemma {:induction false} FreedChains(t: Table, g: Catalog, h: nat)
    requires ChainsOk(t, g) && h in g.nodes && h != 0
    ensures h < |t| && ChainsOk(FreeFrom(t, h), CatalogFreed(g, h))
  {
    ChainOf(t, g, h);
    var ch := g.nodes[h].chain;
    FreeFromChain(t, ch);
    var u, k := Cleared(t, ch), CatalogFreed(g, h);
    assert ChainOk(t, g, h);
    assert 1 !in ch;
    forall x | x in k.nodes
      ensures ChainOk(u, k, x)
    {
      assert ChainOk(t, g, x);
      ChainsApart(t, g, x, h);
      ChainInUse(t, g.nodes[x].chain);
      ChainFrame(t, u, g.nodes[x].chain);
    }
    forall c | c in k.own
      ensures OwnOk(k, c)
    {
      assert OwnOk(g, c);
    }
    forall c | 0 <= c < |u|
      ensures u[c] != FREE <==> c == 1 || c in k.own
    {
    }
  }

  // --- the bytes of the nodes --------------------------------------------------------------

  type Bytes = map<nat, seq<Byte>>

  ghost function BytesOf(v: Vol, g: Catalog): (b: Bytes)
    requires v.Valid() && ChainsOk(v.table, g)
    ensures b.Keys == g.nodes.Keys
    ensures forall h :: h in g.nodes ==>
      v.Holds(g.nodes[h].chain) && b[h] == Content(v, g.nodes[h].chain)
  {
    assert forall h :: h in g.nodes ==> v.Holds(g.nodes[h].chain) by {
      forall h | h in g.nodes
        ensures v.Holds(g.nodes[h].chain)
      {
        ChainOf(v.table, g, h);
      }
    }
    map h | h in g.nodes :: Content(v, g.nodes[h].chain)
  }

  /** The directories among the nodes. */
  ghost function DirsIn(nodes: Nodes, b: Bytes): (ds: Dirs)
    requires b.Keys == nodes.Keys
  {
    map h | h in nodes && nodes[h].isDir :: Slots(b[h])
  }

  lemma {:induction false} SameContent(v: Vol, w: Vol, g: Catalog, x: nat)
    requires v.Valid() && w.Valid() && w.bpc == v.bpc && |w.data| == |v.data|
    requires ChainsOk(v.table, g) && x in g.nodes
    requires forall c :: c in g.nodes[x].chain && c < |v.data| ==> w.data[c] == v.data[c]
    ensures v.Holds(g.nodes[x].chain) && w.Holds(g.nodes[x].chain)
    ensures Content(w, g.nodes[x].chain) == Content(v, g.nodes[x].chain)
  {
    ChainOf(v.table, g, x);
    ContentFrame(v, w, g.nodes[x].chain);
  }

  /** Patching one chain changes the bytes of one node. */
  lemma {:induction false} PatchedBytes(v: Vol, w: Vol, g: Catalog, h: nat, at: nat, b: seq<Byte>)
    requires v.Valid() && ChainsOk(v.table, g) && h in g.nodes && v.Holds(g.nodes[h].chain)
    requires Patched(v, w, g.nodes[h].chain, at, b)
    ensures at + |b| <= |BytesOf(v, g)[h]|
    ensures BytesOf(w, g) == BytesOf(v, g)[h := Splice(BytesOf(v, g)[h], at, b)]
  {
    forall x | x in g.nodes && x != h
      ensures BytesOf(w, g)[x] == BytesOf(v, g)[x]
    {
      ChainsApart(v.table, g, x, h);
      SameContent(v, w, g, x);
    }
  }

  lemma {:induction false} GrownOther(v: Vol, g: Catalog, h: nat, n: nat, x: nat)
    requires v.Valid() && ChainsOk(v.table, g) && h in g.nodes && n < |v.table| && v.table[n] == FREE && n != 0
    requires IsChain(v.table, g.nodes[h].chain) && x in g.nodes && x != h
    requires ChainsOk(Grown(v, g.nodes[h].chain, n).table, CatalogGrown(g, h, n))
    ensures BytesOf(Grown(v, g.nodes[h].chain, n), CatalogGrown(g, h, n))[x] == BytesOf(v, g)[x]
  {
    hide IsChain, ChainsOk, LinksInRange, Linked, Content;
    FreeIsUnowned(v.table, g, n);
    SameContent(v, Grown(v, g.nodes[h].chain, n), g, x);
  }

  lemma {:induction false} GrownBytes(v: Vol, g: Catalog, h: nat, n: nat)
    requires v.Valid() && ChainsOk(v.table, g) && h in g.nodes && n < |v.table| && v.table[n] == FREE
    ensures IsChain(v.table, g.nodes[h].chain) && n != 0
    ensures var w := Grown(v, g.nodes[h].chain, n);
            && ChainsOk(w.table, CatalogGrown(g, h, n))
            && BytesOf(w, CatalogGrown(g, h, n)) == BytesOf(v, g)[h := BytesOf(v, g)[h] + Zeros(v.bpc)]
  {
    hide IsChain, ChainsOk, LinksInRange, Content;
    ChainOf(v.table, g, h);
    FreeIsUnowned(v.table, g, n);
    GrownChains(v.table, g, h, n);
    GrownContent(v, g.nodes[h].chain, n);
    forall x | x in g.nodes && x != h
      ensures BytesOf(Grown(v, g.nodes[h].chain, n), CatalogGrown(g, h, n))[x] == BytesOf(v, g)[x]
    {
      GrownOther(v, g, h, n, x);
    }
  }

  lemma {:induction false} StartedOther(v: Vol, g: Catalog, n: nat, node: Node, x: nat)
    requires v.Valid() && ChainsOk(v.table, g) && n < |v.table| && v.table[n] == FREE && node.chain == [n]
    requires ChainsOk(Started(v, n).table, CatalogStarted(g, n, node)) && x in g.nodes
    ensures n != x && BytesOf(Started(v, n), CatalogStarted(g, n, node))[x] == BytesOf(v, g)[x]
  {
    hide IsChain, ChainsOk, LinksInRange, Content;
    FreeIsUnowned(v.table, g, n);
    SameContent(v, Started(v, n), g, x);
  }

  lemma {:induction false} StartedBytes(v: Vol, g: Catalog, n: nat, node: Node)
    requires v.Valid() && ChainsOk(v.table, g) && n < |v.table| && v.table[n] == FREE && node.chain == [n]
    ensures ChainsOk(Started(v, n).table, CatalogStarted(g, n, node))
    ensures BytesOf(Started(v, n), CatalogStarted(g, n, node)) == BytesOf(v, g)[n := Zeros(v.bpc)]
  {
    hide IsChain, ChainsOk, LinksInRange, Content;
    FreeIsUnowned(v.table, g, n);
    StartedChains(v.table, g, n, node);
    StartedContent(v, n);
    forall x | x in g.nodes
      ensures n != x && BytesOf(Started(v, n), CatalogStarted(g, n, node))[x] == BytesOf(v, g)[x]
    {
      StartedOther(v, g, n, node, x);
    }
  }

  lemma {:induction false} FreedBytes(v: Vol, g: Catalog, h: nat)
    requires v.Valid() && ChainsOk(v.table, g) && h in g.nodes && h != 0
    ensures h < |v.table| && ChainsOk(Freed(v, h).table, CatalogFreed(g, h))
    ensures BytesOf(Freed(v, h), CatalogFreed(g, h)) == BytesOf(v, g) - {h}
  {
    FreedChains(v.table, g, h);
    var w, k := Freed(v, h), CatalogFreed(g, h);
    forall x | x in k.nodes
      ensures BytesOf(w, k)[x] == BytesOf(v, g)[x]
    {
      SameContent(v, w, g, x);
    }
  }

  /** A cluster nobody owns may hold anything. */
  lemma {:induction false} UnownedBytes(v: Vol, w: Vol, g: Catalog, n: nat)
    requires v.Valid() && ChainsOk(v.table, g) && n < |v.table| && v.table[n] == FREE
    requires w.Valid() && w.bpc == v.bpc && w.table == v.table
    requires forall c :: 0 <= c < |v.data| && c != n ==> w.data[c] == v.data[c]
    ensures BytesOf(w, g) == BytesOf(v, g)
  {
    FreeIsUnowned(v.table, g, n);
    forall x | x in g.nodes
      ensures BytesOf(w, g)[x] == BytesOf(v, g)[x]
    {
      SameContent(v, w, g, x);
    }
  }
}
