/** fat.c: what is left of a volume after a node is created and deleted again. */
module RoundTrips {
  import opened CText
  import opened DirEntries
  import opened Directory
  import opened FatTable
  import opened Volumes
  import opened DiskLayout
  import opened ChainGrowth
  import opened FatVolume
  import opened FileTree
  import opened Catalogs
  import opened Images
  import opened PathNames
  import opened TreeWalk
  import opened FileEffects
  import opened VolumeOrder
  import opened FileOps
  import opened FileRemoval

  // --- the two outcomes --------------------------------------------------------------------

  ghost function Clusters(ch: seq<nat>): set<nat> {
    set c | c in ch
  }

  /** Which entries are free depends on the chains of the nodes alone: where one chain is longer, that many fewer. */
  lemma {:induction false} FreeByChains(t: Table, g: Catalog, u: Table, k: Catalog, p: nat)
    requires ChainsOk(t, g) && ChainsOk(u, k) && |t| == |u| && p in g.nodes && p in k.nodes
    requires k.nodes == Rechained(g.nodes, p, k.nodes[p].chain) && g.nodes[p].chain <= k.nodes[p].chain
    ensures FreeSet(u) == FreeSet(t) - Clusters(k.nodes[p].chain)
  {
    forall c | 0 <= c < |t|
      ensures u[c] == FREE <==> t[c] == FREE && c !in k.nodes[p].chain
    {
      assert c in g.own ==> OwnOk(g, c) && ChainOk(u, k, g.own[c]);
      assert c in k.own ==> OwnOk(k, c) && ChainOk(t, g, k.own[c]);
      assert ChainOk(u, k, p) && ChainOk(t, g, p);
      assert c in g.nodes[p].chain ==> c in k.nodes[p].chain;
    }
  }

  /** Overwritten and put back. */
  lemma {:induction false} SpliceBack(x: seq<Byte>, at: nat, a: seq<Byte>, c: seq<Byte>)
    requires at + |a| <= |x| && |c| == |a| && x[at..at + |a|] == c
    ensures Splice(Splice(x, at, a), at, c) == x && Splice(x, at, a)[at..at + |a|] == a
  {
    assert x == x[..at] + c + x[at + |a|..];
  }

  lemma {:induction false} CountBack(x: seq<Byte>, k: nat)
    requires ENTRY_SIZE * (k + 1) <= |x|
    ensures var y := Splice(x, ENTRY_SIZE * k, Encode(Tallied(Slot(x, k), 1)));
            Splice(y, ENTRY_SIZE * k, Encode(Tallied(Slot(y, k), -1))) == x
  {
    hide Splice, Encode, Decode;
    var e := Slot(x, k);
    EncodeDecode(x[ENTRY_SIZE * k..ENTRY_SIZE * (k + 1)]);
    SpliceBack(x, ENTRY_SIZE * k, Encode(Tallied(e, 1)), Encode(e));
    DecodeEncode(Tallied(e, 1));
    assert Tallied(Tallied(e, 1), -1) == e;
  }

  /** Counting up and down again gives back the bytes. */
  lemma {:induction false} NotedTwice(b: Bytes, s: Spot)
    requires SpotIn(b, s)
    ensures SpotIn(Noted(b, s, 1), s) && Noted(Noted(b, s, 1), s, -1) == b
  {
    hide Splice, Encode, Slot, Tallied;
    if s.Spot? {
      CountBack(b[s.dir], s.slot);
    }
  }

  /** `ls` and `cs` are what is left of `nodes` and `b` after node `n` was made in directory `p` and deleted again, both
      times counted at `s`, which is not in `p` itself. */
  ghost predicate MadeAndDeleted(nodes: Nodes, b: Bytes, s: Spot, p: nat, name: Text, isDirectory: bool, n: nat,
                                 ms: Nodes, bs: Bytes, ls: Nodes, cs: Bytes) {
    && ImageOk(nodes, b) && ImageOk(ms, bs) && p in nodes && nodes[p].isDir
    && name !in Names(Slots(b[p])) && LegalName(name) && (s.Spot? ==> s.dir in nodes && s.dir != p)
    && Created(nodes, b, s, p, name, isDirectory, n, ms, bs)
    && Deleted(ms, bs, s, n, ls, cs)
  }

  lemma {:induction false} SameNodes(nodes: Nodes, b: Bytes, s: Spot, p: nat, name: Text, isDirectory: bool, n: nat,
                                     ms: Nodes, bs: Bytes, ls: Nodes, cs: Bytes)
    requires MadeAndDeleted(nodes, b, s, p, name, isDirectory, n, ms, bs, ls, cs)
    ensures p in ls && ls == Rechained(nodes, p, ls[p].chain) && ChainKept(nodes, b, ls, p)
  {
    hide Slots, Splice, Encode, TreeOk, CountsOk, FilesOk, Noted, FreshDir, AsMap, Names, LegalName, Find;
  }

  /** The free clusters are again those there were before, but for what the parent's chain has got. */
  lemma {:induction false} DeleteRestoresFree(v: Vol, g: Catalog, w: Vol, k: Catalog, x: Vol, l: Catalog, s: Spot, p: nat,
                                              name: Text, isDirectory: bool, n: nat)
    requires Inv(v, g) && Inv(w, k) && Inv(x, l) && |x.table| == |v.table|
    requires MadeAndDeleted(g.nodes, BytesOf(v, g), s, p, name, isDirectory, n, k.nodes, BytesOf(w, k), l.nodes,
                            BytesOf(x, l))
    ensures p in l.nodes && ChainKept(g.nodes, BytesOf(v, g), l.nodes, p)
    ensures FreeSet(x.table) == FreeSet(v.table) - Clusters(l.nodes[p].chain)
  {
    hide MadeAndDeleted, ImageOk, Find, Slots;
    SameNodes(g.nodes, BytesOf(v, g), s, p, name, isDirectory, n, k.nodes, BytesOf(w, k), l.nodes, BytesOf(x, l));
    FreeByChains(v.table, g, x.table, l, p);
  }

  /** Where nothing but the count is noted, counting off gives the bytes back. */
  lemma {:induction false} CountRestored(b: Bytes, bs: Bytes, s: Spot, d: nat)
    requires SpotIn(b, s) && SpotIn(bs, s) && d in b && d in bs && bs[d] == Noted(b, s, 1)[d]
    ensures Noted(bs, s, -1)[d] == b[d]
  {
    NotedTwice(b, s);
  }

  lemma {:induction false} NotedElsewhere(b: Bytes, s: Spot, delta: int, p: nat)
    requires SpotIn(b, s) && p in b && (s.Spot? ==> s.dir != p)
    ensures Noted(b, s, delta)[p] == b[p] && Noted(b, s, delta).Keys == b.Keys
  {
  }

  /** The slot of the node is the one its name is found in. */
  lemma {:induction false} SlotOfName(ms: Nodes, ds: Dirs, n: nat, name: Text)
    requires TreeOk(ms, ds) && n in ms && n != 0 && Hangs(ms, ds, n) && LegalName(name)
    requires name in AsMap(ds[ms[n].parent]) && AsMap(ds[ms[n].parent])[name].start == n
    ensures ds[ms[n].parent][ms[n].slot].Name() == name
  {
    var s := ds[ms[n].parent];
    FindIsLookup(s, name);
    assert Names1(ms, ds, ms[n].parent, Find(s, name, false, 0));
  }

  /** Taking the name out of `p` again leaves the names it had. */
  lemma {:induction false} NamesRestored(nodes: Nodes, b: Bytes, ms: Nodes, bs: Bytes, p: nat, name: Text, n: nat)
    requires bs.Keys == ms.Keys && TreeOk(ms, DirsIn(ms, bs)) && n in ms && n != 0 && Hangs(ms, DirsIn(ms, bs), n)
    requires ms[n].parent == p && LegalName(name) && p in b
    requires name in AsMap(Slots(bs[p])) && AsMap(Slots(bs[p]))[name].start == n
    requires AsMap(Slots(bs[p])) - {name} == AsMap(Slots(b[p]))
    ensures NO_ENTRY.Valid() && ENTRY_SIZE * (ms[n].slot + 1) <= |bs[p]|
    ensures AsMap(Slots(Splice(bs[p], ENTRY_SIZE * ms[n].slot, Encode(NO_ENTRY)))) == AsMap(Slots(b[p]))
  {
    hide Splice, Encode, AsMap, Find, LinkedUp;
    var ds, k := DirsIn(ms, bs), ms[n].slot;
    SlotOfName(ms, ds, n, name);
    EmptyEntry();
    SlotsSplice(bs[p], k, NO_ENTRY);
    assert DirOk(ds[p], p, ms[p].parent);
    PutSlot(ds[p], k, NO_ENTRY);
  }

  /** Every directory maps the names it did to the entries it did, and every other node has its bytes. */
  lemma {:induction false} DeleteRestoresContent(nodes: Nodes, b: Bytes, s: Spot, p: nat, name: Text, isDirectory: bool,
                                                 n: nat, ms: Nodes, bs: Bytes, ls: Nodes, cs: Bytes)
    requires MadeAndDeleted(nodes, b, s, p, name, isDirectory, n, ms, bs, ls, cs)
    ensures cs.Keys == b.Keys && forall d :: d in nodes && d != p ==> cs[d] == b[d]
    ensures AsMap(Slots(cs[p])) == AsMap(Slots(b[p]))
  {
    hide *;
    MadeFacts(nodes, b, s, p, name, isDirectory, n, ms, bs, ls, cs);
    NotedElsewhere(bs, s, -1, p);
    forall d | d in nodes && d != p
      ensures cs[d] == b[d]
    {
      CountRestored(b, bs, s, d);
    }
    NamesRestored(nodes, b, ms, bs, p, name, n);
  }

  lemma {:induction false} MadeFacts(nodes: Nodes, b: Bytes, s: Spot, p: nat, name: Text, isDirectory: bool, n: nat,
                                     ms: Nodes, bs: Bytes, ls: Nodes, cs: Bytes)
    requires MadeAndDeleted(nodes, b, s, p, name, isDirectory, n, ms, bs, ls, cs)
    ensures n !in nodes && n in ms && n != 0 && ms.Keys == nodes.Keys + {n} && p in ms && ms[n].parent == p
    ensures b.Keys == nodes.Keys && bs.Keys == ms.Keys && p in nodes && LegalName(name) && (s.Spot? ==> s.dir != p)
    ensures TreeOk(ms, DirsIn(ms, bs)) && Hangs(ms, DirsIn(ms, bs), n)
    ensures SpotIn(b, s) && SpotIn(bs, s)
    ensures forall d :: d in nodes && d != p ==> bs[d] == Noted(b, s, 1)[d]
    ensures name in AsMap(Slots(bs[p])) && AsMap(Slots(bs[p]))[name].start == n
    ensures AsMap(Slots(bs[p])) - {name} == AsMap(Slots(b[p]))
    ensures NO_ENTRY.Valid() && ENTRY_SIZE * (ms[n].slot + 1) <= |bs[p]|
    ensures cs == Noted(bs, s, -1)[p := Splice(bs[p], ENTRY_SIZE * ms[n].slot, Encode(NO_ENTRY))] - {n}
  {
    hide *;
    MadeTree(nodes, b, s, p, name, isDirectory, n, ms, bs, ls, cs);
    NewEntryName(name, isDirectory, n);
    MadeNames(nodes, b, s, p, name, isDirectory, n, ms, bs);
    NotedElsewhere(bs, s, -1, p);
    MadeGone(bs, s, p, n, ms, ls, cs);
  }

  lemma {:induction false} MadeTree(nodes: Nodes, b: Bytes, s: Spot, p: nat, name: Text, isDirectory: bool, n: nat,
                                    ms: Nodes, bs: Bytes, ls: Nodes, cs: Bytes)
    requires MadeAndDeleted(nodes, b, s, p, name, isDirectory, n, ms, bs, ls, cs)
    ensures n !in nodes && n in ms && n != 0 && ms.Keys == nodes.Keys + {n} && p in ms && ms[n].parent == p
    ensures b.Keys == nodes.Keys && bs.Keys == ms.Keys && p in nodes && LegalName(name) && (s.Spot? ==> s.dir != p)
    ensures TreeOk(ms, DirsIn(ms, bs)) && Hangs(ms, DirsIn(ms, bs), n) && name !in Names(Slots(b[p]))
    ensures |name| < NAME_SIZE && n < 0x10000 && SpotIn(b, s) && SpotIn(bs, s)
    ensures bs.Keys == ms.Keys && Deleted(ms, bs, s, n, ls, cs)
    ensures Gained(nodes, Noted(b, s, 1), ms, bs, p, NewEntry(name, isDirectory, n))
  {
    hide Slots, Noted, Names, LegalName, DirsOk, FreshDir, CountsOk, FilesOk, Lost, AsMap;
  }

  lemma {:induction false} MadeNames(nodes: Nodes, b: Bytes, s: Spot, p: nat, name: Text, isDirectory: bool, n: nat,
                                     ms: Nodes, bs: Bytes)
    requires b.Keys == nodes.Keys && p in b && n < 0x10000 && |name| < NAME_SIZE
    requires SpotIn(b, s) && (s.Spot? ==> s.dir != p)
    requires Gained(nodes, Noted(b, s, 1), ms, bs, p, NewEntry(name, isDirectory, n))
    requires NewEntry(name, isDirectory, n).Name() == name && name !in Names(Slots(b[p]))
    ensures p in bs && forall d :: d in nodes && d != p ==> d in bs && bs[d] == Noted(b, s, 1)[d]
    ensures name in AsMap(Slots(bs[p])) && AsMap(Slots(bs[p]))[name].start == n
    ensures AsMap(Slots(bs[p])) - {name} == AsMap(Slots(b[p]))
  {
    hide Slots, Noted, LegalName, FreshDir, Names, Find;
    NotedElsewhere(b, s, 1, p);
    assert AsMap(Slots(b[p])).Keys == Names(Slots(b[p]));
  }

  lemma {:induction false} MadeGone(bs: Bytes, s: Spot, p: nat, n: nat, ms: Nodes, ls: Nodes, cs: Bytes)
    requires bs.Keys == ms.Keys && n in ms && ms[n].parent == p && p in bs && SpotIn(bs, s)
    requires Noted(bs, s, -1)[p] == bs[p] && Noted(bs, s, -1).Keys == bs.Keys && Deleted(ms, bs, s, n, ls, cs)
    ensures NO_ENTRY.Valid() && ENTRY_SIZE * (ms[n].slot + 1) <= |bs[p]|
    ensures cs == Noted(bs, s, -1)[p := Splice(bs[p], ENTRY_SIZE * ms[n].slot, Encode(NO_ENTRY))] - {n}
  {
    hide Splice, Encode, Noted, Slots;
  }

  // --- a count noted moves no name ---------------------------------------------------------

  /** The entries differ in their sizes at most. */
  ghost predicate SameButSize(e: DirEntry, x: DirEntry) {
    x == e.(size := x.size)
  }

  lemma {:induction false} FindResized(s: Dir, k: nat, size: nat, name: Text, i: nat)
    requires k < |s| && i <= |s|
    ensures Find(s[k := s[k].(size := size)], name, false, i) == Find(s, name, false, i)
    decreases |s| - i
  {
    hide CStr;
    if i < |s| {
      FindResized(s, k, size, name, i + 1);
    }
  }

  lemma {:induction false} LookupNoted(b: Bytes, s: Spot, delta: int, c: DirEntry, x: DirEntry, name: Text)
    requires SpotIn(b, s) && SameButSize(c, x) && Lookup(b, c, name).Found?
    ensures Lookup(Noted(b, s, delta), x, name).Found?
    ensures SameButSize(Lookup(b, c, name).e, Lookup(Noted(b, s, delta), x, name).e)
  {
    hide Encode, Splice, CStr, Find, Slots;
    if s.Spot? && c.start == s.dir {
      var e := Slot(b[s.dir], s.slot);
      SlotIsIn(b[s.dir], s.slot);
      SlotsSplice(b[s.dir], s.slot, Tallied(e, delta));
      FindResized(Slots(b[s.dir]), s.slot, Tallied(e, delta).size, name, 0);
    }
  }

  lemma {:induction false} SlotIsIn(x: seq<Byte>, k: nat)
    requires ENTRY_SIZE * (k + 1) <= |x|
    ensures k < |Slots(x)| && Slots(x)[k] == Slot(x, k) && Slot(x, k).Valid()
  {
  }

  lemma {:induction false} DescendNoted(b: Bytes, s: Spot, delta: int, root: DirEntry, cs: seq<Text>)
    requires SpotIn(b, s) && Descend(b, root, cs).Found?
    ensures Descend(Noted(b, s, delta), root, cs).Found?
    ensures SameButSize(Descend(b, root, cs).e, Descend(Noted(b, s, delta), root, cs).e)
  {
    hide Lookup, Noted;
    if cs != [] {
      var front, name := cs[..|cs| - 1], cs[|cs| - 1];
      DescendNoted(b, s, delta, root, front);
      LookupNoted(b, s, delta, Descend(b, root, front).e, Descend(Noted(b, s, delta), root, front).e, name);
    }
  }

  lemma {:induction false} NotedTree(nodes: Nodes, b: Bytes, s: Spot, delta: int)
    requires b.Keys == nodes.Keys && TreeOk(nodes, DirsIn(nodes, b)) && SpotIn(b, s)
    requires s.Spot? ==> s.dir in nodes && nodes[s.dir].isDir
    ensures Noted(b, s, delta).Keys == nodes.Keys && TreeOk(nodes, DirsIn(nodes, Noted(b, s, delta)))
  {
    hide TreeOk, Slots, Tallied, Noted;
    if s.Spot? {
      SlotIsIn(b[s.dir], s.slot);
      NotedDirs(nodes, b, s, delta);
      var ds := DirsIn(nodes, b);
      var e := ds[s.dir][s.slot];
      ResizedTree(nodes, ds, s.dir, s.slot, Tallied(e, delta).size);
      assert Tallied(e, delta) == e.(size := Tallied(e, delta).size);
    } else {
      NotedNowhere(b, delta);
    }
  }

  // --- the path once the node is made ------------------------------------------------------

  /** A path that finds a directory before the node is made finds it afterwards. */
  lemma {:induction false} DescendAfter(nodes: Nodes, b: Bytes, s: Spot, root: DirEntry, cs: seq<Text>, p: nat,
                                        e: DirEntry, ms: Nodes, bs: Bytes)
    requires b.Keys == nodes.Keys && TreeOk(nodes, DirsIn(nodes, b)) && SpotIn(b, s)
    requires s.Spot? ==> s.dir in nodes && nodes[s.dir].isDir && s.dir != p
    requires Components(cs) && root.IsDir() && root.start == 0 && Descend(b, root, cs).Found?
    requires Gained(nodes, Noted(b, s, 1), ms, bs, p, e) && e.Name() !in Names(Slots(b[p]))
    ensures Descend(bs, root, cs).Found? && Descend(bs, root, cs).e.start == Descend(b, root, cs).e.start
  {
    hide TreeOk, Gained, Descend, Noted, Keeps, Slots, Names;
    NotedTree(nodes, b, s, 1);
    DescendNoted(b, s, 1, root, cs);
    GainedIn(nodes, Noted(b, s, 1), ms, bs, p, e);
    NotedElsewhere(b, s, 1, p);
    GainedKeeps(nodes, Noted(b, s, 1), ms, bs, p, e);
    DescendKept(nodes, Noted(b, s, 1), bs, root, cs);
  }

  lemma {:induction false} GainedIn(nodes: Nodes, b: Bytes, ms: Nodes, bs: Bytes, p: nat, e: DirEntry)
    requires Gained(nodes, b, ms, bs, p, e)
    ensures p in nodes && p in b
  {
  }

  /** What a made node is like on the path that made it. */
  ghost predicate MadeBy(nodes: Nodes, b: Bytes, root: DirEntry, cs: seq<Text>, isDirectory: bool, n: nat, ms: Nodes,
                         bs: Bytes) {
    && ImageOk(nodes, b) && ImageOk(ms, bs) && Components(cs) && cs != [] && root.IsDir() && root.start == 0
    && Descend(b, root, Upper(cs)).Found? && (Descend(b, root, Upper(cs)).e.start == 0 || Named(Upper(cs)))
    && var p := Descend(b, root, Upper(cs)).e.start;
       && p in b && LastOf(cs) !in Names(Slots(b[p])) && LegalName(LastOf(cs))
       && Created(nodes, b, SpotOf(b, root, Upper(cs)), p, LastOf(cs), isDirectory, n, ms, bs)
  }

  /** The count is kept in another directory than the new node. */
  lemma {:induction false} CountedApart(nodes: Nodes, ds: Dirs, s: Spot, p: DirEntry, name: Text)
    requires TreeOk(nodes, ds) && Placed(nodes, ds, s, p, name) && (p.start == 0 || (name != DOT && name != DOTDOT))
    ensures s.dir != p.start && s.dir in nodes && nodes[s.dir].isDir
  {
    hide DirsOk, CStr, Find;
  }

  /** Two placed entries under the same name in the same directory are in the same slot, if a node named there is. */
  lemma {:induction false} SameSpot(nodes: Nodes, ds: Dirs, ms: Nodes, es: Dirs, s: Spot, u: Spot, p: DirEntry,
                                    q: DirEntry, name: Text)
    requires Placed(nodes, ds, s, p, name) && Placed(ms, es, u, q, name) && p.start == q.start && s.dir == u.dir
    requires p.start in nodes && p.start in ms && ms[p.start].slot == nodes[p.start].slot
    ensures s == u
  {
    hide CStr, Find;
  }

  lemma {:induction false} FrontAfter(nodes: Nodes, b: Bytes, root: DirEntry, cs: seq<Text>, isDirectory: bool, n: nat,
                                      ms: Nodes, bs: Bytes)
    requires MadeBy(nodes, b, root, cs, isDirectory, n, ms, bs)
    ensures var (front, p) := (Upper(cs), Descend(b, root, Upper(cs)).e.start);
            && Descend(bs, root, front).Found? && Descend(bs, root, front).e.start == p && p in nodes && nodes[p].isDir
            && SpotOf(bs, root, front) == SpotOf(b, root, front)
            && (SpotOf(b, root, front).Spot? ==> SpotOf(b, root, front).dir in nodes && SpotOf(b, root, front).dir != p)
  {
    hide TreeOk, CountsOk, FilesOk, Gained, Slots, Names, LegalName, Descend, SpotOf, Placed, Noted, SpotIn;
    var front := Upper(cs);
    var s, p := SpotOf(b, root, front), Descend(b, root, front).e;
    DescendNode(nodes, b, root, front);
    if front != [] {
      CountedApart(nodes, DirsIn(nodes, b), s, p, LastOf(front));
    } else {
      RootSpot(b, root);
      RootSpot(bs, root);
    }
    var e := NewEntry(LastOf(cs), isDirectory, n);
    NewEntryName(LastOf(cs), isDirectory, n);
    DescendAfter(nodes, b, s, root, front, p.start, e, ms, bs);
    if front != [] {
      DescendAfter(nodes, b, s, root, Upper(front), p.start, e, ms, bs);
      DescendNode(ms, bs, root, front);
      GainedNodes(nodes, Noted(b, s, 1), ms, bs, p.start, e);
      SameSpot(nodes, DirsIn(nodes, b), ms, DirsIn(ms, bs), s, SpotOf(bs, root, front), p, Descend(bs, root, front).e,
               LastOf(front));
    }
  }

  lemma {:induction false} RootSpot(b: Bytes, root: DirEntry)
    ensures SpotOf(b, root, []) == NoSpot
  {
  }

  lemma {:induction false} GainedNodes(nodes: Nodes, b: Bytes, ms: Nodes, bs: Bytes, p: nat, e: DirEntry)
    requires Gained(nodes, b, ms, bs, p, e)
    ensures p in nodes && p in ms && ms[p].slot == nodes[p].slot
  {
  }

  /** The path now leads to the new node, and nothing is refused. */
  lemma {:induction false} MadeIsFound(nodes: Nodes, b: Bytes, root: DirEntry, cs: seq<Text>, isDirectory: bool, n: nat,
                                       ms: Nodes, bs: Bytes)
    requires MadeBy(nodes, b, root, cs, isDirectory, n, ms, bs)
    ensures Resolve(bs, root, cs).Found? && Resolve(bs, root, cs).e.start == n && OffFiles(bs, root, cs)
    ensures Resolve(bs, root, cs).e.IsDir() == isDirectory
    ensures DeleteRefusal(bs, root, cs, isDirectory) == 0 && Named(cs) && CountsRight(bs, root, Upper(cs))
  {
    hide TreeOk, CountsOk, FilesOk, Slots, Names, Descend, SpotOf, Placed, Noted, SpotIn, Find, Resolve, FreshDir;
    FrontAfter(nodes, b, root, cs, isDirectory, n, ms, bs);
    NewEntryName(LastOf(cs), isDirectory, n);
    ResolveIsLookup(bs, root, cs);
    DescendIsResolve(bs, root, Upper(cs));
    DescendDir(bs, root, Upper(cs));
    FindIsLookup(Slots(bs[Descend(b, root, Upper(cs)).e.start]), LastOf(cs));
    NoName();
    LegalIsNamed(LastOf(cs));
  }

  lemma {:induction false} LegalIsNamed(name: Text)
    requires LegalName(name)
    ensures name != [] && name != DOT && name != DOTDOT
  {
  }

  // --- the two calls -----------------------------------------------------------------------

  /** `x` is what `v` was, except that directory `p`, if it was full, is one cluster longer. */
  ghost predicate Restored(v: Vol, g: Catalog, x: Vol, l: Catalog, p: nat) {
    && Inv(v, g) && Inv(x, l) && p in g.nodes && p in l.nodes && g.nodes[p].isDir
    && l.nodes == Rechained(g.nodes, p, l.nodes[p].chain) && ChainKept(g.nodes, BytesOf(v, g), l.nodes, p)
    && FreeSet(x.table) == FreeSet(v.table) - Clusters(l.nodes[p].chain)
    && (l.nodes[p].chain == g.nodes[p].chain ==> FreeSet(x.table) == FreeSet(v.table))
    && (forall d :: d in g.nodes && d != p ==> BytesOf(x, l)[d] == BytesOf(v, g)[d])
    && AsMap(Slots(BytesOf(x, l)[p])) == AsMap(Slots(BytesOf(v, g)[p]))
  }

  lemma {:induction false} ChainNotFree(t: Table, g: Catalog, p: nat)
    requires ChainsOk(t, g) && p in g.nodes
    ensures FreeSet(t) - Clusters(g.nodes[p].chain) == FreeSet(t)
  {
    ChainOf(t, g, p);
    ChainInUse(t, g.nodes[p].chain);
  }

  /** The two outcomes, on the same path, restore the volume. */
  lemma {:induction false} OutcomesRestore(v: Vol, g: Catalog, w: Vol, k: Catalog, x: Vol, l: Catalog, root: DirEntry,
                                           cs: seq<Text>, isDirectory: bool, n: nat, code: int)
    requires Inv(v, g) && Inv(w, k) && Inv(x, l) && |x.table| == |v.table|
    requires MadeBy(g.nodes, BytesOf(v, g), root, cs, isDirectory, n, k.nodes, BytesOf(w, k))
    requires DeleteOutcome(w, k, root, cs, false, isDirectory, code, l, x)
    ensures code == 0 && Restored(v, g, x, l, Descend(BytesOf(v, g), root, Upper(cs)).e.start)
  {
    hide TreeOk, CountsOk, FilesOk, ChainsOk, Slots, Names, Descend, SpotOf, Noted, SpotIn, Find, Resolve, Executed, Lost,
         Gained, AsMap, LegalName, ChainKept;
    var b, front := BytesOf(v, g), Upper(cs);
    var s, p := SpotOf(b, root, front), Descend(b, root, front).e.start;
    InvWalks(v, g);
    FrontAfter(g.nodes, b, root, cs, isDirectory, n, k.nodes, BytesOf(w, k));
    MadeIsFound(g.nodes, b, root, cs, isDirectory, n, k.nodes, BytesOf(w, k));
    SameNodes(g.nodes, b, s, p, LastOf(cs), isDirectory, n, k.nodes, BytesOf(w, k), l.nodes, BytesOf(x, l));
    DeleteRestoresFree(v, g, w, k, x, l, s, p, LastOf(cs), isDirectory, n);
    DeleteRestoresContent(g.nodes, b, s, p, LastOf(cs), isDirectory, n, k.nodes, BytesOf(w, k), l.nodes, BytesOf(x, l));
    ChainNotFree(v.table, g, p);
  }

  /** The node made on a path is made there. */
  lemma {:induction false} OutcomeIsMade(v: Vol, g: Catalog, root: DirEntry, cs: seq<Text>, isDirectory: bool, w: Vol,
                                         k: Catalog)
    requires Inv(v, g) && Inv(w, k) && Components(cs) && root.IsDir() && root.start == 0 && v.bpc < 0x20000
    requires Creatable(v, g, root, cs, false) && CreateKeeps(v, g, root, cs, false)
    requires CreateOutcome(v, g, root, cs, false, isDirectory, 0, k, BytesOf(w, k))
    ensures Resolve(BytesOf(v, g), root, Upper(cs)).Found?
    ensures Resolve(BytesOf(v, g), root, Upper(cs)) == Descend(BytesOf(v, g), root, Upper(cs))
    ensures exists n: nat :: MadeBy(g.nodes, BytesOf(v, g), root, cs, isDirectory, n, k.nodes, BytesOf(w, k))
  {
    hide TreeOk, CountsOk, FilesOk, ChainsOk, Slots, Names, Descend, SpotOf, Noted, SpotIn, Find, Resolve, Created, LegalName,
         ChainKept, NoRoom, ParentIs, OffFiles;
    var b, front := BytesOf(v, g), Upper(cs);
    OutcomeHasParent(v, g, root, cs, isDirectory, w, k);
    var p := Resolve(b, root, front).e;
    ParentFacts(v, g, root, front, 1);
    ParentIsNode(g.nodes, b, root, front, p);
    ParentDescends(g.nodes, b, root, front, p);
    NameUnused(b, p, LastOf(cs));
    var n: nat :| Created(g.nodes, b, SpotOf(b, root, front), p.start, LastOf(cs), isDirectory, n, k.nodes, BytesOf(w, k));
    assert MadeBy(g.nodes, b, root, cs, isDirectory, n, k.nodes, BytesOf(w, k));
  }

  lemma {:induction false} OutcomeHasParent(v: Vol, g: Catalog, root: DirEntry, cs: seq<Text>, isDirectory: bool, w: Vol,
                                            k: Catalog)
    requires Inv(v, g) && Inv(w, k) && CreateOutcome(v, g, root, cs, false, isDirectory, 0, k, BytesOf(w, k))
    requires Creatable(v, g, root, cs, false) && CreateKeeps(v, g, root, cs, false)
    ensures CreateRefusal(BytesOf(v, g), root, cs, false) == 0 && cs != [] && LegalName(LastOf(cs))
    ensures var (b, up) := (BytesOf(v, g), Resolve(BytesOf(v, g), root, Upper(cs)));
            && up.Found? && up.e.IsDir() && Lookup(b, up.e, LastOf(cs)).Missing? && OffFiles(b, root, Upper(cs))
            && (up.e.start in b ==> !NoRoom(v, b, up.e.start)) && (up.e.start == 0 || Named(Upper(cs)))
            && exists n: nat ::
                 Created(g.nodes, b, SpotOf(b, root, Upper(cs)), up.e.start, LastOf(cs), isDirectory, n, k.nodes,
                         BytesOf(w, k))
  {
    hide NoRoom, Created, Resolve, Lookup, LegalName, SpotOf, OffFiles, ImageOk, ChainsOk;
  }

  lemma {:induction false} ParentDescends(nodes: Nodes, b: Bytes, root: DirEntry, front: seq<Text>, p: DirEntry)
    requires ParentIs(nodes, b, root, front, p, 1)
    ensures Descend(b, root, front) == Found(p)
  {
  }

  lemma {:induction false} NameUnused(b: Bytes, p: DirEntry, name: Text)
    requires p.start in b && Lookup(b, p, name).Missing? && LegalName(name)
    ensures name !in Names(Slots(b[p.start]))
  {
    NoName();
    NotFoundIsUnused(Slots(b[p.start]), name);
  }

  lemma {:induction false} NothingMade(v: Vol, g: Catalog, root: DirEntry, cs: seq<Text>, isDirectory: bool, code: int,
                                       k: Catalog, bs: Bytes)
    requires Inv(v, g) && CreateOutcome(v, g, root, cs, false, isDirectory, code, k, bs) && code != 0
    ensures k == g && bs == BytesOf(v, g)
  {
  }

  /** The second call: the deletion of what the path has made. */
  method DeleteMade(vol: Volume, path: Text, isDirectory: bool, ghost v: Vol, ghost g: Catalog, ghost w: Vol,
                    ghost k: Catalog, ghost cs: seq<Text>, ghost root: DirEntry, ghost n: nat)
    returns (deleted: int, ghost l: Catalog)
    requires vol.Valid() && vol.V() == w && w.bpc < 0x20000 && vol.g.rootEntries < 0x10000
    requires root == RootEntry(vol.g.rootEntries)
    requires Inv(v, g) && v.Valid() && ChainsOk(v.table, g) && Inv(w, k) && ChainsOk(w.table, k) && |w.table| == |v.table|
    requires path == Spelled(cs, false) && MadeBy(g.nodes, BytesOf(v, g), root, cs, isDirectory, n, k.nodes, BytesOf(w, k))
    requires Components(cs) && |BaseOf(cs, false)| <= NAME_SIZE
    modifies vol`disk, vol.fat
    ensures vol.Valid() && deleted == 0 && Restored(v, g, vol.V(), l, Descend(BytesOf(v, g), root, Upper(cs)).e.start)
  {
    hide *;
    MadeIsFound(g.nodes, BytesOf(v, g), root, cs, isDirectory, n, k.nodes, BytesOf(w, k));
    IsKept(w, k, root, cs, isDirectory);
    deleted, l := Delete(vol, path, isDirectory, w, k, cs, false);
    SameLength(vol, w, v);
    OutcomesRestore(v, g, w, k, vol.V(), l, root, cs, isDirectory, n, deleted);
  }

  lemma {:induction false} IsKept(w: Vol, k: Catalog, root: DirEntry, cs: seq<Text>, isDirectory: bool)
    requires Inv(w, k) && Named(cs) && CountsRight(BytesOf(w, k), root, Upper(cs))
    ensures DeleteKeeps(w, k, root, cs, false, isDirectory)
  {
    hide CountsRight, DeleteRefusal;
  }

  lemma {:induction false} SameLength(vol: Volume, w: Vol, v: Vol)
    requires vol.Valid() && |w.table| == |v.table| && vol.fat.Length == |w.table|
    ensures |vol.V().table| == |v.table|
  {
  }

  lemma {:induction false} NoSlash(v: Vol, g: Catalog, root: DirEntry, cs: seq<Text>)
    requires Inv(v, g) && Creatable(v, g, root, cs, false)
    ensures Spelled(cs, false) == Join(cs) && |BaseOf(cs, false)| <= NAME_SIZE
  {
    hide Join;
  }

  lemma {:induction false} RestoredInOrder(v: Vol, g: Catalog, x: Vol, l: Catalog, p: nat)
    requires Restored(v, g, x, l, p)
    ensures Inv(x, l)
  {
  }

  /** `fat_create`, and if it has made something, `fat_delete` of the same path: whatever was made is gone again, and
      nothing is leaked. */
  method CreateThenDelete(vol: Volume, path: Text, isDirectory: bool, ghost v: Vol, ghost g: Catalog, ghost cs: seq<Text>)
    returns (made: int, deleted: int, ghost l: Catalog)
    requires vol.Valid() && vol.V() == v && Inv(v, g) && v.bpc < 0x20000 && vol.g.rootEntries < 0x10000
    requires Components(cs) && path == Join(cs) && Creatable(v, g, RootEntry(vol.g.rootEntries), cs, false)
    requires CreateKeeps(v, g, RootEntry(vol.g.rootEntries), cs, false)
    modifies vol`disk, vol.fat
    ensures vol.Valid() && deleted == 0 && Inv(vol.V(), l)
    ensures made != 0 ==> l == g && BytesOf(vol.V(), l) == BytesOf(v, g)
    ensures made == 0 ==>
      && Resolve(BytesOf(v, g), RootEntry(vol.g.rootEntries), Upper(cs)).Found?
      && Restored(v, g, vol.V(), l, Resolve(BytesOf(v, g), RootEntry(vol.g.rootEntries), Upper(cs)).e.start)
  {
    hide *;
    ghost var root := RootEntry(vol.g.rootEntries);
    InvWalks(v, g);
    NoSlash(v, g, root, cs);
    deleted := 0;
    made, l := Create(vol, path, isDirectory, v, g, cs, false);
    InvWalks(vol.V(), l);
    if made == 0 {
      OutcomeIsMade(v, g, root, cs, isDirectory, vol.V(), l);
      ghost var n: nat :| MadeBy(g.nodes, BytesOf(v, g), root, cs, isDirectory, n, l.nodes, BytesOf(vol.V(), l));
      deleted, l := DeleteMade(vol, path, isDirectory, v, g, vol.V(), l, cs, root, n);
      RestoredInOrder(v, g, vol.V(), l, Descend(BytesOf(v, g), root, Upper(cs)).e.start);
    } else {
      NothingMade(v, g, root, cs, isDirectory, made, l, BytesOf(vol.V(), l));
    }
  }
}
