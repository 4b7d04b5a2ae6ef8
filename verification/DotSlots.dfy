/** fat.c: creating through dot components, where the new name is counted in a dot slot. */
module DotSlots {
  import opened CText
  import opened DirEntries
  import opened Directory
  import opened Volumes
  import opened FileTree
  import opened Catalogs
  import opened Images
  import opened PathNames
  import opened TreeWalk
  import opened FileEffects
  import opened VolumeOrder
  import opened FileOps
  import opened FileRemoval
  import opened RoundTrips

  /** A new name in a directory that is not the root, by a path with "." or ".." before it: nothing is refused, and
      the count goes wrong. */
  lemma {:induction false} DotMiscounts(v: Vol, g: Catalog, root: DirEntry, cs: seq<Text>, dot: Text, name: Text)
    requires Inv(v, g) && Components(cs) && root.IsDir() && root.start == 0 && (dot == DOT || dot == DOTDOT)
    requires Descend(BytesOf(v, g), root, cs + [dot]).Found? && Descend(BytesOf(v, g), root, cs + [dot]).e.start != 0
    requires LegalName(name) && |name| <= NAME_SIZE && v.Valid()
    ensures var (b, p) := (BytesOf(v, g), Descend(BytesOf(v, g), root, cs + [dot]).e.start);
            && p in b
            && (name !in Names(Slots(b[p])) ==>
                  && CreateRefusal(b, root, cs + [dot, name], false) == 0
                  && !CountsRight(b, root, Upper(cs + [dot, name]))
                  && (CreateKeeps(v, g, root, cs + [dot, name], false) <==> NoRoom(v, b, p)))
  {
    hide ImageOk, ChainsOk, Slots, Find, Resolve, Descend, TreeOk, LegalName, NoRoom;
    var b := BytesOf(v, g);
    InvImage(v, g);
    OkHasTree(g.nodes, b);
    var front := cs + [dot];
    assert cs + [dot, name] == front + [name] && Upper(front + [name]) == front;
    DotComponents(cs, dot);
    DescendNode(g.nodes, b, root, front);
    DescendIsResolve(b, root, front);
    DescendDir(b, root, front);
    NoName();
    FindIsLookup(Slots(b[Descend(b, root, front).e.start]), name);
  }

  lemma {:induction false} DotComponents(cs: seq<Text>, dot: Text)
    requires Components(cs) && (dot == DOT || dot == DOTDOT)
    ensures Components(cs + [dot]) && !Named(cs + [dot])
  {
    assert Component(dot);
  }

  // --- a dot slot that counts two ----------------------------------------------------------

  /** A creation counted in the ".." slot of directory `h` raises its size by one; the path before the new name still
      leads there. */
  lemma {:induction false} CountedInDot(nodes: Nodes, b: Bytes, root: DirEntry, cs: seq<Text>, isDirectory: bool, n: nat,
                                        ms: Nodes, bs: Bytes, h: nat)
    requires MadeBy(nodes, b, root, cs, isDirectory, n, ms, bs) && SpotOf(b, root, Upper(cs)) == Spot(h, 1)
    ensures h in b && h in bs && |Slots(b[h])| > 1 && |Slots(bs[h])| > 1 && Slots(b[h])[1].Valid()
    ensures SpotOf(bs, root, Upper(cs)) == Spot(h, 1) && Slots(bs[h])[1] == Tallied(Slots(b[h])[1], 1)
    ensures Descend(bs, root, Upper(cs)).Found?
    ensures Descend(bs, root, Upper(cs)).e.start == Descend(b, root, Upper(cs)).e.start
  {
    hide TreeOk, CountsOk, FilesOk, Slots, Names, Descend, SpotOf, Find, Splice, Encode, LegalName, FreshDir, AsMap, Tallied;
    FrontAfter(nodes, b, root, cs, isDirectory, n, ms, bs);
    SlotIsIn(b[h], 1);
    SlotsSplice(b[h], 1, Tallied(Slot(b[h], 1), 1));
  }

  /** What the path leads to, when it is counted in the ".." slot of `h`. */
  lemma {:induction false} DotEntryFound(nodes: Nodes, b: Bytes, root: DirEntry, front: seq<Text>, h: nat)
    requires ImageOk(nodes, b) && Components(front) && front != [] && root.IsDir() && root.start == 0
    requires Descend(b, root, front).Found? && SpotOf(b, root, front) == Spot(h, 1)
    ensures h in b && |Slots(b[h])| > 1 && Resolve(b, root, front) == Found(Slots(b[h])[1]) && Slots(b[h])[1].IsDir()
  {
    hide TreeOk, CountsOk, FilesOk, Slots, Descend, SpotOf, Find, Resolve;
    DescendNode(nodes, b, root, front);
    DescendIsResolve(b, root, front);
  }

  /** In a directory just made in the root, the ".." slot counts nothing yet. */
  lemma {:induction false} FreshDots(nodes: Nodes, b: Bytes, root: DirEntry, d: Text, n: nat, ms: Nodes, bs: Bytes)
    requires MadeBy(nodes, b, root, [d], true, n, ms, bs)
    ensures n in bs && |Slots(bs[n])| > 1 && Slots(bs[n])[1].size == 0
    ensures Descend(bs, root, [d, DOTDOT]).Found? && Descend(bs, root, [d, DOTDOT]).e.start == 0
    ensures SpotOf(bs, root, [d, DOTDOT]) == Spot(n, 1)
  {
    hide TreeOk, CountsOk, FilesOk, Slots, Names, SpotOf, Find, LegalName, Resolve, Noted, Descend;
    assert Upper([d]) == [] && [d] + [DOTDOT] == [d, DOTDOT];
    RootDescends(b, root);
    MadeIsFound(nodes, b, root, [d], true, n, ms, bs);
    ResolveOffFiles(bs, root, [d]);
    DotPaths(ms, bs, root, [d]);
    MadeInRoot(nodes, Noted(b, SpotOf(b, root, []), 1), d, n, ms, bs);
  }

  lemma {:induction false} RootDescends(b: Bytes, root: DirEntry)
    requires root.IsDir()
    ensures Descend(b, root, []) == Found(root)
  {
  }

  lemma {:induction false} MadeInRoot(nodes: Nodes, b: Bytes, d: Text, n: nat, ms: Nodes, bs: Bytes)
    requires |d| < NAME_SIZE && n < 0x10000 && 0 in nodes && Gained(nodes, b, ms, bs, 0, NewEntry(d, true, n))
    ensures n in ms && n in bs && n != 0 && ms[n].parent == 0 && |Slots(bs[n])| > 1 && Slots(bs[n])[1].size == 0
  {
    hide Slots, AsMap;
  }

  /** A creation that succeeds has made a node, in the directory its parent path descends to. */
  lemma {:induction false} MadeThrough(v: Vol, g: Catalog, root: DirEntry, cs: seq<Text>, isDirectory: bool, w: Vol,
                                       k: Catalog)
    requires Inv(v, g) && Inv(w, k) && Components(cs) && root.IsDir() && root.start == 0 && v.bpc < 0x20000 && v.Valid()
    requires w.Valid() && ChainsOk(v.table, g) && ChainsOk(w.table, k)
    requires Descend(BytesOf(v, g), root, Upper(cs)).Found? && Descend(BytesOf(v, g), root, Upper(cs)).e.start == 0
    requires Creatable(v, g, root, cs, false)
    requires CreateOutcome(v, g, root, cs, false, isDirectory, 0, k, BytesOf(w, k))
    ensures exists n: nat :: MadeBy(g.nodes, BytesOf(v, g), root, cs, isDirectory, n, k.nodes, BytesOf(w, k))
  {
    hide ImageOk, ChainsOk, Resolve, Descend, Creatable, CreateOutcome, MadeBy, CreateRefusal, NoRoom;
    DescendIsResolve(BytesOf(v, g), root, Upper(cs));
    OutcomeIsMade(v, g, root, cs, isDirectory, w, k);
  }

  /** `mkdir /d`, `touch /d/../x`, `touch /d/../y`: every state is in order, but the ".." slot of `d` now counts
      two, and so deleting "/d/.." is not refused, though it leaves nothing in order. */
  lemma {:induction false} DotSlotReachesTwo(v: Vol, g: Catalog, v1: Vol, g1: Catalog, v2: Vol, g2: Catalog, v3: Vol,
                                             g3: Catalog, root: DirEntry, d: Text, x: Text, y: Text)
    requires Inv(v, g) && Inv(v1, g1) && Inv(v2, g2) && Inv(v3, g3) && root.IsDir() && root.start == 0
    requires v.bpc < 0x20000 && v1.bpc < 0x20000 && v2.bpc < 0x20000
    requires Components([d]) && Components([x]) && Components([y]) && Creatable(v, g, root, [d], false)
    requires Creatable(v1, g1, root, [d, DOTDOT, x], false) && Creatable(v2, g2, root, [d, DOTDOT, y], false)
    requires CreateOutcome(v, g, root, [d], false, true, 0, g1, BytesOf(v1, g1))
    requires CreateOutcome(v1, g1, root, [d, DOTDOT, x], false, false, 0, g2, BytesOf(v2, g2))
    requires CreateOutcome(v2, g2, root, [d, DOTDOT, y], false, false, 0, g3, BytesOf(v3, g3))
    ensures DeleteRefusal(BytesOf(v3, g3), root, [d, DOTDOT], true) == 0
    ensures !DeleteKeeps(v3, g3, root, [d, DOTDOT], false, true)
  {
    hide *;
    InvWalks(v, g);
    InvWalks(v1, g1);
    InvWalks(v2, g2);
    InvWalks(v3, g3);
    var b, b1, b2, b3 := BytesOf(v, g), BytesOf(v1, g1), BytesOf(v2, g2), BytesOf(v3, g3);
    var front := [d, DOTDOT];
    Paths(d, x);
    Paths(d, y);
    RootDescends(b, root);
    MadeThrough(v, g, root, [d], true, v1, g1);
    var h: nat :| MadeBy(g.nodes, b, root, [d], true, h, g1.nodes, b1);
    FreshDots(g.nodes, b, root, d, h, g1.nodes, b1);
    MadeThrough(v1, g1, root, [d, DOTDOT, x], false, v2, g2);
    var n: nat :| MadeBy(g1.nodes, b1, root, [d, DOTDOT, x], false, n, g2.nodes, b2);
    CountedInDot(g1.nodes, b1, root, [d, DOTDOT, x], false, n, g2.nodes, b2, h);
    MadeThrough(v2, g2, root, [d, DOTDOT, y], false, v3, g3);
    var m: nat :| MadeBy(g2.nodes, b2, root, [d, DOTDOT, y], false, m, g3.nodes, b3);
    CountedInDot(g2.nodes, b2, root, [d, DOTDOT, y], false, m, g3.nodes, b3, h);
    InvImage(v3, g3);
    DotEntryFound(g3.nodes, b3, root, front, h);
    TwoIsEmpty(v3, g3, root, front, Slots(b3[h])[1]);
  }

  lemma {:induction false} Paths(d: Text, x: Text)
    requires Components([d]) && Components([x])
    ensures Upper([d, DOTDOT, x]) == [d, DOTDOT] && Upper([d]) == []
    ensures Components([d, DOTDOT, x]) && Components([d, DOTDOT]) && !Named([d, DOTDOT])
  {
    assert Component([d][0]) && Component([x][0]);
  }

  lemma {:induction false} TwoIsEmpty(v: Vol, g: Catalog, root: DirEntry, cs: seq<Text>, e: DirEntry)
    requires Inv(v, g) && Resolve(BytesOf(v, g), root, cs) == Found(e) && e.IsDir() && e.size == 2 && !Named(cs)
    ensures DeleteRefusal(BytesOf(v, g), root, cs, true) == 0 && !DeleteKeeps(v, g, root, cs, false, true)
  {
    hide Resolve;
  }
}
