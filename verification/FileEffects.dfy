/** What creating, deleting and renaming do to the content of a volume. */
module FileEffects {
  import opened CText
  import opened DirEntries
  import opened Directory
  import opened FileTree
  import opened Catalogs
  import opened Images
  import opened PathNames
  import opened TreeWalk

  /** The spot lies inside the bytes of its directory. */
  ghost predicate SpotIn(b: Bytes, s: Spot) {
    s.Spot? ==> s.dir in b && ENTRY_SIZE * (s.slot + 1) <= |b[s.dir]|
  }

  /** `file_size` counted up or down, as the unsigned field it is. */
  function Tallied(e: DirEntry, delta: int): (r: DirEntry)
    requires e.Valid()
    ensures r.Valid() && r.Name() == e.Name() && r == e.(size := r.size)
    ensures 0 <= e.size + delta < 0x1_0000_0000 ==> r.size == e.size + delta
  {
    e.(size := (e.size + delta) % 0x1_0000_0000)
  }

  /** The bytes with the size field of the entry kept at `s` changed by `delta`. */
  ghost function Noted(b: Bytes, s: Spot, delta: int): (r: Bytes)
    requires SpotIn(b, s)
    ensures r.Keys == b.Keys && forall d :: d in b ==> |r[d]| == |b[d]|
  {
    if s.NoSpot? then b else Put(b, s.dir, s.slot, Tallied(Slot(b[s.dir], s.slot), delta))
  }

  /** Node `e.start` is new, directory `p` has one more name, and nothing else is different. */
  ghost predicate Gained(nodes: Nodes, b: Bytes, ms: Nodes, bs: Bytes, p: nat, e: DirEntry) {
    var h := e.start;
    && b.Keys == nodes.Keys && bs.Keys == ms.Keys && p in nodes
    && h !in nodes && ms.Keys == nodes.Keys + {h}
    && ms[h].isDir == e.IsDir() && ms[h].parent == p
    && (forall x :: x in nodes && x != p ==> ms[x] == nodes[x] && bs[x] == b[x])
    && ms[p] == nodes[p].(chain := ms[p].chain)
    && AsMap(Slots(bs[p])) == AsMap(Slots(b[p]))[e.Name() := e]
    && (if e.IsDir() then FreshDir(Slots(bs[h]), h, p) else bs[h] == Zeros(|bs[h]|))
  }

  /** Node `h` is gone, its slot is empty, and nothing else is different. */
  ghost predicate Lost(nodes: Nodes, b: Bytes, ms: Nodes, bs: Bytes, h: nat)
    requires b.Keys == nodes.Keys
  {
    && h in nodes && nodes[h].parent in nodes && NO_ENTRY.Valid()
    && ENTRY_SIZE * (nodes[h].slot + 1) <= |b[nodes[h].parent]|
    && ms == nodes - {h}
    && bs == Put(b, nodes[h].parent, nodes[h].slot, NO_ENTRY) - {h}
  }

  // --- names stay reachable ----------------------------------------------------------------

  /** Where every directory still holds what it held, lookups of names find the same. */
  ghost predicate Keeps(nodes: Nodes, b: Bytes, bs: Bytes)
    requires b.Keys == nodes.Keys
  {
    forall d, n :: d in nodes && nodes[d].isDir && n in AsMap(Slots(b[d])) ==>
      d in bs && n in AsMap(Slots(bs[d])) && AsMap(Slots(bs[d]))[n] == AsMap(Slots(b[d]))[n]
  }

  lemma {:induction false} LookupKept(nodes: Nodes, b: Bytes, bs: Bytes, curr: DirEntry, name: Text)
    requires b.Keys == nodes.Keys && Keeps(nodes, b, bs) && name != []
    requires curr.start in nodes && nodes[curr.start].isDir
    requires Lookup(b, curr, name).Found?
    ensures Lookup(bs, curr, name) == Lookup(b, curr, name)
  {
    FindIsLookup(Slots(b[curr.start]), name);
    FindIsLookup(Slots(bs[curr.start]), name);
  }

  lemma {:induction false} DescendKept(nodes: Nodes, b: Bytes, bs: Bytes, root: DirEntry, cs: seq<Text>)
    requires b.Keys == nodes.Keys && TreeOk(nodes, DirsIn(nodes, b)) && Keeps(nodes, b, bs)
    requires Components(cs) && root.IsDir() && root.start == 0
    requires Descend(b, root, cs).Found?
    ensures Descend(bs, root, cs) == Descend(b, root, cs)
  {
    if cs != [] {
      var front := cs[..|cs| - 1];
      assert Component(cs[|cs| - 1]);
      DescendKept(nodes, b, bs, root, front);
      DescendNode(nodes, b, root, front);
      LookupKept(nodes, b, bs, Descend(b, root, front).e, cs[|cs| - 1]);
    }
  }

  lemma {:induction false} GainedKeeps(nodes: Nodes, b: Bytes, ms: Nodes, bs: Bytes, p: nat, e: DirEntry)
    requires Gained(nodes, b, ms, bs, p, e) && e.Name() !in Names(Slots(b[p]))
    ensures Keeps(nodes, b, bs)
  {
  }

  // --- the entry of a directory ------------------------------------------------------------

  /** Looking up the name of a directory, even with `strcmp`, in its parent finds its one slot. */
  lemma {:induction false} FindEntry(nodes: Nodes, ds: Dirs, h: nat)
    requires TreeOk(nodes, ds) && h in nodes && h != 0 && Hangs(nodes, ds, h)
    ensures Find(ds[nodes[h].parent], EntryOf(nodes, ds, h).Name(), true, 0) == nodes[h].slot
    ensures Find(ds[nodes[h].parent], EntryOf(nodes, ds, h).Name(), false, 0) == nodes[h].slot
  {
    var p, k := nodes[h].parent, nodes[h].slot;
    assert DirOk(ds[p], p, nodes[p].parent);
    FindUnique(ds[p], k, false);
    FindShort(ds[p], ds[p][k].Name(), 0);
  }

  /** No directory holds a name no path could spell. */
  lemma {:induction false} NoSuchName(nodes: Nodes, ds: Dirs, d: nat, name: Text)
    requires TreeOk(nodes, ds) && d in ds
    requires name != [] && name != DOT && name != DOTDOT && !LegalName(name)
    ensures Find(ds[d], name, true, 0) == |ds[d]| && name !in Names(ds[d])
  {
    assert DirOk(ds[d], d, nodes[d].parent);
    forall k | 0 <= k < |ds[d]|
      ensures ds[d][k].Name() != name
    {
      assert Live(ds[d][k]) ==> LegalName(ds[d][k].Name());
    }
  }

  lemma {:induction false} RootNameIsIllegal(e: DirEntry)
    requires e.name == Padded("~", NAME_SIZE)
    ensures e.Name() == "~" && !LegalName("~") && "~" != DOT && "~" != DOTDOT
  {
    CStrPadded("~", NAME_SIZE);
    assert "~"[0] == '~';
  }

  /** A name in use is found, one not in use is not. */
  lemma {:induction false} NotFoundIsUnused(s: Dir, name: Text)
    requires name != [] && Find(s, name, false, 0) == |s|
    ensures name !in Names(s)
  {
    FindIsLookup(s, name);
  }

  // --- a node added ------------------------------------------------------------------------

  lemma {:induction false} PaddedEmpty(s: Dir, z: Dir, k: nat)
    requires k == Find(s, [], false, 0) && k < |s + z| && z == seq(|z|, _ => NO_ENTRY)
    ensures (s + z)[k].Empty()
  {
    EmptyEntry();
    assert k >= |s| ==> (s + z)[k] == z[k - |s|];
  }

  /** The first empty slot, or the first slot of the padding, takes a new name; padding adds none. */
  lemma {:induction false} PaddedSlot(s: Dir, z: Dir, k: nat, e: DirEntry)
    requires UniqueNames(s) && k == Find(s, [], false, 0) && k < |s + z| && !e.Empty()
    requires z == seq(|z|, _ => NO_ENTRY)
    requires e.Name() !in Names(s)
    ensures (s + z)[k].Empty() && Names(s + z) == Names(s)
    ensures AsMap((s + z)[k := e]) == AsMap(s)[e.Name() := e]
  {
    EmptyEntry();
    PaddedEmpty(s, z, k);
    AppendEmpty(s, z);
    PutEmpty(s + z, k, e);
  }

  /** The node `e.start` as it hangs under a new name in directory `p`, whose chain is now `chain`. */
  ghost function NodesAdded(nodes: Nodes, b: Bytes, p: nat, e: DirEntry, chain: seq<nat>): Nodes
    requires p in nodes && p in b
  {
    NodesWith(Rechained(nodes, p, chain), p, Find(Slots(b[p]), [], false, 0), e, e.start, [e.start])
  }

  /** The bytes with the entry in directory `p`, extended by `pad` zero bytes, and `own` for the node. */
  ghost function BytesAdded(b: Bytes, p: nat, e: DirEntry, pad: nat, own: seq<Byte>): Bytes
    requires p in b && e.Valid() && ENTRY_SIZE * (Find(Slots(b[p]), [], false, 0) + 1) <= |b[p]| + pad
  {
    Put(b[p := b[p] + Zeros(pad)], p, Find(Slots(b[p]), [], false, 0), e)[e.start := own]
  }

  /** What a new node asks for. */
  ghost predicate Addable(nodes: Nodes, b: Bytes, p: nat, e: DirEntry, pad: nat, own: seq<Byte>) {
    && ImageOk(nodes, b) && p in nodes && nodes[p].isDir && |b[p]| % ENTRY_SIZE == 0
    && e.Valid() && LegalName(e.Name()) && |e.Name()| < NAME_SIZE && e.Name() !in Names(Slots(b[p]))
    && e.start != 0 && e.start !in nodes
    && ENTRY_SIZE * (Find(Slots(b[p]), [], false, 0) + 1) <= |b[p]| + pad && pad % ENTRY_SIZE == 0
    && if e.IsDir() then FreshDir(Slots(own), e.start, p) && e.size == 2 else e.size == 0 && own == Zeros(|own|)
  }

  lemma {:induction false} AddedOff(nodes: Nodes, b: Bytes, p: nat, e: DirEntry, pad: nat, chain: seq<nat>,
                                    own: seq<Byte>)
    requires Addable(nodes, b, p, e, pad, own)
    ensures ImageOff(NodesAdded(nodes, b, p, e, chain), BytesAdded(b, p, e, pad, own), p, 1)
  {
    var k := Find(Slots(b[p]), [], false, 0);
    var z := seq(pad / ENTRY_SIZE, _ => NO_ENTRY);
    assert DirOk(DirsIn(nodes, b)[p], p, nodes[p].parent);
    SlotsAppend(b[p], Zeros(pad));
    SlotsZeros(pad);
    PaddedSlot(Slots(b[p]), z, k, e);
    PadImage(nodes, b, p, chain, pad);
    InsertImage(Rechained(nodes, p, chain), b[p := b[p] + Zeros(pad)], p, k, e, e.start, [e.start], own);
  }

  /** The names of a directory of bytes `x`, padded with zeros, once the entry is in its first empty slot. */
  lemma {:induction false} PaddedNames(x: seq<Byte>, pad: nat, e: DirEntry)
    requires |x| % ENTRY_SIZE == 0 && pad % ENTRY_SIZE == 0 && UniqueNames(Slots(x))
    requires e.Valid() && !e.Empty() && e.Name() !in Names(Slots(x))
    requires ENTRY_SIZE * (Find(Slots(x), [], false, 0) + 1) <= |x| + pad
    ensures AsMap(Slots(Splice(x + Zeros(pad), ENTRY_SIZE * Find(Slots(x), [], false, 0), Encode(e))))
         == AsMap(Slots(x))[e.Name() := e]
  {
    hide Splice, Encode, AsMap, Names, Zeros, UniqueNames;
    var k := Find(Slots(x), [], false, 0);
    var z := seq(pad / ENTRY_SIZE, _ => NO_ENTRY);
    SlotsAppend(x, Zeros(pad));
    SlotsZeros(pad);
    PaddedSlot(Slots(x), z, k, e);
    SlotsSplice(x + Zeros(pad), k, e);
  }

  lemma {:induction false} AddableParts(nodes: Nodes, b: Bytes, p: nat, e: DirEntry, pad: nat, own: seq<Byte>)
    requires Addable(nodes, b, p, e, pad, own)
    ensures b.Keys == nodes.Keys && p in nodes && e.start !in nodes && p != e.start
    ensures |b[p]| % ENTRY_SIZE == 0 && pad % ENTRY_SIZE == 0 && UniqueNames(Slots(b[p]))
    ensures e.Valid() && !e.Empty() && e.Name() !in Names(Slots(b[p]))
    ensures ENTRY_SIZE * (Find(Slots(b[p]), [], false, 0) + 1) <= |b[p]| + pad
    ensures if e.IsDir() then FreshDir(Slots(own), e.start, p) else own == Zeros(|own|)
  {
    assert DirOk(DirsIn(nodes, b)[p], p, nodes[p].parent);
  }

  lemma {:induction false} AddedGains(nodes: Nodes, b: Bytes, p: nat, e: DirEntry, pad: nat, chain: seq<nat>,
                                      own: seq<Byte>)
    requires Addable(nodes, b, p, e, pad, own)
    ensures Gained(nodes, b, NodesAdded(nodes, b, p, e, chain), BytesAdded(b, p, e, pad, own), p, e)
  {
    hide Addable, Slots, Splice, Encode, AsMap, Names, Find, FreshDir, Zeros, UniqueNames;
    AddableParts(nodes, b, p, e, pad, own);
    PaddedNames(b[p], pad, e);
  }

  // --- the count in the entry of a directory -----------------------------------------------

  lemma {:induction false} NotedDirs(nodes: Nodes, b: Bytes, s: Spot, delta: int)
    requires b.Keys == nodes.Keys && s.Spot? && s.dir in nodes && nodes[s.dir].isDir && s.slot < |Slots(b[s.dir])|
    ensures SpotIn(b, s) && Slots(b[s.dir])[s.slot].Valid()
    ensures DirsIn(nodes, Noted(b, s, delta))
         == DirsIn(nodes, b)[s.dir := Slots(b[s.dir])[s.slot := Tallied(Slots(b[s.dir])[s.slot], delta)]]
  {
    hide Slots, Splice, Encode, Tallied;
    assert Slots(b[s.dir])[s.slot] == Slot(b[s.dir], s.slot);
    PutDirs(nodes, b, s.dir, s.slot, Tallied(Slot(b[s.dir], s.slot), delta));
  }

  /** Slot `k` of directory `x` with another size. */
  ghost function SlotResized(ds: Dirs, x: nat, k: nat, size: nat): Dirs
    requires x in ds && k < |ds[x]|
  {
    ds[x := ds[x][k := ds[x][k].(size := size)]]
  }

  lemma {:induction false} ResizedTree(nodes: Nodes, ds: Dirs, x: nat, k: nat, size: nat)
    requires TreeOk(nodes, ds) && x in ds && k < |ds[x]|
    ensures TreeOk(nodes, SlotResized(ds, x, k, size)) && Used(SlotResized(ds, x, k, size)[x]) == Used(ds[x])
  {
    hide DirOk, CStr, LegalName;
    assert DirOk(ds[x], x, nodes[x].parent);
    DirOkResize(ds[x], x, nodes[x].parent, k, size);
    ReplaceKeeps(nodes, ds, x, ds[x][k := ds[x][k].(size := size)]);
    UsedResize(ds[x], k, size);
  }

  /** A dot slot names no node. */
  lemma {:induction false} DotEntries(nodes: Nodes, ds: Dirs, x: nat, k: nat, size: nat, y: nat)
    requires TreeOk(nodes, ds) && x in ds && k < |ds[x]| && IsDot(ds[x][k]) && y in nodes && y != 0
    requires TreeOk(nodes, SlotResized(ds, x, k, size))
    ensures Hangs(nodes, ds, y) && Hangs(nodes, SlotResized(ds, x, k, size), y)
    ensures EntryOf(nodes, SlotResized(ds, x, k, size), y) == EntryOf(nodes, ds, y)
  {
    hide DirsOk, CStr;
    assert Hangs(nodes, ds, y) && Hangs(nodes, SlotResized(ds, x, k, size), y);
  }

  lemma {:induction false} DotCounts(nodes: Nodes, ds: Dirs, x: nat, k: nat, size: nat, d: nat, off: int)
    requires TreeOk(nodes, ds) && x in ds && k < |ds[x]| && IsDot(ds[x][k]) && CountsOff(nodes, ds, d, off)
    requires TreeOk(nodes, SlotResized(ds, x, k, size)) && Used(SlotResized(ds, x, k, size)[x]) == Used(ds[x])
    ensures CountsOff(nodes, SlotResized(ds, x, k, size), d, off)
  {
    hide DirsOk, CStr;
    var es := SlotResized(ds, x, k, size);
    forall y | y in es && y != 0
      ensures Hangs(nodes, es, y) && EntryOf(nodes, es, y) == EntryOf(nodes, ds, y) && Used(es[y]) == Used(ds[y])
      ensures y != d ==> Counted(nodes, es, y)
    {
      DotEntries(nodes, ds, x, k, size, y);
      assert y != d ==> Counted(nodes, ds, y);
    }
  }

  /** Another size in a dot slot is no concern of the tree, the counts or the files. */
  lemma {:induction false} DotResized(nodes: Nodes, b: Bytes, s: Spot, d: nat, off: int, delta: int)
    requires ImageOff(nodes, b, d, off)
    requires s.Spot? && s.dir in nodes && nodes[s.dir].isDir && s.slot < |Slots(b[s.dir])| && IsDot(Slots(b[s.dir])[s.slot])
    ensures SpotIn(b, s) && ImageOff(nodes, Noted(b, s, delta), d, off)
  {
    hide Slots, Splice, Encode, CStr, TreeOk, CountsOff, Tallied;
    var ds := DirsIn(nodes, b);
    NotedDirs(nodes, b, s, delta);
    var size := Tallied(ds[s.dir][s.slot], delta).size;
    var bs, es := Noted(b, s, delta), SlotResized(ds, s.dir, s.slot, size);
    assert DirsIn(nodes, bs) == es;
    ResizedTree(nodes, ds, s.dir, s.slot, size);
    DotCounts(nodes, ds, s.dir, s.slot, size, d, off);
    forall f | f in nodes && !nodes[f].isDir
      ensures FileFits(nodes, es, bs, f)
    {
      assert FileFits(nodes, ds, b, f);
      RootIsDir(nodes, ds);
      DotEntries(nodes, ds, s.dir, s.slot, size, f);
    }
  }

  lemma {:induction false} RootIsDir(nodes: Nodes, ds: Dirs)
    requires TreeOk(nodes, ds)
    ensures 0 in nodes && nodes[0].isDir
  {
  }

  /** With the count of a directory off, the image is in order exactly if that directory is the root. */
  lemma {:induction false} OffIsOk(nodes: Nodes, b: Bytes, d: nat, off: int)
    requires ImageOff(nodes, b, d, off) && d in nodes && nodes[d].isDir
    ensures ImageOk(nodes, b) <==> d == 0 || off == 0
  {
    hide Slots, DirOk, CStr, LegalName;
    var ds := DirsIn(nodes, b);
    if d == 0 {
      RootNotCounted(nodes, b, off);
    } else if off == 0 {
      assert CountsOk(nodes, ds) by {
        forall x | x in ds && x != 0
          ensures Counted(nodes, ds, x)
        {
        }
      }
    } else {
      assert !Counted(nodes, ds, d);
    }
  }

  /** Directory `p` has room in the 32 bits of its size for a change by `delta`. */
  ghost predicate Countable(nodes: Nodes, b: Bytes, p: nat, delta: int) {
    && b.Keys == nodes.Keys && p in nodes
    && (p != 0 ==> Hangs(nodes, DirsIn(nodes, b), p)
                   && 0 <= EntryOf(nodes, DirsIn(nodes, b), p).size + delta < 0x1_0000_0000)
  }

  /** Counting `delta` in the slot that names directory `p` completes the image. */
  lemma {:induction false} NamedCount(nodes: Nodes, b: Bytes, p: nat, delta: int)
    requires ImageOff(nodes, b, p, delta) && p in nodes && nodes[p].isDir && Countable(nodes, b, p, delta)
    ensures SpotIn(b, NameSpot(nodes, p)) && ImageOk(nodes, Noted(b, NameSpot(nodes, p), delta))
  {
    if p == 0 {
      RootNotCounted(nodes, b, delta);
    } else {
      var e := EntryOf(nodes, DirsIn(nodes, b), p);
      assert e == Slot(b[nodes[p].parent], nodes[p].slot);
      ResizeImage(nodes, b, p, delta, Tallied(e, delta));
    }
  }

  /** Where the entry `p` of a directory is kept that a path of last component `name` leads to; the root's own
      made-up entry is kept nowhere. */
  ghost predicate Kept(nodes: Nodes, ds: Dirs, s: Spot, p: DirEntry, name: Text) {
    && p.start in nodes && nodes[p.start].isDir && p.start in ds
    && if s.NoSpot? then p.start == 0 else Placed(nodes, ds, s, p, name)
  }

  /** With the count of directory `p` off by `delta`, changing the entry kept at `s` by as much puts the image in
      order if and only if `s` is the slot that names the directory, or the directory is the root, which is not
      counted: not if it is a dot slot of another directory. */
  lemma {:induction false} NotedIsOk(nodes: Nodes, b: Bytes, s: Spot, p: DirEntry, name: Text, delta: int)
    requires ImageOff(nodes, b, p.start, delta) && delta != 0 && Kept(nodes, DirsIn(nodes, b), s, p, name)
    requires Countable(nodes, b, p.start, delta)
    ensures SpotIn(b, s) && TreeOk(nodes, DirsIn(nodes, Noted(b, s, delta)))
    ensures ImageOk(nodes, Noted(b, s, delta)) <==> p.start == 0 || (name != DOT && name != DOTDOT)
  {
    hide ImageOff, ImageOk, TreeOk, Slots, Noted, Hangs;
    OffHasTree(nodes, b, p.start, delta);
    if s.NoSpot? {
      OffIsOk(nodes, b, p.start, delta);
      NotedNowhere(b, delta);
    } else if name == DOT || name == DOTDOT {
      DotResized(nodes, b, s, p.start, delta, delta);
      OffIsOk(nodes, Noted(b, s, delta), p.start, delta);
      OffHasTree(nodes, Noted(b, s, delta), p.start, delta);
    } else {
      NamedCount(nodes, b, p.start, delta);
      OkHasTree(nodes, Noted(b, s, delta));
    }
  }

  lemma {:induction false} OffHasTree(nodes: Nodes, b: Bytes, d: nat, off: int)
    requires ImageOff(nodes, b, d, off)
    ensures b.Keys == nodes.Keys && TreeOk(nodes, DirsIn(nodes, b))
  {
  }

  lemma {:induction false} OkHasTree(nodes: Nodes, b: Bytes)
    requires ImageOk(nodes, b)
    ensures b.Keys == nodes.Keys && TreeOk(nodes, DirsIn(nodes, b))
  {
  }

  lemma {:induction false} NotedNowhere(b: Bytes, delta: int)
    ensures SpotIn(b, NoSpot) && Noted(b, NoSpot, delta) == b
  {
  }

  // --- the directory a path's last component is in -----------------------------------------

  function Upper(front: seq<Text>): seq<Text> {
    if front == [] then [] else front[..|front| - 1]
  }

  function LastOf(front: seq<Text>): Text {
    if front == [] then [] else front[|front| - 1]
  }

  /** `front` descends to directory `p`, whose entry is kept in the directory `Upper(front)` resolves to. */
  ghost predicate ParentIs(nodes: Nodes, b: Bytes, root: DirEntry, front: seq<Text>, p: DirEntry, delta: int) {
    && b.Keys == nodes.Keys && Descend(b, root, front) == Found(p) && Resolve(b, root, front) == Found(p)
    && Kept(nodes, DirsIn(nodes, b), SpotOf(b, root, front), p, LastOf(front))
    && Countable(nodes, b, p.start, delta)
    && (front == [] <==> SpotOf(b, root, front).NoSpot?)
    && (front == [] ==> p == root)
    && Resolve(b, root, Upper(front)).Found?
    && Descend(b, root, Upper(front)) == Resolve(b, root, Upper(front))
    && Resolve(b, root, Upper(front)).e.start == UpOf(SpotOf(b, root, front))
  }

  function UpOf(s: Spot): nat { if s.NoSpot? then 0 else s.dir }

  lemma {:induction false} ParentIsFound(nodes: Nodes, b: Bytes, root: DirEntry, front: seq<Text>, delta: int)
    requires b.Keys == nodes.Keys && TreeOk(nodes, DirsIn(nodes, b))
    requires Components(front) && root.IsDir() && root.start == 0
    requires Descend(b, root, front).Found?
    requires Descend(b, root, front).e.start in nodes ==> Countable(nodes, b, Descend(b, root, front).e.start, delta)
    ensures ParentIs(nodes, b, root, front, Descend(b, root, front).e, delta)
  {
    hide Slots, Find, LinkedUp, DirsOk, Resolve;
    DescendNode(nodes, b, root, front);
    DescendIsResolve(b, root, front);
    DescendIsResolve(b, root, Upper(front));
  }

  /** After a node is added, the entry of the directory is kept where it was, and the path to it still resolves. */
  lemma {:induction false} ParentStillFound(nodes: Nodes, b: Bytes, root: DirEntry, front: seq<Text>, p: DirEntry,
                                            ms: Nodes, bs: Bytes, e: DirEntry)
    requires b.Keys == nodes.Keys && TreeOk(nodes, DirsIn(nodes, b))
    requires bs.Keys == ms.Keys && TreeOk(ms, DirsIn(ms, bs))
    requires Components(front) && root.IsDir() && root.start == 0 && ParentIs(nodes, b, root, front, p, 1)
    requires Gained(nodes, b, ms, bs, p.start, e) && e.Name() !in Names(Slots(b[p.start]))
    ensures Resolve(bs, root, Upper(front)) == Resolve(b, root, Upper(front))
    ensures Kept(ms, DirsIn(ms, bs), SpotOf(b, root, front), p, LastOf(front)) && Countable(ms, bs, p.start, 1)
  {
    hide Slots, AsMap, Names, Find, LinkedUp, DirsOk, Gained, Resolve, SpotOf, Kept, Placed;
    GainedKeeps(nodes, b, ms, bs, p.start, e);
    DescendKept(nodes, b, bs, root, Upper(front));
    DescendIsResolve(bs, root, Upper(front));
    KeptAfterGain(nodes, b, ms, bs, SpotOf(b, root, front), p, LastOf(front), e);
  }

  /** The directory keeps the slot that names it. */
  lemma {:induction false} HangsAfterGain(nodes: Nodes, b: Bytes, ms: Nodes, bs: Bytes, p: nat, e: DirEntry)
    requires b.Keys == nodes.Keys && TreeOk(nodes, DirsIn(nodes, b))
    requires bs.Keys == ms.Keys && TreeOk(ms, DirsIn(ms, bs)) && Gained(nodes, b, ms, bs, p, e) && p != 0
    ensures Hangs(nodes, DirsIn(nodes, b), p) && Hangs(ms, DirsIn(ms, bs), p) && NameSpot(ms, p) == NameSpot(nodes, p)
    ensures nodes[p].parent != p && bs[nodes[p].parent] == b[nodes[p].parent]
    ensures EntryOf(ms, DirsIn(ms, bs), p) == EntryOf(nodes, DirsIn(nodes, b), p)
  {
    hide Slots, AsMap, CStr, DirsOk, FreshDir;
    assert Hangs(nodes, DirsIn(nodes, b), p) && Hangs(ms, DirsIn(ms, bs), p);
  }

  /** The first two slots keep the dot entries. */
  lemma {:induction false} DotAfterGain(nodes: Nodes, b: Bytes, ms: Nodes, bs: Bytes, s: Spot, p: DirEntry, name: Text,
                                        e: DirEntry)
    requires b.Keys == nodes.Keys && TreeOk(nodes, DirsIn(nodes, b))
    requires bs.Keys == ms.Keys && TreeOk(ms, DirsIn(ms, bs))
    requires s.Spot? && s.dir == p.start && Placed(nodes, DirsIn(nodes, b), s, p, name) && name == DOT
    requires Gained(nodes, b, ms, bs, p.start, e) && e.Name() !in Names(Slots(b[p.start]))
    ensures Placed(ms, DirsIn(ms, bs), s, p, name)
  {
    hide Slots, AsMap, Names, Find, CStr, LinkedUp, FreshDir;
    var ds, es := DirsIn(nodes, b), DirsIn(ms, bs);
    assert s.dir in ms && ms[s.dir].isDir by {
      hide DirsOk;
    }
    assert DirOk(ds[s.dir], s.dir, nodes[s.dir].parent) && DirOk(es[s.dir], s.dir, ms[s.dir].parent);
    FindDots(ds[s.dir], s.dir, nodes[s.dir].parent);
    FindDots(es[s.dir], s.dir, ms[s.dir].parent);
    FindIsLookup(ds[s.dir], name);
    FindIsLookup(es[s.dir], name);
  }

  lemma {:induction false} KeptAfterGain(nodes: Nodes, b: Bytes, ms: Nodes, bs: Bytes, s: Spot, p: DirEntry, name: Text,
                                         e: DirEntry)
    requires b.Keys == nodes.Keys && TreeOk(nodes, DirsIn(nodes, b))
    requires bs.Keys == ms.Keys && TreeOk(ms, DirsIn(ms, bs))
    requires Kept(nodes, DirsIn(nodes, b), s, p, name) && Countable(nodes, b, p.start, 1) && (s.Spot? ==> name != [])
    requires Gained(nodes, b, ms, bs, p.start, e) && e.Name() !in Names(Slots(b[p.start]))
    ensures Kept(ms, DirsIn(ms, bs), s, p, name) && Countable(ms, bs, p.start, 1)
  {
    hide Slots, AsMap, Names, Find, CStr, TreeOk, FreshDir;
    RootIsDir(nodes, DirsIn(nodes, b));
    if p.start != 0 {
      HangsAfterGain(nodes, b, ms, bs, p.start, e);
    }
    if s.Spot? && s.dir == p.start {
      OwnSlotIsDot(nodes, DirsIn(nodes, b), s, p, name);
      DotAfterGain(nodes, b, ms, bs, s, p, name, e);
    }
  }

  /** A directory whose entry is kept in itself is kept in its first slot. */
  lemma {:induction false} OwnSlotIsDot(nodes: Nodes, ds: Dirs, s: Spot, p: DirEntry, name: Text)
    requires TreeOk(nodes, ds) && Placed(nodes, ds, s, p, name) && s.dir == p.start
    ensures name == DOT && p.start != 0
  {
    hide DirsOk;
    assert s.dir != 0 ==> Hangs(nodes, ds, s.dir);
  }

  lemma {:induction false} NamesNotedLater(x: seq<Byte>, y: seq<Byte>, k: nat, p: DirEntry, e: DirEntry)
    requires UniqueNames(Slots(x)) && UniqueNames(Slots(y)) && !p.Empty() && p.Valid()
    requires k < |Slots(x)| && Slots(x)[k] == p && k < |Slots(y)| && Slots(y)[k] == p
    requires AsMap(Slots(y)) == AsMap(Slots(x))[e.Name() := e] && e.Name() !in Names(Slots(x))
    ensures ENTRY_SIZE * (k + 1) <= |x| && ENTRY_SIZE * (k + 1) <= |y|
    ensures AsMap(Slots(Splice(y, ENTRY_SIZE * k, Encode(Tallied(p, 1)))))
         == AsMap(Slots(Splice(x, ENTRY_SIZE * k, Encode(Tallied(p, 1)))))[e.Name() := e]
  {
    hide Slots, Splice, Encode, AsMap, CStr, Tallied, UniqueNames;
    NamesNoted(x, k, p, 1);
    NamesNoted(y, k, p, 1);
    assert p.Name() in Names(Slots(x));
  }

  lemma {:induction false} GainedNotedHere(nodes: Nodes, b: Bytes, ms: Nodes, bs: Bytes, d: nat, k: nat, p: DirEntry,
                                           e: DirEntry)
    requires b.Keys == nodes.Keys && bs.Keys == ms.Keys && d in b && d in bs
    requires UniqueNames(Slots(b[d])) && UniqueNames(Slots(bs[d])) && !p.Empty() && p.Valid()
    requires k < |Slots(b[d])| && Slots(b[d])[k] == p == Slot(b[d], k)
    requires k < |Slots(bs[d])| && Slots(bs[d])[k] == p == Slot(bs[d], k)
    requires Gained(nodes, b, ms, bs, d, e) && e.Name() !in Names(Slots(b[d]))
    requires ENTRY_SIZE * (k + 1) <= |b[d]| && ENTRY_SIZE * (k + 1) <= |bs[d]|
    ensures Gained(nodes, Noted(b, Spot(d, k), 1), ms, Noted(bs, Spot(d, k), 1), d, e)
  {
    hide Slots, Splice, Encode, AsMap, CStr, Tallied, FreshDir, UniqueNames, Slot, Names;
    NamesNotedLater(b[d], bs[d], k, p, e);
  }

  lemma {:induction false} GainedNotedThere(nodes: Nodes, b: Bytes, ms: Nodes, bs: Bytes, s: Spot, p: nat, e: DirEntry)
    requires Gained(nodes, b, ms, bs, p, e) && s.Spot? && s.dir in nodes && s.dir != p && SpotIn(b, s) && SpotIn(bs, s)
    ensures Gained(nodes, Noted(b, s, 1), ms, Noted(bs, s, 1), p, e)
  {
    hide Slots, Splice, Encode, AsMap, CStr, Tallied, FreshDir, Slot;
  }

  lemma {:induction false} UniqueIn(nodes: Nodes, ds: Dirs, d: nat)
    requires TreeOk(nodes, ds) && d in ds
    ensures UniqueNames(ds[d])
  {
    assert DirOk(ds[d], d, nodes[d].parent);
  }

  /** Counting before or after a node is added is the same. */
  lemma {:induction false} GainedNoted(nodes: Nodes, b: Bytes, ms: Nodes, bs: Bytes, s: Spot, p: DirEntry, name: Text,
                                       e: DirEntry)
    requires b.Keys == nodes.Keys && TreeOk(nodes, DirsIn(nodes, b))
    requires bs.Keys == ms.Keys && TreeOk(ms, DirsIn(ms, bs))
    requires Kept(nodes, DirsIn(nodes, b), s, p, name) && Kept(ms, DirsIn(ms, bs), s, p, name) && (s.Spot? ==> name != [])
    requires Gained(nodes, b, ms, bs, p.start, e) && e.Name() !in Names(Slots(b[p.start]))
    ensures SpotIn(b, s) && SpotIn(bs, s) && Gained(nodes, Noted(b, s, 1), ms, Noted(bs, s, 1), p.start, e)
  {
    hide Slots, Noted, Gained, TreeOk, Names, SpotIn, Hangs;
    if s.NoSpot? {
      NotedNowhere(b, 1);
      NotedNowhere(bs, 1);
    } else {
      SpotInside(nodes, b, s, p, name);
      SpotInside(ms, bs, s, p, name);
      if s.dir == p.start {
        UniqueIn(nodes, DirsIn(nodes, b), s.dir);
        UniqueIn(ms, DirsIn(ms, bs), s.dir);
        GainedNotedHere(nodes, b, ms, bs, s.dir, s.slot, p, e);
      } else {
        GainedNotedThere(nodes, b, ms, bs, s, p.start, e);
      }
    }
  }

  lemma {:induction false} SpotInside(nodes: Nodes, b: Bytes, s: Spot, p: DirEntry, name: Text)
    requires b.Keys == nodes.Keys && Placed(nodes, DirsIn(nodes, b), s, p, name)
    ensures s.dir in nodes && SpotIn(b, s) && ENTRY_SIZE * (s.slot + 1) <= |b[s.dir]|
    ensures s.slot < |Slots(b[s.dir])| && Slots(b[s.dir])[s.slot] == p == Slot(b[s.dir], s.slot)
    ensures p.Valid() && p.Name() == name && s.dir in DirsIn(nodes, b)
  {
  }

  /** A directory's map of names, once the size of one entry is changed. */
  lemma {:induction false} NamesNoted(x: seq<Byte>, k: nat, p: DirEntry, delta: int)
    requires k < |Slots(x)| && p == Slots(x)[k] && p.Valid()
    ensures ENTRY_SIZE * (k + 1) <= |x|
    ensures UniqueNames(Slots(x)) && !p.Empty() ==>
      AsMap(Slots(Splice(x, ENTRY_SIZE * k, Encode(Tallied(p, delta))))) == AsMap(Slots(x))[p.Name() := Tallied(p, delta)]
  {
    hide Slots, Splice, Encode, AsMap, Names, CStr, Tallied, UniqueNames;
    SlotsSplice(x, k, Tallied(p, delta));
    if UniqueNames(Slots(x)) && !p.Empty() {
      PutSlot(Slots(x), k, Tallied(p, delta));
      assert AsMap(Slots(x))[p.Name() := Tallied(p, delta)]
          == (AsMap(Slots(x)) - {p.Name()}) + map[p.Name() := Tallied(p, delta)];
    }
  }

  // --- a node removed ----------------------------------------------------------------------

  /** A directory is a leaf exactly when its entry counts the two dot entries only. */
  lemma {:induction false} EmptyDirIsLeaf(nodes: Nodes, ds: Dirs, h: nat)
    requires TreeOk(nodes, ds) && CountsOk(nodes, ds) && h in ds && h != 0 && Hangs(nodes, ds, h)
    ensures EntryOf(nodes, ds, h).size == 2 <==> Leaf(nodes, ds, h)
  {
    var s := ds[h];
    assert Counted(nodes, ds, h) && DirOk(s, h, nodes[h].parent);
    UsedFirstTwo(s);
    forall k | 2 <= k < |s|
      ensures s[k].Empty() <==> !Live(s[k])
    {
    }
    assert !Live(s[0]) && !Live(s[1]);
  }

  lemma {:induction false} SlotsApartCommute(x: seq<Byte>, i: nat, j: nat, a: seq<Byte>, c: seq<Byte>)
    requires |a| == |c| == ENTRY_SIZE && ENTRY_SIZE * (i + 1) <= |x| && ENTRY_SIZE * (j + 1) <= |x| && i != j
    ensures Splice(Splice(x, ENTRY_SIZE * i, a), ENTRY_SIZE * j, c) == Splice(Splice(x, ENTRY_SIZE * j, c), ENTRY_SIZE * i, a)
    ensures Slot(Splice(x, ENTRY_SIZE * i, a), j) == Slot(x, j)
  {
    assert Splice(x, ENTRY_SIZE * i, a)[ENTRY_SIZE * j..ENTRY_SIZE * (j + 1)] == x[ENTRY_SIZE * j..ENTRY_SIZE * (j + 1)];
  }

  /** The bytes without node `h`. */
  ghost function BytesWithout(nodes: Nodes, b: Bytes, h: nat): Bytes
    requires h in nodes && nodes[h].parent in b && NO_ENTRY.Valid()
    requires ENTRY_SIZE * (nodes[h].slot + 1) <= |b[nodes[h].parent]|
  {
    Put(b, nodes[h].parent, nodes[h].slot, NO_ENTRY) - {h}
  }

  /** Counting before or after a node is removed is the same. A count noted in a slot of the removed node itself is
      gone with it. */
  lemma {:induction false} LostNoted(nodes: Nodes, b: Bytes, h: nat, s: Spot)
    requires b.Keys == nodes.Keys && h in nodes && nodes[h].parent in nodes && nodes[h].parent != h && NO_ENTRY.Valid()
    requires ENTRY_SIZE * (nodes[h].slot + 1) <= |b[nodes[h].parent]|
    requires SpotIn(b, s) && s != Spot(nodes[h].parent, nodes[h].slot)
    ensures s.Spot? && s.dir == h ==> Lost(nodes, Noted(b, s, -1), nodes - {h}, BytesWithout(nodes, b, h), h)
    ensures !(s.Spot? && s.dir == h) ==> SpotIn(BytesWithout(nodes, b, h), s)
    ensures SpotIn(BytesWithout(nodes, b, h), s) ==>
      Lost(nodes, Noted(b, s, -1), nodes - {h}, Noted(BytesWithout(nodes, b, h), s, -1), h)
  {
    hide Encode, Decode, Splice, Tallied;
    if s.Spot? && s.dir == nodes[h].parent {
      SlotsApartCommute(b[s.dir], nodes[h].slot, s.slot, Encode(NO_ENTRY), Encode(Tallied(Slot(b[s.dir], s.slot), -1)));
    }
    if s.Spot? {
      var d := Noted(b, s, -1);
      assert s.dir == h ==> Put(d, nodes[h].parent, nodes[h].slot, NO_ENTRY) - {h} == BytesWithout(nodes, b, h);
      assert s.dir != h ==> Put(d, nodes[h].parent, nodes[h].slot, NO_ENTRY) - {h} == Noted(BytesWithout(nodes, b, h), s, -1);
    }
  }

  /** What is left of directory `p` and of the tree once node `h` is out of it. */
  ghost predicate Left(nodes: Nodes, ds: Dirs, h: nat, ms: Nodes, es: Dirs) {
    && TreeOk(nodes, ds) && Leaf(nodes, ds, h) && Hangs(nodes, ds, h) && ms == nodes - {h}
    && TreeOk(ms, es) && es == DirsWithout(nodes, ds, h, NO_ENTRY)
  }

  lemma {:induction false} HangsAfterLoss(nodes: Nodes, ds: Dirs, h: nat, ms: Nodes, es: Dirs)
    requires Left(nodes, ds, h, ms, es) && nodes[h].parent != 0
    ensures var p := nodes[h].parent;
            && p in ms && p in nodes && Hangs(nodes, ds, p) && Hangs(ms, es, p) && NameSpot(ms, p) == NameSpot(nodes, p)
            && EntryOf(ms, es, p) == EntryOf(nodes, ds, p)
  {
    hide DirsOk, CStr;
    assert Hangs(nodes, ds, nodes[h].parent) && Hangs(ms, es, nodes[h].parent);
  }

  lemma {:induction false} DotAfterLoss(nodes: Nodes, ds: Dirs, h: nat, ms: Nodes, es: Dirs, s: Spot, p: DirEntry,
                                        name: Text)
    requires Left(nodes, ds, h, ms, es) && p.start == nodes[h].parent
    requires Placed(nodes, ds, s, p, name) && s.dir == p.start && name == DOT
    ensures Placed(ms, es, s, p, name)
  {
    hide CStr, Find, LinkedUp;
    assert DirOk(ds[s.dir], s.dir, nodes[s.dir].parent) && DirOk(es[s.dir], s.dir, ms[s.dir].parent);
    FindDots(ds[s.dir], s.dir, nodes[s.dir].parent);
    FindDots(es[s.dir], s.dir, ms[s.dir].parent);
  }

  lemma {:induction false} KeptInLeft(nodes: Nodes, ds: Dirs, h: nat, ms: Nodes, es: Dirs, s: Spot, p: DirEntry,
                                      name: Text)
    requires Left(nodes, ds, h, ms, es) && Kept(nodes, ds, s, p, name) && h in nodes && p.start == nodes[h].parent
    requires s.Spot? ==> s.dir != h
    ensures Kept(ms, es, s, p, name)
  {
    hide CStr, Find, TreeOk, Leaf;
    ParentApart(nodes, ds, h);
    if p.start != 0 {
      HangsAfterLoss(nodes, ds, h, ms, es);
    }
    if s.Spot? && s.dir == p.start {
      OwnSlotIsDot(nodes, ds, s, p, name);
      DotAfterLoss(nodes, ds, h, ms, es, s, p, name);
    }
  }

  lemma {:induction false} CountableAfterLoss(nodes: Nodes, b: Bytes, h: nat, ms: Nodes, bs: Bytes)
    requires b.Keys == nodes.Keys && bs.Keys == ms.Keys && Left(nodes, DirsIn(nodes, b), h, ms, DirsIn(ms, bs)) && h in nodes
    requires Countable(nodes, b, nodes[h].parent, -1)
    ensures Countable(ms, bs, nodes[h].parent, -1)
  {
    hide TreeOk, Slots, CStr, Leaf;
    ParentApart(nodes, DirsIn(nodes, b), h);
    if nodes[h].parent != 0 {
      HangsAfterLoss(nodes, DirsIn(nodes, b), h, ms, DirsIn(ms, bs));
    }
  }

  lemma {:induction false} KeptAfterLoss(nodes: Nodes, b: Bytes, h: nat, s: Spot, p: DirEntry, name: Text)
    requires ImageOk(nodes, b) && h in nodes && Leaf(nodes, DirsIn(nodes, b), h) && Hangs(nodes, DirsIn(nodes, b), h)
    requires Kept(nodes, DirsIn(nodes, b), s, p, name) && p.start == nodes[h].parent && (s.Spot? ==> s.dir != h)
    requires Countable(nodes, b, p.start, -1)
    requires NO_ENTRY.Valid() && nodes[h].parent in b && ENTRY_SIZE * (nodes[h].slot + 1) <= |b[nodes[h].parent]|
    requires var (ms, bs) := (nodes - {h}, BytesWithout(nodes, b, h));
             bs.Keys == ms.Keys && TreeOk(ms, DirsIn(ms, bs))
             && DirsIn(ms, bs) == DirsWithout(nodes, DirsIn(nodes, b), h, NO_ENTRY)
    ensures var (ms, bs) := (nodes - {h}, BytesWithout(nodes, b, h));
            Kept(ms, DirsIn(ms, bs), s, p, name) && Countable(ms, bs, p.start, -1)
  {
    hide *;
    OkHasTree(nodes, b);
    var ms, bs := nodes - {h}, BytesWithout(nodes, b, h);
    IsLeft(nodes, DirsIn(nodes, b), h, ms, DirsIn(ms, bs));
    KeptInLeft(nodes, DirsIn(nodes, b), h, ms, DirsIn(ms, bs), s, p, name);
    CountableAfterLoss(nodes, b, h, ms, bs);
  }

  lemma {:induction false} IsLeft(nodes: Nodes, ds: Dirs, h: nat, ms: Nodes, es: Dirs)
    requires TreeOk(nodes, ds) && h in nodes && Leaf(nodes, ds, h) && Hangs(nodes, ds, h) && ms == nodes - {h}
    requires TreeOk(ms, es) && es == DirsWithout(nodes, ds, h, NO_ENTRY)
    ensures Left(nodes, ds, h, ms, es)
  {
    hide TreeOk, Leaf, Hangs, DirsWithout;
  }

  lemma {:induction false} ParentApart(nodes: Nodes, ds: Dirs, h: nat)
    requires TreeOk(nodes, ds) && h in nodes && Hangs(nodes, ds, h) && Leaf(nodes, ds, h)
    ensures nodes[h].parent != h
  {
    hide DirsOk;
  }

  // --- paths that end in a dot -------------------------------------------------------------

  /** Behind the path of a directory, "." and ".." are looked up in its own first two slots, and it is these that
      hold the entry found; the root has no such slots. */
  lemma {:induction false} DotPaths(nodes: Nodes, b: Bytes, root: DirEntry, cs: seq<Text>)
    requires b.Keys == nodes.Keys && TreeOk(nodes, DirsIn(nodes, b))
    requires Components(cs) && root.IsDir() && root.start == 0 && Descend(b, root, cs).Found?
    ensures var d := Descend(b, root, cs).e.start;
            && d in nodes
            && (Descend(b, root, cs + [DOT]).Found? <==> d != 0)
            && (Descend(b, root, cs + [DOTDOT]).Found? <==> d != 0)
            && (d != 0 ==> Descend(b, root, cs + [DOT]).e.start == d && SpotOf(b, root, cs + [DOT]) == Spot(d, 0))
            && (d != 0 ==> Descend(b, root, cs + [DOTDOT]).e.start == nodes[d].parent
                           && SpotOf(b, root, cs + [DOTDOT]) == Spot(d, 1))
  {
    hide Slots, Find, LinkedUp;
    DescendNode(nodes, b, root, cs);
    var d, ds := Descend(b, root, cs).e.start, DirsIn(nodes, b);
    assert (cs + [DOT])[..|cs|] == cs && (cs + [DOTDOT])[..|cs|] == cs;
    assert DirOk(ds[d], d, nodes[d].parent);
    FindDots(ds[d], d, nodes[d].parent);
  }

  /** Counting through the path of a directory is right: it is the root, which is not counted, or the path does
      not end in a dot component. */
  ghost predicate CountsRight(b: Bytes, root: DirEntry, front: seq<Text>) {
    Resolve(b, root, front).Found? ==> Resolve(b, root, front).e.start == 0 || Named(front)
  }
}
