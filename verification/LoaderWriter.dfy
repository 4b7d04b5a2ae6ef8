/** fat_loader.c: the writer of the host tool that fills a disk image. It extends the file as it goes and
    updates every copy of the FAT. */
module LoaderWriter {
  import opened CText
  import opened DirEntries
  import opened Directory
  import opened FatTable
  import opened Volumes
  import opened DiskLayout
  import opened ChainGrowth
  import opened FileContents
  import opened FatVolume
  import opened VolumeOrder

  // --- the copies of the FAT ---------------------------------------------------------------

  /** The layout in which copy `f` of the FAT is the first. */
  function CopyOf(g: Geometry, f: nat): Geometry {
    g.(reserved := g.reserved + Start(f, g.sectorsPerFat))
  }

  lemma {:induction false} CopyValid(g: Geometry, f: nat)
    requires CopiesFit(g) && f < g.numFats
    ensures CopyOf(g, f).Valid() && CopyOf(g, f).Entries() == g.Entries()
    ensures forall disk :: CopyOf(g, f).Fits(disk) == g.Fits(disk)
  {
    StartMonotone(f, g.numFats, g.sectorsPerFat);
    assert forall c :: CopyOf(g, f).ClusterByte(c) == g.ClusterByte(c);
  }

  /** All the copies on the disk. */
  function CopiesOn(g: Geometry, disk: seq<Byte>): (s: seq<Table>)
    requires CopiesFit(g) && g.Fits(disk)
    ensures |s| == g.numFats
    ensures forall f :: 0 <= f < |s| ==> |s[f]| == g.Entries()
    ensures s[0] == TableOn(g, disk)
  {
    seq(g.numFats, f requires 0 <= f < g.numFats => CopyTable(g, disk, f))
  }

  function CopyTable(g: Geometry, disk: seq<Byte>, f: nat): (t: Table)
    requires CopiesFit(g) && g.Fits(disk) && f < g.numFats
    ensures |t| == g.Entries()
  {
    CopyValid(g, f);
    TableOn(CopyOf(g, f), disk)
  }

  /** Writing back a sector in which one word has changed is writing that word. */
  lemma {:induction false} SectorWord(disk: seq<Byte>, at: nat, off: nat, b: seq<Byte>)
    requires at + SECTOR <= |disk| && off + |b| <= SECTOR
    ensures Splice(disk, at, Splice(disk[at..at + SECTOR], off, b)) == Splice(disk, at + off, b)
  {
  }

  lemma {:induction false} WordPlace(g: Geometry, i: nat)
    requires i < g.Entries()
    ensures SECTOR * (g.reserved + i * 2 / SECTOR) + i * 2 % SECTOR == g.EntryByte(i)
    ensures i * 2 % SECTOR + 2 <= SECTOR
    ensures SECTOR * (g.reserved + i * 2 / SECTOR) + SECTOR <= g.EntryByte(g.Entries())
  {
    SectorPlace(g, i, g.Entries());
  }

  lemma {:induction false} WriteWordOn(g: Geometry, disk: seq<Byte>, i: nat, w: nat)
    requires g.Valid() && g.Fits(disk) && i < g.Entries() && w < 0x10000
    ensures g.EntryByte(i) + 2 <= |disk| && g.Fits(Splice(disk, g.EntryByte(i), WordBytes(w)))
    ensures TableOn(g, Splice(disk, g.EntryByte(i), WordBytes(w))) == TableOn(g, disk)[i := w]
  {
    FatBelowClusters(g, g.Entries());
    WriteBelowClusters(g, disk, g.EntryByte(i), WordBytes(w));
    var d := Splice(disk, g.EntryByte(i), WordBytes(w));
    WordRoundTrip(w);
    forall k | 0 <= k < g.Entries()
      ensures TableOn(g, d)[k] == TableOn(g, disk)[i := w][k]
    {
      if k == i {
        WordInside(disk, g.EntryByte(i), WordBytes(w), 0);
      } else {
        WordOutside(disk, g.EntryByte(i), WordBytes(w), g.EntryByte(k));
      }
    }
  }

  /** A word outside the first FAT of the layout leaves that FAT alone. */
  lemma {:induction false} WriteElsewhere(g: Geometry, disk: seq<Byte>, at: nat, b: seq<Byte>)
    requires g.Valid() && g.Fits(disk) && at + |b| <= |disk| && g.Fits(Splice(disk, at, b))
    requires at + |b| <= g.EntryByte(0) || g.EntryByte(g.Entries()) <= at
    ensures TableOn(g, Splice(disk, at, b)) == TableOn(g, disk)
  {
    FatBelowClusters(g, g.Entries());
    forall k | 0 <= k < g.Entries()
      ensures TableOn(g, Splice(disk, at, b))[k] == TableOn(g, disk)[k]
    {
      WordOutside(disk, at, b, g.EntryByte(k));
    }
  }

  /** The disk with entry `i` of copy `f` set to `w`. */
  function WordSet(g: Geometry, disk: seq<Byte>, f: nat, i: nat, w: nat): seq<Byte>
    requires CopiesFit(g) && g.Fits(disk) && f < g.numFats && i < g.Entries() && w < 0x10000
  {
    CopyValid(g, f);
    WriteWordOn(CopyOf(g, f), disk, i, w);
    Splice(disk, CopyOf(g, f).EntryByte(i), WordBytes(w))
  }

  /** `u` is `s` but for entry `i` of copy `f`, which is `w`. */
  predicate SetIn(s: seq<Table>, u: seq<Table>, f: nat, i: nat, w: nat) {
    && f < |s| == |u| && i < |s[f]| && u[f] == s[f][i := w]
    && forall x :: 0 <= x < |s| && x != f ==> u[x] == s[x]
  }

  /** Setting an entry in one copy changes that entry of that copy, and nothing else. */
  lemma {:induction false} WordSetOn(g: Geometry, disk: seq<Byte>, f: nat, i: nat, w: nat)
    requires CopiesFit(g) && g.Fits(disk) && f < g.numFats && i < g.Entries() && w < 0x10000
    ensures var d := WordSet(g, disk, f, i, w);
            && g.Fits(d) && ClustersOn(g, d) == ClustersOn(g, disk)
            && SetIn(CopiesOn(g, disk), CopiesOn(g, d), f, i, w)
            && |d| == |disk| && g.EntryByte(0) <= |d| && d[..g.EntryByte(0)] == disk[..g.EntryByte(0)]
  {
    var at, b, d := CopyOf(g, f).EntryByte(i), WordBytes(w), WordSet(g, disk, f, i, w);
    CopyValid(g, f);
    WriteWordOn(CopyOf(g, f), disk, i, w);
    WriteBelowClusters(CopyOf(g, f), disk, at, b);
    assert ClustersOn(CopyOf(g, f), d) == ClustersOn(g, d) && ClustersOn(CopyOf(g, f), disk) == ClustersOn(g, disk) by {
      SameClusters(g, f, d);
      SameClusters(g, f, disk);
    }
    FatBelowClusters(g, g.Entries());
    forall x | 0 <= x < g.numFats && x != f
      ensures CopyTable(g, d, x) == CopyTable(g, disk, x)
    {
      CopyValid(g, x);
      if x < f {
        StartMonotone(x, f, g.sectorsPerFat);
      } else {
        StartMonotone(f, x, g.sectorsPerFat);
      }
      WriteElsewhere(CopyOf(g, x), disk, at, b);
    }
  }

  lemma {:induction false} SameClusters(g: Geometry, f: nat, disk: seq<Byte>)
    requires g.Fits(disk)
    ensures CopyOf(g, f).Fits(disk) && ClustersOn(CopyOf(g, f), disk) == ClustersOn(g, disk)
  {
    forall c | 0 <= c < g.Entries()
      ensures ClusterOn(CopyOf(g, f), disk, c) == ClusterOn(g, disk, c)
    {
      assert CopyOf(g, f).ClusterByte(c) == g.ClusterByte(c);
    }
  }

  // --- linking a cluster in every copy -----------------------------------------------------

  /** `d` is `disk` with `n` linked behind `c` in the first `f` copies. */
  ghost predicate LinkedUpTo(g: Geometry, disk: seq<Byte>, d: seq<Byte>, c: nat, n: nat, f: nat) {
    && CopiesFit(g) && g.Fits(disk) && g.Fits(d) && c < g.Entries() && n < g.Entries()
    && ClustersOn(g, d) == ClustersOn(g, disk)
    && g.EntryByte(0) <= |d| == |disk| && d[..g.EntryByte(0)] == disk[..g.EntryByte(0)]
    && forall x :: 0 <= x < g.numFats ==>
         CopiesOn(g, d)[x] == if x < f then Linked(CopiesOn(g, disk)[x], c, n) else CopiesOn(g, disk)[x]
  }

  lemma {:induction false} LinkedNone(g: Geometry, disk: seq<Byte>, c: nat, n: nat)
    requires CopiesFit(g) && g.Fits(disk) && c < g.Entries() && n < g.Entries()
    ensures LinkedUpTo(g, disk, disk, c, n, 0)
  {
    FatBelowClusters(g, g.Entries());
  }

  lemma {:induction false} LinkedNext(g: Geometry, disk: seq<Byte>, d: seq<Byte>, c: nat, n: nat, f: nat)
    requires LinkedUpTo(g, disk, d, c, n, f) && f < g.numFats && n < 0x10000
    ensures g.Fits(WordSet(g, d, f, c, n))
    ensures LinkedUpTo(g, disk, WordSet(g, WordSet(g, d, f, c, n), f, n, CHAIN_END), c, n, f + 1)
  {
    hide CopiesOn, ClustersOn, WordSet;
    WordSetOn(g, d, f, c, n);
    WordSetOn(g, WordSet(g, d, f, c, n), f, n, CHAIN_END);
  }

  /** `u` is `s` with `n` linked behind `c` in every copy. */
  ghost predicate AllLinked(s: seq<Table>, u: seq<Table>, c: nat, n: nat) {
    && |u| == |s|
    && forall f :: 0 <= f < |s| ==> c < |s[f]| && n < |s[f]| && u[f] == Linked(s[f], c, n)
  }

  lemma {:induction false} LinkedAll(g: Geometry, disk: seq<Byte>, d: seq<Byte>, c: nat, n: nat)
    requires LinkedUpTo(g, disk, d, c, n, g.numFats)
    ensures AllLinked(CopiesOn(g, disk), CopiesOn(g, d), c, n)
    ensures TableOn(g, d) == Linked(TableOn(g, disk), c, n)
  {
    assert CopiesOn(g, d)[0] == Linked(CopiesOn(g, disk)[0], c, n);
  }

  /** Reading a FAT sector of copy `f`, setting entry `i` in it and writing it back. */
  method PatchWord(vol: Volume, f: nat, i: nat, w: nat)
    requires CopiesFit(vol.g) && vol.g.Fits(vol.disk) && f < vol.g.numFats && i < vol.g.Entries() && w < 0x10000
    modifies vol`disk
    ensures vol.disk == WordSet(vol.g, old(vol.disk), f, i, w)
  {
    var sector := vol.g.reserved + f * vol.g.sectorsPerFat + i * 2 / SECTOR;
    StartIsProduct(f, vol.g.sectorsPerFat);
    CopyValid(vol.g, f);
    WordPlace(CopyOf(vol.g, f), i);
    FatBelowClusters(CopyOf(vol.g, f), vol.g.Entries());
    var data := vol.AtaRead(sector, 1);
    SectorWord(vol.disk, SECTOR * sector, i * 2 % SECTOR, WordBytes(w));
    vol.AtaWrite(sector, Splice(data, i * 2 % SECTOR, WordBytes(w)));
  }

  /** Linking `n` behind `c`: in RAM, then in each copy on the disk. */
  method LinkEverywhere(vol: Volume, c: nat, n: nat)
    requires vol.Valid() && CopiesFit(vol.g) && c < vol.fat.Length && n < vol.fat.Length
    modifies vol`disk, vol.fat
    ensures vol.Valid() && vol.V() == old(vol.V()).(table := Linked(old(vol.V().table), c, n))
    ensures AllLinked(old(CopiesOn(vol.g, vol.disk)), CopiesOn(vol.g, vol.disk), c, n)
  {
    ghost var d0, t := vol.disk, vol.fat[..];
    vol.fat[c] := n;
    vol.fat[n] := CHAIN_END;
    assert vol.fat[..] == Linked(t, c, n);
    LinkedNone(vol.g, d0, c, n);
    for f := 0 to vol.g.numFats
      invariant LinkedUpTo(vol.g, d0, vol.disk, c, n, f)
      modifies vol`disk
    {
      LinkedNext(vol.g, d0, vol.disk, c, n, f);
      PatchWord(vol, f, c, n);
      PatchWord(vol, f, n, CHAIN_END);
    }
    LinkedAll(vol.g, d0, vol.disk, c, n);
  }

  // --- what the writer does ----------------------------------------------------------------

  /** `w` is `v` with `m` more clusters behind `ch`, taken in the order of the FAT and left as they
      were, and then `part` written at `offset`. */
  ghost predicate LoadedSoFar(v: Vol, w: Vol, ch: seq<nat>, d: seq<nat>, offset: nat, part: seq<Byte>, m: nat) {
    && v.Valid() && IsChain(v.table, ch) && |v.table| > 0 && v.table[0] != FREE
    && var (ok, u, c) := GrownBy(v, ch, m);
       && ok && c == d && w.Valid() && w.table == u.table
       && Patched(v.(table := u.table), w, d, offset, part)
  }

  lemma {:induction false} LoadedStart(v: Vol, ch: seq<nat>, offset: nat)
    requires v.Valid() && IsChain(v.table, ch) && |v.table| > 0 && v.table[0] != FREE && offset <= |Content(v, ch)|
    ensures LoadedSoFar(v, v, ch, ch, offset, [], 0)
  {
    PatchedNothing(v, ch, offset);
  }

  lemma {:induction false} LoadedTurn(v: Vol, w: Vol, x: Vol, ch: seq<nat>, d: seq<nat>, offset: nat, a: seq<Byte>,
                                      b: seq<Byte>, m: nat)
    requires LoadedSoFar(v, w, ch, d, offset, a, m) && w.Holds(d) && Patched(w, x, d, offset + |a|, b)
    ensures LoadedSoFar(v, x, ch, d, offset, a + b, m)
  {
    PatchedTwice(v.(table := w.table), w, x, d, offset, a, b);
  }

  /** One more turn of `fat_allocate_space` is one more cluster. */
  lemma {:induction false} GrownByMore(v: Vol, ch: seq<nat>, m: nat, n: nat)
    requires v.Valid() && IsChain(v.table, ch) && |v.table| > 0 && v.table[0] != FREE
    requires var (ok, u, d) := GrownBy(v, ch, m); ok && n == FirstFree(u.table, 0) < |u.table|
    ensures var (ok, u, d) := GrownBy(v, ch, m);
            GrownBy(v, ch, m + 1) == (true, Grown(u, d, n), d + [n])
    decreases m
  {
    var f := FirstFree(v.table, 0);
    if m > 0 {
      GrownByMore(Grown(v, ch, f), ch + [f], m - 1, n);
    } else {
      assert GrownBy(Grown(v, ch, n), ch + [n], 0) == (true, Grown(v, ch, n), ch + [n]);
    }
  }

  /** The bytes of the chain, with the cluster `n` behind it. */
  lemma {:induction false} ContentMore(v: Vol, w: Vol, d: seq<nat>, n: nat)
    requires v.Valid() && w.Valid() && v.bpc == w.bpc && v.data == w.data && v.Holds(d) && w.Holds(d + [n]) && n < |v.data|
    ensures Content(w, d + [n]) == Content(v, d) + v.data[n]
  {
    UptoFrame(v, w, d, d + [n], |d|);
    assert Content(w, d + [n]) == Upto(w, d + [n], |d|) + w.data[(d + [n])[|d|]];
  }

  lemma {:induction false} PatchedMore(v: Vol, w: Vol, d: seq<nat>, n: nat, t: Table, at: nat, b: seq<Byte>)
    requires v.Valid() && v.Holds(d) && Patched(v, w, d, at, b) && n < |v.data| && n !in d
    requires |t| == |v.table| && LinksInRange(t)
    ensures Patched(v.(table := t), w.(table := t), d + [n], at, b)
  {
    ContentMore(v, v.(table := t), d, n);
    ContentMore(w, w.(table := t), d, n);
    SpliceLeft(Content(v, d), v.data[n], at, b);
  }

  lemma {:induction false} LoadedLink(v: Vol, w: Vol, ch: seq<nat>, d: seq<nat>, offset: nat, a: seq<Byte>, m: nat,
                                      n: nat)
    requires LoadedSoFar(v, w, ch, d, offset, a, m) && n == FirstFree(w.table, 0) < |w.table|
    ensures d != [] && Last(d) < |w.table| && IsChain(w.table, d) && n !in d && n != 0
    ensures LoadedSoFar(v, w.(table := Linked(w.table, Last(d), n)), ch, d + [n], offset, a, m + 1)
  {
    var u := GrownBy(v, ch, m).1;
    GrownByMore(v, ch, m, n);
    ChainExtend(w.table, d, n);
    PatchedMore(v.(table := u.table), w, d, n, Linked(w.table, Last(d), n), offset, a);
  }

  /** The result of the copying loop: `n` bytes are written. It stops short only when no entry is free
      and the chain is full. */
  ghost predicate Loaded(v: Vol, w: Vol, ch: seq<nat>, d: seq<nat>, offset: nat, buf: seq<Byte>, n: nat) {
    && |ch| <= |d| && n <= |buf| && LoadedSoFar(v, w, ch, d, offset, buf[..n], |d| - |ch|)
    && (n < |buf| ==> FreeSet(w.table) == {} && offset + n == Start(|d|, v.bpc))
    && (|d| > |ch| ==> Start(|d| - 1, v.bpc) < offset + n)
  }

  lemma {:induction false} GrowthLeaves(v: Vol, ch: seq<nat>, m: nat)
    requires v.Valid() && IsChain(v.table, ch) && |v.table| > 0 && v.table[0] != FREE && GrownBy(v, ch, m).0
    ensures |FreeSet(GrownBy(v, ch, m).1.table)| == |FreeSet(v.table)| - m
    decreases m
  {
    var n := FirstFree(v.table, 0);
    if m > 0 {
      FreeSetShrinks(v, ch, n);
      GrowthLeaves(Grown(v, ch, n), ch + [n], m - 1);
    }
  }

  lemma {:induction false} StartUpTo(i: nat, j: nat, m: nat)
    requires i <= j
    ensures Start(i, m) <= Start(j, m)
  {
    if i < j {
      StartMonotone(i, j, m);
    }
  }

  /** The whole buffer is written exactly when the chain and the free clusters together have room for it. */
  lemma {:induction false} LoadedWhole(v: Vol, w: Vol, ch: seq<nat>, d: seq<nat>, offset: nat, buf: seq<Byte>, n: nat)
    requires Loaded(v, w, ch, d, offset, buf, n)
    ensures n == |buf| <==> offset + |buf| <= Start(|ch| + |FreeSet(v.table)|, v.bpc)
  {
    var m := |d| - |ch|;
    GrowthAdds(v, ch, m);
    GrowthLeaves(v, ch, m);
    StartUpTo(|d|, |ch| + |FreeSet(v.table)|, v.bpc);
  }

  /** How much is written: all of it, or what the chain and the free clusters have room for. */
  lemma {:induction false} LoadedAmount(v: Vol, w: Vol, ch: seq<nat>, d: seq<nat>, offset: nat, buf: seq<Byte>, n: nat)
    requires Loaded(v, w, ch, d, offset, buf, n)
    ensures var room := Start(|ch| + |FreeSet(v.table)|, v.bpc);
            n == if offset + |buf| <= room then |buf| else room - offset
  {
    hide Start, Content;
    LoadedWhole(v, w, ch, d, offset, buf, n);
    if n < |buf| {
      GrowthLeaves(v, ch, |d| - |ch|);
    }
  }

  /** Clusters outside the chain are as they were, and so are their entries. */
  lemma {:induction false} LoadedOutside(v: Vol, w: Vol, ch: seq<nat>, d: seq<nat>, offset: nat, buf: seq<Byte>, n: nat)
    requires Loaded(v, w, ch, d, offset, buf, n)
    ensures ch <= d && |w.table| == |v.table| == |w.data|
    ensures forall c :: 0 <= c < |v.table| && c !in d ==> w.table[c] == v.table[c] && w.data[c] == v.data[c]
    ensures forall c :: c in d ==> c in ch || (c < |v.table| && v.table[c] == FREE)
  {
    GrowthAdds(v, ch, |d| - |ch|);
    assert d == d[..|ch|] + d[|ch|..];
    assert Last(ch) in ch;
  }

  /** Every other chain keeps its clusters and its bytes. */
  lemma {:induction false} LoadedKeeps(v: Vol, w: Vol, ch: seq<nat>, d: seq<nat>, offset: nat, buf: seq<Byte>, n: nat,
                                       other: seq<nat>)
    requires Loaded(v, w, ch, d, offset, buf, n)
    requires IsChain(v.table, other) && Apart(other, ch)
    ensures IsChain(w.table, other) && Content(w, other) == Content(v, other) && Apart(other, d)
  {
    hide Loaded;
    LoadedOutside(v, w, ch, d, offset, buf, n);
    LoadedBase(v, w, ch, d, offset, buf, n);
    ChainInUse(v.table, other);
    ChainFrame(v.table, w.table, other);
    ContentFrame(v, w, other);
  }

  lemma {:induction false} LoadedBase(v: Vol, w: Vol, ch: seq<nat>, d: seq<nat>, offset: nat, buf: seq<Byte>, n: nat)
    requires Loaded(v, w, ch, d, offset, buf, n)
    ensures v.Valid() && w.Valid() && w.bpc == v.bpc && IsChain(v.table, ch) && IsChain(w.table, d)
    ensures n <= |buf| && offset + n <= |Content(w, d)|
  {
  }

  /** The file reads as before, but for exactly the prefix written. */
  lemma {:induction false} LoadedReads(v: Vol, w: Vol, ch: seq<nat>, d: seq<nat>, offset: nat, buf: seq<Byte>, n: nat)
    requires Loaded(v, w, ch, d, offset, buf, n)
    ensures v.Valid() && w.Valid() && v.Holds(ch) && w.Holds(d) && n <= |buf|
    ensures |Content(v, ch)| <= |Content(w, d)| && offset + n <= |Content(w, d)|
    ensures Content(w, d)[offset..offset + n] == buf[..n]
    ensures forall i :: 0 <= i < |Content(v, ch)| && !(offset <= i < offset + n) ==> Content(w, d)[i] == Content(v, ch)[i]
  {
    hide Upto, GrownBy;
    var x := v.(table := w.table);
    LoadedOutside(v, w, ch, d, offset, buf, n);
    StartUpTo(|ch|, |d|, v.bpc);
    UptoPrefix(x, d, |ch|, |d|);
    UptoFrame(v, x, ch, d, |ch|);
    assert Content(w, d) == Splice(Content(x, d), offset, buf[..n]);
  }

  lemma {:induction false} UptoPrefix(v: Vol, d: seq<nat>, i: nat, n: nat)
    requires v.Valid() && v.Holds(d) && i <= n <= |d|
    ensures Upto(v, d, i) <= Upto(v, d, n)
  {
    if i < n {
      UptoPrefix(v, d, i, n - 1);
    }
  }

  // --- the copies during a write -----------------------------------------------------------

  /** The entries that growing `ch` to `d` changes. */
  ghost function Touched(ch: seq<nat>, d: seq<nat>): seq<nat>
    requires ch != [] && |ch| <= |d|
  {
    if |d| == |ch| then [] else d[|ch| - 1..]
  }

  /** Entry `i` of the copy `c`, once `a`: that of the table in RAM, if it was touched. */
  ghost predicate Follows(a: Table, c: Table, t: Table, touched: seq<nat>, i: nat) {
    i < |a| && i < |c| && i < |t| && c[i] == if i in touched then t[i] else a[i]
  }

  /** In every copy, the entries touched are those of the table in RAM, and all others what they were. */
  ghost predicate CopiesFollow(s: seq<Table>, u: seq<Table>, t: Table, touched: seq<nat>) {
    && |u| == |s|
    && forall f, i {:trigger Follows(s[f], u[f], t, touched, i)} :: 0 <= f < |s| && 0 <= i < |t| ==>
         Follows(s[f], u[f], t, touched, i)
  }

  lemma {:induction false} TouchedMore(ch: seq<nat>, d: seq<nat>, n: nat, i: nat)
    requires ch != [] && ch <= d
    ensures i in Touched(ch, d + [n]) <==> i in Touched(ch, d) || i == Last(d) || i == n
  {
    var tail := d[|ch| - 1..];
    assert Touched(ch, d + [n]) == tail + [n];
    assert tail[|tail| - 1] == Last(d);
  }

  lemma {:induction false} FollowLink(s: seq<Table>, u: seq<Table>, x: seq<Table>, t: Table, ch: seq<nat>, d: seq<nat>,
                                      n: nat)
    requires ch != [] && ch <= d && Last(d) < |t| && n < |t|
    requires CopiesFollow(s, u, t, Touched(ch, d)) && AllLinked(u, x, Last(d), n)
    ensures CopiesFollow(s, x, Linked(t, Last(d), n), Touched(ch, d + [n]))
  {
    var r := Linked(t, Last(d), n);
    forall f, i | 0 <= f < |s| && 0 <= i < |r|
      ensures Follows(s[f], x[f], r, Touched(ch, d + [n]), i)
    {
      assert Follows(s[f], u[f], t, Touched(ch, d), i);
      assert x[f] == Linked(u[f], Last(d), n);
      TouchedMore(ch, d, n, i);
    }
  }

  /** Writing clusters changes no copy. */
  lemma {:induction false} CopiesBelow(g: Geometry, a: seq<Byte>, b: seq<Byte>)
    requires CopiesFit(g) && g.Fits(a) && g.Fits(b) && SameBelow(g, a, b)
    ensures CopiesOn(g, b) == CopiesOn(g, a)
  {
    forall f | 0 <= f < g.numFats
      ensures CopyTable(g, b, f) == CopyTable(g, a, f)
    {
      CopyValid(g, f);
      var c := CopyOf(g, f);
      FatBelowClusters(c, 0);
      forall i | 0 <= i < g.Entries()
        ensures Word(b, c.EntryByte(i)) == Word(a, c.EntryByte(i))
      {
        assert b[..g.ClusterByte(0)][c.EntryByte(i)] == b[c.EntryByte(i)];
        assert b[..g.ClusterByte(0)][c.EntryByte(i) + 1] == b[c.EntryByte(i) + 1];
      }
    }
  }

  ghost function Copies(vol: Volume): seq<Table>
    reads vol, vol.fat
    requires vol.Valid() && CopiesFit(vol.g)
  {
    CopiesOn(vol.g, vol.disk)
  }

  /** The next cluster of the chain, or a new one behind its end. */
  method NextCluster(vol: Volume, current: nat, ghost v: Vol, ghost w: Vol, ghost s: seq<Table>, ghost ch: seq<nat>,
                     ghost d: seq<nat>, ghost k: nat, offset: nat, ghost part: seq<Byte>)
    returns (ok: bool, next: nat, ghost e: seq<nat>)
    requires vol.Valid() && vol.V() == w && CopiesFit(vol.g) && |ch| <= |d| && k < |d| && d[k] == current && ch <= d
    requires LoadedSoFar(v, w, ch, d, offset, part, |d| - |ch|)
    requires CopiesFollow(s, Copies(vol), w.table, Touched(ch, d))
    modifies vol`disk, vol.fat
    ensures vol.Valid() && ch <= e
    ensures LoadedSoFar(v, vol.V(), ch, e, offset, part, |e| - |ch|)
    ensures CopiesFollow(s, Copies(vol), vol.V().table, Touched(ch, e))
    ensures !ok ==> k == |d| - 1 && e == d && FreeSet(vol.V().table) == {}
    ensures ok ==> k + 1 < |e| && e[k + 1] == next && (e == d || (|e| == |d| + 1 && k == |d| - 1))
  {
    hide LoadedSoFar, CopiesFollow, AllLinked, Touched, CopiesOn, Content, Upto, GrownBy, Patched;
    e := d;
    SoFarBase(v, w, ch, d, offset, part, |d| - |ch|);
    assert LinkAt(w.table, d, k);
    if vol.fat[current] < CHAIN_END {
      return true, vol.fat[current], d;
    }
    assert k == |d| - 1;
    var n := vol.FindFree();
    if n == -1 {
      assert FreeSet(w.table) == {};
      return false, current, d;
    }
    LoadedLink(v, w, ch, d, offset, part, |d| - |ch|, n);
    ghost var u := Copies(vol);
    LinkEverywhere(vol, current, n);
    FollowLink(s, u, Copies(vol), w.table, ch, d, n);
    return true, n, d + [n];
  }

  lemma {:induction false} SoFarBase(v: Vol, w: Vol, ch: seq<nat>, d: seq<nat>, offset: nat, part: seq<Byte>, m: nat)
    requires LoadedSoFar(v, w, ch, d, offset, part, m)
    ensures v.Valid() && w.Valid() && w.bpc == v.bpc && IsChain(v.table, ch) && IsChain(w.table, d)
    ensures LinksInRange(w.table) && |w.table| == |v.table| == |w.data|
    ensures offset + |part| <= |Content(w, d)|
  {
  }

  /** One turn of the copying loop: a cluster that is not overwritten as a whole is read first. */
  method CopyTurn(vol: Volume, current: nat, clusterOffset: nat, buffer: seq<Byte>, written: nat, cluster: seq<Byte>,
                  ghost v: Vol, ghost w: Vol, ghost s: seq<Table>, ghost ch: seq<nat>, ghost d: seq<nat>, ghost k: nat,
                  ghost offset: nat)
    returns (after: seq<Byte>, count: nat)
    requires vol.Valid() && vol.V() == w && CopiesFit(vol.g) && ch <= d && k < |d| && d[k] == current
    requires written < |buffer| && |cluster| == w.bpc && clusterOffset < w.bpc
    requires Start(k, w.bpc) + clusterOffset == offset + written
    requires LoadedSoFar(v, w, ch, d, offset, buffer[..written], |d| - |ch|)
    requires CopiesFollow(s, Copies(vol), w.table, Touched(ch, d))
    modifies vol`disk
    ensures vol.Valid() && vol.V().table == w.table && |after| == w.bpc && ch != []
    ensures 0 < count && written + count <= |buffer|
    ensures count == if w.bpc - clusterOffset > |buffer| - written then |buffer| - written else w.bpc - clusterOffset
    ensures LoadedSoFar(v, vol.V(), ch, d, offset, buffer[..written + count], |d| - |ch|)
    ensures CopiesFollow(s, Copies(vol), w.table, Touched(ch, d))
  {
    hide LoadedSoFar, CopiesFollow, Touched, CopiesOn, Patched, IsChain, LinksInRange;
    SoFarBase(v, w, ch, d, offset, buffer[..written], |d| - |ch|);
    count := vol.g.Bpc() - clusterOffset;
    if count > |buffer| - written {
      count := |buffer| - written;
    }
    ghost var disk := vol.disk;
    var part := buffer[written..written + count];
    after := vol.WriteOne(current, clusterOffset, part, |buffer| - written, cluster, d, k);
    CopiesBelow(vol.g, disk, vol.disk);
    assert |buffer[..written]| == written;
    LoadedTurn(v, w, vol.V(), ch, d, offset, buffer[..written], part, |d| - |ch|);
    assert buffer[..written] + part == buffer[..written + count];
  }

  /** Where the copying loop stands: `current` is the cluster the next byte goes to. */
  ghost predicate At(d: seq<nat>, bpc: nat, k: nat, current: nat, clusterOffset: nat, at: nat) {
    k < |d| && d[k] == current && clusterOffset < bpc && Start(k, bpc) + clusterOffset == at
  }

  /** The last cluster added, if any, is not left without a byte at the end. */
  ghost predicate Filling(ch: seq<nat>, d: seq<nat>, bpc: nat, at: nat, done: bool) {
    |d| > |ch| ==> Start(|d| - 1, bpc) <= at && (done ==> Start(|d| - 1, bpc) < at)
  }

  /** The copying part of `fat_write`, with the chain extended as it goes. */
  method CopyOut(vol: Volume, start: nat, offset: nat, buffer: seq<Byte>, ghost v: Vol, ghost ch: seq<nat>)
    returns (written: nat, ghost d: seq<nat>)
    requires vol.Valid() && vol.V() == v && CopiesFit(vol.g) && IsChain(v.table, ch) && ch[0] == start
    requires |v.table| > 0 && v.table[0] != FREE && offset < |Content(v, ch)|
    modifies vol`disk, vol.fat
    ensures vol.Valid() && Loaded(v, vol.V(), ch, d, offset, buffer, written)
    ensures CopiesFollow(old(Copies(vol)), Copies(vol), vol.V().table, Touched(ch, d))
  {
    hide LoadedSoFar, CopiesFollow, CopiesOn, Patched, IsChain, LinksInRange, AllLinked, Touched, Zeros, Content, Upto, GrownBy, Volume.Valid, Volume.V;
    ghost var s := Copies(vol);
    CopiesLength(vol);
    CopiesStart(s, v.table, ch);
    var bpc := vol.g.Bpc();
    InsideChain(offset, |ch|, bpc);
    var clusterOffset: nat := offset % bpc;
    ghost var k: nat := offset / bpc;
    var current := vol.Walk(start, offset / bpc, v, ch);
    var cluster := Zeros(bpc);
    written, d := 0, ch;
    assert buffer[..0] == [];
    LoadedStart(v, ch, offset);
    while written < |buffer|
      invariant vol.Valid() && ch <= d && written <= |buffer| && |cluster| == bpc
      invariant LoadedSoFar(v, vol.V(), ch, d, offset, buffer[..written], |d| - |ch|)
      invariant CopiesFollow(s, Copies(vol), vol.V().table, Touched(ch, d))
      invariant written < |buffer| ==> At(d, bpc, k, current, clusterOffset, offset + written)
      invariant Filling(ch, d, bpc, offset + written, written == |buffer|)
    {
      var count;
      cluster, count := CopyTurn(vol, current, clusterOffset, buffer, written, cluster, v, vol.V(), s, ch, d, k, offset);
      written := written + count;
      if written < |buffer| {
        clusterOffset := 0;
        var ok;
        ok, current, d := NextCluster(vol, current, v, vol.V(), s, ch, d, k, offset, buffer[..written]);
        if !ok {
          break;
        }
        k := k + 1;
      }
    }
    assert written == |buffer| ==> buffer[..written] == buffer;
  }

  lemma {:induction false} CopiesLength(vol: Volume)
    requires vol.Valid() && CopiesFit(vol.g)
    ensures forall f :: 0 <= f < |Copies(vol)| ==> |Copies(vol)[f]| == |vol.V().table|
  {
  }

  lemma {:induction false} CopiesStart(s: seq<Table>, t: Table, ch: seq<nat>)
    requires ch != [] && forall f :: 0 <= f < |s| ==> |s[f]| == |t|
    ensures CopiesFollow(s, s, t, Touched(ch, ch))
  {
    forall f, i | 0 <= f < |s| && 0 <= i < |t|
      ensures Follows(s[f], s[f], t, Touched(ch, ch), i)
    {
    }
  }

  // --- a file without a cluster ------------------------------------------------------------

  lemma {:induction false} SpliceOver(s: seq<Byte>, at: nat, a: seq<Byte>, b: seq<Byte>)
    requires at + |a| <= |s| && |a| == |b|
    ensures Splice(Splice(s, at, a), at, b) == Splice(s, at, b)
  {
  }

  lemma {:induction false} WordSetTwice(g: Geometry, disk: seq<Byte>, f: nat, i: nat, w: nat, x: nat)
    requires CopiesFit(g) && g.Fits(disk) && f < g.numFats && i < g.Entries() && w < 0x10000 && x < 0x10000
    ensures g.Fits(WordSet(g, disk, f, i, w)) && WordSet(g, WordSet(g, disk, f, i, w), f, i, x) == WordSet(g, disk, f, i, x)
  {
    CopyValid(g, f);
    WriteWordOn(CopyOf(g, f), disk, i, w);
    SpliceOver(disk, CopyOf(g, f).EntryByte(i), WordBytes(w), WordBytes(x));
  }

  /** The first cluster of a file that has none: an end mark, in RAM and in every copy. The cluster is not zeroed. */
  method FirstCluster(vol: Volume) returns (n: int)
    requires vol.Valid() && CopiesFit(vol.g)
    modifies vol`disk, vol.fat
    ensures vol.Valid()
    ensures n == -1 ==> FreeSet(vol.V().table) == {} && vol.disk == old(vol.disk) && vol.V() == old(vol.V())
    ensures n != -1 ==> n == FirstFree(old(vol.V().table), 0) < |old(vol.V().table)|
    ensures n != -1 ==> vol.V() == old(vol.V()).(table := old(vol.V().table)[n := CHAIN_END])
    ensures n != -1 ==> AllLinked(old(Copies(vol)), Copies(vol), n, n)
  {
    ghost var d0, t := vol.disk, vol.fat[..];
    n := vol.FindFree();
    if n == -1 {
      assert FreeSet(t) == {};
      return;
    }
    vol.fat[n] := CHAIN_END;
    assert vol.fat[..] == Linked(t, n, n);
    LinkedNone(vol.g, d0, n, n);
    for f := 0 to vol.g.numFats
      invariant LinkedUpTo(vol.g, d0, vol.disk, n, n, f)
      modifies vol`disk
    {
      LinkedNext(vol.g, d0, vol.disk, n, n, f);
      WordSetTwice(vol.g, vol.disk, f, n, n, CHAIN_END);
      PatchWord(vol, f, n, CHAIN_END);
    }
    LinkedAll(vol.g, d0, vol.disk, n, n);
  }

  lemma {:induction false} CopiesSame(s: seq<Table>, t: Table)
    requires forall f :: 0 <= f < |s| ==> |s[f]| == |t|
    ensures CopiesFollow(s, s, t, [])
  {
    forall f, i | 0 <= f < |s| && 0 <= i < |t|
      ensures Follows(s[f], s[f], t, [], i)
    {
    }
  }

  lemma {:induction false} FollowFirst(s: seq<Table>, u: seq<Table>, x: seq<Table>, t: Table, n: nat, d: seq<nat>)
    requires n < |t| && [n] <= d && AllLinked(s, u, n, n) && CopiesFollow(u, x, t, Touched([n], d))
    requires |d| == 1 ==> t[n] == CHAIN_END
    ensures CopiesFollow(s, x, t, d)
  {
    forall f, i | 0 <= f < |s| && 0 <= i < |t|
      ensures Follows(s[f], x[f], t, d, i)
    {
      assert Follows(u[f], x[f], t, Touched([n], d), i);
      assert u[f] == Linked(s[f], n, n);
      assert d[0] == n && (|d| > 1 ==> Touched([n], d) == d);
    }
  }

  // --- fat_write ---------------------------------------------------------------------------

  /** What the writer asks for: the offset lies inside the chain of the file, and the directory that
      holds its entry is stored on another chain. A file without a cluster starts in its first. */
  ghost predicate Loadable(v: Vol, file: DirEntry, ch: seq<nat>, dir: seq<nat>, offset: nat) {
    && v.Valid() && file.Valid() && IsChain(v.table, dir) && |v.table| > 0 && v.table[0] != FREE
    && if file.start == 0 then offset < v.bpc
       else IsChain(v.table, ch) && ch[0] == file.start && Apart(dir, ch) && offset < |Content(v, ch)|
  }

  /** The volume and the chain copying starts from. */
  ghost function LoadBase(v: Vol, file: DirEntry, ch: seq<nat>): (Vol, seq<nat>)
    requires v.Valid()
  {
    var n := FirstFree(v.table, 0);
    if file.start == 0 && n < |v.table| then (v.(table := v.table[n := CHAIN_END]), [n]) else (v, ch)
  }

  /** Where the entry's size is updated, and only then. */
  ghost predicate EntryUpdated(m: Vol, w: Vol, dir: seq<nat>, name: seq<Byte>, after: DirEntry, grew: bool)
    requires m.Valid() && IsChain(m.table, dir) && after.Valid()
  {
    var k := Find(DirOn(m, dir), name, true, 0);
    if grew && k < |DirOn(m, dir)| then Patched(m, w, dir, ENTRY_SIZE * k, Encode(after)) else w == m
  }

  /** `fat_write` of the loader: `m` is the volume before the entry is updated. */
  ghost predicate LoaderOutcome(v: Vol, m: Vol, w: Vol, file: DirEntry, ch: seq<nat>, dir: seq<nat>, offset: nat,
                                buf: seq<Byte>, r: int, after: DirEntry, d: seq<nat>)
    requires v.Valid() && file.Valid()
  {
    if file.IsDir() || (file.start == 0 && FreeSet(v.table) == {}) then
      r == -1 && after == file && w == v
    else
      var (b, c) := LoadBase(v, file, ch);
      && 0 <= r && Loaded(b, m, c, d, offset, buf, r) && c != []
      && after == file.(start := c[0], size := if offset + r > file.size then offset + r else file.size)
      && after.Valid() && m.Valid() && IsChain(m.table, dir)
      && EntryUpdated(m, w, dir, file.Name(), after, offset + r > file.size)
  }

  lemma {:induction false} BaseReady(v: Vol, file: DirEntry, ch: seq<nat>, dir: seq<nat>, offset: nat)
    requires Loadable(v, file, ch, dir, offset) && (file.start == 0 ==> FirstFree(v.table, 0) < |v.table|)
    ensures var (b, c) := LoadBase(v, file, ch);
            && b.Valid() && b.bpc == v.bpc && IsChain(b.table, c) && |b.table| > 0 && b.table[0] != FREE
            && offset < |Content(b, c)|
            && IsChain(b.table, dir) && Apart(dir, c) && dir != []
            && c != [] && c[0] == (if file.start == 0 then FirstFree(v.table, 0) else file.start) && c[0] < 0x10000
  {
    var n := FirstFree(v.table, 0);
    if file.start == 0 {
      ChainStart(v.table, n);
      ChainInUse(v.table, dir);
      ChainFrame(v.table, v.table[n := CHAIN_END], dir);
      assert Start(1, v.bpc) == v.bpc;
    }
  }

  /** Nothing is changed by a write that finds no first cluster, or is asked of a directory. */
  lemma {:induction false} NotLoaded(v: Vol, file: DirEntry, ch: seq<nat>, dir: seq<nat>, offset: nat, buf: seq<Byte>)
    requires v.Valid() && file.Valid() && (file.IsDir() || (file.start == 0 && FreeSet(v.table) == {}))
    ensures LoaderOutcome(v, v, v, file, ch, dir, offset, buf, -1, file, [])
  {
  }

  lemma {:induction false} LoadedOutcome(v: Vol, m: Vol, w: Vol, file: DirEntry, ch: seq<nat>, dir: seq<nat>, offset: nat,
                                         buf: seq<Byte>, r: nat, after: DirEntry, d: seq<nat>)
    requires v.Valid() && file.Valid() && !file.IsDir() && (file.start == 0 ==> FirstFree(v.table, 0) < |v.table|)
    requires var (b, c) := LoadBase(v, file, ch);
             && Loaded(b, m, c, d, offset, buf, r) && c != []
             && after == file.(start := c[0], size := if offset + r > file.size then offset + r else file.size)
    requires after.Valid() && m.Valid() && IsChain(m.table, dir)
    requires EntryUpdated(m, w, dir, file.Name(), after, offset + r > file.size)
    ensures LoaderOutcome(v, m, w, file, ch, dir, offset, buf, r, after, d)
  {
    hide Loaded, Patched, IsChain;
    assert file.start == 0 ==> FirstFree(v.table, 0) in FreeSet(v.table);
  }

  /** The entries of the FAT that a write from `ch` to `d` changes; for a file without a cluster, `d` is all new. */
  ghost function TouchedBy(file: DirEntry, ch: seq<nat>, d: seq<nat>): seq<nat> {
    if file.start == 0 || ch == [] || |d| < |ch| then d else Touched(ch, d)
  }

  lemma {:induction false} LoadedFollows(v: Vol, file: DirEntry, ch: seq<nat>, s: seq<Table>, u: seq<Table>,
                                         x: seq<Table>, w: Vol, d: seq<nat>, offset: nat, buf: seq<Byte>, n: nat)
    requires v.Valid()
    requires var (b, c) := LoadBase(v, file, ch);
             Loaded(b, w, c, d, offset, buf, n) && c != [] && CopiesFollow(u, x, w.table, Touched(c, d))
    requires if file.start == 0 then FirstFree(v.table, 0) < |v.table| && AllLinked(s, u, FirstFree(v.table, 0), FirstFree(v.table, 0))
             else u == s
    ensures CopiesFollow(s, x, w.table, TouchedBy(file, ch, d))
  {
    hide AllLinked, CopiesFollow, Patched, IsChain;
    var (b, c) := LoadBase(v, file, ch);
    LoadedOutside(b, w, c, d, offset, buf, n);
    if file.start == 0 {
      assert GrownBy(b, c, 0).1 == b;
      FollowFirst(s, u, x, w.table, c[0], d);
    }
  }

  /** Whatever the write changed in the table is in every copy as it is in RAM, and every copy is
      otherwise as it was. */
  lemma {:induction false} CopiesAgree(v: Vol, w: Vol, ch: seq<nat>, d: seq<nat>, offset: nat, buf: seq<Byte>, n: nat,
                                       s: seq<Table>, u: seq<Table>, f: nat, i: nat)
    requires Loaded(v, w, ch, d, offset, buf, n) && CopiesFollow(s, u, w.table, Touched(ch, d))
    requires f < |s| && i < |w.table|
    ensures f < |u| && i < |u[f]| && i < |s[f]| && |w.table| == |v.table|
    ensures w.table[i] != v.table[i] ==> u[f][i] == w.table[i]
    ensures u[f][i] == w.table[i] || u[f][i] == s[f][i]
  {
    GrowthAdds(v, ch, |d| - |ch|);
    assert Follows(s[f], u[f], w.table, Touched(ch, d), i);
    assert i in d[|ch|..] ==> i in Touched(ch, d) by {
      assert |d| > |ch| ==> Touched(ch, d) == [d[|ch| - 1]] + d[|ch|..];
    }
    assert |d| > |ch| ==> Touched(ch, d)[0] == d[..|ch|][|ch| - 1] == Last(ch);
    assert |d| == |ch| ==> w.table == v.table;
  }

  /** What the directory says of a file after `x` was written at `offset` behind its end: in the slot its name was found in,
      and only there, the new size and the first cluster, and by these the bytes written are read. */
  ghost predicate EntryTells(v: Vol, w: Vol, file: DirEntry, dir: seq<nat>, d: seq<nat>, offset: nat, x: seq<Byte>)
    requires v.Valid() && v.Holds(dir)
  {
    var k := Find(DirOn(v, dir), file.Name(), true, 0);
    && w.Valid() && IsChain(w.table, dir) && w.Holds(dir)
    && k < |DirOn(w, dir)| == |DirOn(v, dir)|
    && var e := DirOn(w, dir)[k];
       && (forall i :: 0 <= i < |DirOn(v, dir)| && i != k ==> DirOn(w, dir)[i] == DirOn(v, dir)[i])
       && e.Name() == file.Name() && e.size == offset + |x| && (file.start != 0 ==> e.start == file.start)
       && FileOn(w, e, d) && Range(FileBytes(w, e, d), offset, |x|) == x
       && (|file.Name()| < NAME_SIZE ==> Find(DirOn(w, dir), file.Name(), true, 0) == k)
  }

  lemma {:induction false} DirLoaded(v: Vol, m: Vol, file: DirEntry, ch: seq<nat>, dir: seq<nat>, offset: nat,
                                     buf: seq<Byte>, r: nat, d: seq<nat>)
    requires Loadable(v, file, ch, dir, offset) && (file.start == 0 ==> FirstFree(v.table, 0) < |v.table|)
    requires var (b, c) := LoadBase(v, file, ch);
             Loaded(b, m, c, d, offset, buf, r)
    ensures v.Holds(dir) && m.Valid() && IsChain(m.table, dir) && m.Holds(dir) && DirOn(m, dir) == DirOn(v, dir)
    ensures Apart(dir, d) && IsChain(m.table, d) && d[0] == LoadBase(v, file, ch).1[0] && d[0] != 0
    ensures offset + r <= |Content(m, d)| && r <= |buf| && Content(m, d)[offset..offset + r] == buf[..r]
  {
    hide Loaded, IsChain, Loadable, Patched, Slots, Content, GrownBy;
    LoadableParts(v, file, ch, dir, offset);
    BaseReady(v, file, ch, dir, offset);
    var (b, c) := LoadBase(v, file, ch);
    LoadedBase(b, m, c, d, offset, buf, r);
    LoadedKeeps(b, m, c, d, offset, buf, r, dir);
    LoadedReads(b, m, c, d, offset, buf, r);
    LoadedOutside(b, m, c, d, offset, buf, r);
    RootNotStart(v, file, ch, dir, offset);
    ContentFrame(v, b, dir);
  }

  lemma {:induction false} RootNotStart(v: Vol, file: DirEntry, ch: seq<nat>, dir: seq<nat>, offset: nat)
    requires Loadable(v, file, ch, dir, offset) && (file.start == 0 ==> FirstFree(v.table, 0) < |v.table|)
    ensures LoadBase(v, file, ch).1 != [] && LoadBase(v, file, ch).1[0] != 0
  {
  }

  /** The clusters a file has to be written to. */
  ghost function Room(v: Vol, file: DirEntry, ch: seq<nat>): nat {
    Start((if file.start == 0 then 0 else |ch|) + |FreeSet(v.table)|, v.bpc)
  }

  /** What the writer answers: -1 for a directory, or if there is no first cluster, and else how much it has written, which
      is all there is room for. */
  lemma {:induction false} LoaderAnswers(v: Vol, m: Vol, w: Vol, file: DirEntry, ch: seq<nat>, dir: seq<nat>, offset: nat,
                                         buf: seq<Byte>, r: int, after: DirEntry, d: seq<nat>)
    requires v.Valid() && file.Valid() && LoaderOutcome(v, m, w, file, ch, dir, offset, buf, r, after, d)
    ensures r == -1 <==> file.IsDir() || (file.start == 0 && FreeSet(v.table) == {})
    ensures r == -1 ==> w == v
    ensures r != -1 ==> r == if offset + |buf| <= Room(v, file, ch) then |buf| else Room(v, file, ch) - offset
  {
    hide Loaded, IsChain, Patched, Slots, Content, Encode, CStr, Find, EntryUpdated, Start;
    AnyFree(v.table);
    if r != -1 {
      var (b, c) := LoadBase(v, file, ch);
      LoadedAmount(b, m, c, d, offset, buf, r);
      if file.start == 0 {
        assert FreeSet(b.table) == FreeSet(v.table) - {c[0]};
      }
    }
  }

  lemma {:induction false} LoadableParts(v: Vol, file: DirEntry, ch: seq<nat>, dir: seq<nat>, offset: nat)
    requires Loadable(v, file, ch, dir, offset)
    ensures v.Valid() && v.Holds(dir) && v.table[0] != FREE
    ensures file.start != 0 ==> ch[0] == file.start
  {
  }

  /** The one store to the directory, once the data are written. */
  lemma {:induction false} EntryStored(m: Vol, w: Vol, dir: seq<nat>, d: seq<nat>, name: seq<Byte>, after: DirEntry)
    requires m.Valid() && IsChain(m.table, dir) && IsChain(m.table, d) && Apart(dir, d) && after.Valid()
    requires Find(DirOn(m, dir), name, true, 0) < |DirOn(m, dir)| && after.Name() == name
    requires EntryUpdated(m, w, dir, name, after, true)
    ensures w.Valid() && w.table == m.table && w.Holds(dir) && w.Holds(d) && m.Holds(d) && Content(w, d) == Content(m, d)
    ensures DirOn(w, dir) == DirOn(m, dir)[Find(DirOn(m, dir), name, true, 0) := after]
    ensures |name| < NAME_SIZE ==> Find(DirOn(w, dir), name, true, 0) == Find(DirOn(m, dir), name, true, 0)
  {
    hide Slots, Content, Encode, CStr;
    var k := Find(DirOn(m, dir), name, true, 0);
    SlotPatched(m, w, dir, k, after);
    PatchedApart(m, w, dir, ENTRY_SIZE * k, Encode(after), d);
    if |name| < NAME_SIZE {
      FindAt(DirOn(w, dir), name, true, k);
    }
  }

  /** The entry after a write that ended behind the old size. */
  lemma {:induction false} LoadedEntry(v: Vol, m: Vol, w: Vol, file: DirEntry, ch: seq<nat>, dir: seq<nat>, offset: nat,
                                       buf: seq<Byte>, r: int, after: DirEntry, d: seq<nat>)
    requires Loadable(v, file, ch, dir, offset) && v.Valid() && file.Valid() && v.Holds(dir)
    requires LoaderOutcome(v, m, w, file, ch, dir, offset, buf, r, after, d) && r >= 0 && offset + r > file.size
    requires Find(DirOn(v, dir), file.Name(), true, 0) < |DirOn(v, dir)|
    ensures r <= |buf| && EntryTells(v, w, file, dir, d, offset, buf[..r])
  {
    hide Loaded, IsChain, Loadable, Patched, Slots, Content, Encode, CStr, EntryUpdated, Find, Apart;
    AnyFree(v.table);
    DirLoaded(v, m, file, ch, dir, offset, buf, r, d);
    LoadableParts(v, file, ch, dir, offset);
    EntryStored(m, w, dir, d, file.Name(), after);
  }

  /** A file without a cluster that is given one by a write that ends within its size, as an empty write does: no entry
      says so, and the cluster is lost. */
  lemma {:induction false} FirstClusterLost(v: Vol, m: Vol, w: Vol, file: DirEntry, ch: seq<nat>, dir: seq<nat>,
                                            offset: nat, buf: seq<Byte>, r: int, after: DirEntry, d: seq<nat>)
    requires Loadable(v, file, ch, dir, offset) && v.Valid() && file.Valid() && v.Holds(dir)
    requires LoaderOutcome(v, m, w, file, ch, dir, offset, buf, r, after, d) && r >= 0 && offset + r <= file.size
    requires file.start == 0
    ensures w.Valid() && w.Holds(dir) && DirOn(w, dir) == DirOn(v, dir)
    ensures d != [] && d[0] < |v.table| == |w.table| && v.table[d[0]] == FREE && w.table[d[0]] != FREE
  {
    hide Loaded, IsChain, Loadable, Patched, Slots, Content, Encode, CStr, Find, Apart;
    AnyFree(v.table);
    DirLoaded(v, m, file, ch, dir, offset, buf, r, d);
    var (b, c) := LoadBase(v, file, ch);
    LoadedOutside(b, m, c, d, offset, buf, r);
    ChainInUse(m.table, d);
  }

  /** The update of the entry, which is in no copy of the FAT. */
  method NoteSize(vol: Volume, name: seq<Byte>, start: nat, after: DirEntry, ghost m: Vol, ghost dir: seq<nat>)
    requires vol.Valid() && vol.V() == m && CopiesFit(vol.g) && IsChain(m.table, dir) && dir[0] == start && after.Valid()
    modifies vol`disk
    ensures vol.Valid() && m.Valid() && EntryUpdated(m, vol.V(), dir, name, after, true)
    ensures Copies(vol) == old(Copies(vol)) && vol.V().table == m.table
  {
    hide IsChain, Patched, LinksInRange, CopiesOn, Walked;
    ghost var disk := vol.disk;
    ChainIsWalked(m.table, dir);
    var ok := vol.UpdateDirEntry(name, start, after, dir);
    CopiesBelow(vol.g, disk, vol.disk);
  }

  /** `fat_write` of the loader. */
  method Write(vol: Volume, file: DirEntry, parent: DirEntry, offset: nat, buffer: seq<Byte>, ghost v: Vol,
               ghost ch: seq<nat>, ghost dir: seq<nat>)
    returns (r: int, after: DirEntry, ghost m: Vol, ghost d: seq<nat>)
    requires vol.Valid() && vol.V() == v && CopiesFit(vol.g) && offset + |buffer| < 0x1_0000_0000 && file.Valid()
    requires !file.IsDir() ==> Loadable(v, file, ch, dir, offset) && dir[0] == parent.start
    modifies vol`disk, vol.fat
    ensures vol.Valid() && LoaderOutcome(v, m, vol.V(), file, ch, dir, offset, buffer, r, after, d)
    ensures CopiesFollow(old(Copies(vol)), Copies(vol), vol.V().table, TouchedBy(file, ch, d))
    ensures r == -1 <==> file.IsDir() || (file.start == 0 && FreeSet(v.table) == {})
    ensures r != -1 ==> r == if offset + |buffer| <= Room(v, file, ch) then |buffer| else Room(v, file, ch) - offset
    ensures r >= 0 ==> v.Valid() && v.Holds(dir) && r <= |buffer|
    ensures r >= 0 && offset + r > file.size && Find(DirOn(v, dir), file.Name(), true, 0) < |DirOn(v, dir)| ==>
      EntryTells(v, vol.V(), file, dir, d, offset, buffer[..r])
  {
    hide Loaded, IsChain, Patched, LinksInRange, CopiesOn, AllLinked, CopiesFollow, Loadable, Apart, LoaderOutcome,
         EntryTells, Find, Slots, Room, FreeSet;
    after, m, d := file, v, [];
    ghost var s := Copies(vol);
    CopiesSame(s, v.table);
    if file.IsDir() {
      NotLoaded(v, file, ch, dir, offset, buffer);
      LoaderAnswers(v, v, v, file, ch, dir, offset, buffer, -1, file, []);
      return -1, file, v, [];
    }
    ghost var b, c := v, ch;
    if file.start == 0 {
      var n := FirstCluster(vol);
      if n == -1 {
        NotLoaded(v, file, ch, dir, offset, buffer);
        LoaderAnswers(v, v, v, file, ch, dir, offset, buffer, -1, file, []);
        return -1, file, v, [];
      }
      after := after.(start := n);
    }
    BaseReady(v, file, ch, dir, offset);
    b, c := LoadBase(v, file, ch).0, LoadBase(v, file, ch).1;
    ghost var u := Copies(vol);
    var written;
    written, d := CopyOut(vol, after.start, offset, buffer, b, c);
    m := vol.V();
    LoadedBase(b, m, c, d, offset, buffer, written);
    LoadedKeeps(b, m, c, d, offset, buffer, written, dir);
    assert CopiesFollow(s, Copies(vol), m.table, TouchedBy(file, ch, d)) by {
      LoadedFollows(v, file, ch, s, u, Copies(vol), m, d, offset, buffer, written);
    }
    r := written;
    if offset + written > file.size {
      after := after.(size := offset + written);
      NoteSize(vol, file.Name(), parent.start, after, m, dir);
    }
    LoadedOutcome(v, m, vol.V(), file, ch, dir, offset, buffer, written, after, d);
    LoaderAnswers(v, m, vol.V(), file, ch, dir, offset, buffer, r, after, d);
    LoadableParts(v, file, ch, dir, offset);
    if offset + r > file.size && Find(DirOn(v, dir), file.Name(), true, 0) < |DirOn(v, dir)| {
      LoadedEntry(v, m, vol.V(), file, ch, dir, offset, buffer, r, after, d);
    }
  }
}
