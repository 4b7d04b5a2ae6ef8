/** Files as byte strings: what reading and writing mean. */
module FileContents {
  import opened CText
  import opened FiniteSets
  import opened DirEntries
  import opened Directory
  import opened FatTable
  import opened Volumes
  import opened ChainGrowth

  /** The file described by `file` is stored on `ch`, which has room for all its bytes. */
  ghost predicate FileOn(v: Vol, file: DirEntry, ch: seq<nat>) {
    && v.Valid() && IsChain(v.table, ch)
    && file.Valid() && ch[0] == file.start && file.start != 0
    && file.size <= |Content(v, ch)|
  }

  ghost function FileBytes(v: Vol, file: DirEntry, ch: seq<nat>): (b: seq<Byte>)
    requires FileOn(v, file, ch)
    ensures |b| == file.size
  {
    Content(v, ch)[..file.size]
  }

  /** The part of `b` a read of `n` bytes at `o` delivers. */
  function Range(b: seq<Byte>, o: nat, n: nat): (r: seq<Byte>)
    ensures |r| == if o + n <= |b| then n else if o < |b| then |b| - o else 0
    ensures forall i :: 0 <= i < |r| ==> r[i] == b[o + i]
  {
    if o >= |b| then [] else if o + n > |b| then b[o..] else b[o..o + n]
  }

  /** `new_cluster_amount - curr_cluster_amount` as the `uint32_t` the allocation loop counts to. */
  function MissingClusters(bpc: nat, size: nat, have: nat): nat
    requires bpc > 0
  {
    (size / bpc + 1 - have) % 0x1_0000_0000
  }

  /** A stretch of the chain inside its i-th cluster. */
  lemma {:induction false} ContentInCluster(v: Vol, ch: seq<nat>, i: nat, o: nat, n: nat)
    requires v.Valid() && v.Holds(ch) && i < |ch| && o + n <= v.bpc
    ensures Start(i, v.bpc) + o + n <= |Content(v, ch)|
    ensures Content(v, ch)[Start(i, v.bpc) + o..Start(i, v.bpc) + o + n] == v.data[ch[i]][o..o + n]
  {
    ContentCluster(v, ch, i);
    SliceOfSlice(Content(v, ch), Start(i, v.bpc), v.bpc, o, n);
  }

  lemma {:induction false} SliceNext(s: seq<Byte>, a: nat, b: nat, c: nat)
    requires a <= b <= c <= |s|
    ensures s[a..b] + s[b..c] == s[a..c]
  {
  }

  /** A byte of the chain lies in the cluster its offset divided by `m` names. */
  lemma {:induction false} InsideChain(x: nat, k: nat, m: nat)
    requires m > 0 && x < Start(k, m)
    ensures x / m < k && Start(x / m, m) + x % m == x
  {
    StartOf(x, m);
    if x / m > k {
      StartMonotone(k, x / m, m);
    }
  }

  lemma {:induction false} AtMostChain(x: nat, k: nat, m: nat)
    requires m > 0 && x <= Start(k, m)
    ensures x / m <= k && Start(x / m, m) + x % m == x
  {
    StartOf(x, m);
    if x / m > k {
      StartMonotone(k, x / m, m);
    }
  }

  lemma {:induction false} BeforeChainEnd(i: nat, k: nat, m: nat)
    requires Start(i, m) < Start(k, m)
    ensures i < k
  {
    if i > k {
      StartMonotone(k, i, m);
    }
  }

  // --- growing a file ----------------------------------------------------------------------

  /** Chains apart from the one that grows keep their clusters and their bytes. */
  lemma {:induction false} GrowthKeeps(v: Vol, ch: seq<nat>, k: nat, other: seq<nat>)
    requires v.Valid() && IsChain(v.table, ch) && |v.table| > 0 && v.table[0] != FREE
    requires IsChain(v.table, other) && forall c :: c in other ==> c !in ch
    ensures var (ok, w, d) := GrownBy(v, ch, k);
            && IsChain(w.table, other) && Content(w, other) == Content(v, other)
            && forall c :: c in other ==> c !in d
  {
    GrowthAdds(v, ch, k);
    var (ok, w, d) := GrownBy(v, ch, k);
    ChainInUse(v.table, other);
    forall c | c in other
      ensures c !in d && w.table[c] == v.table[c] && w.data[c] == v.data[c]
    {
      assert c !in d[|ch|..];
      assert d == d[..|ch|] + d[|ch|..];
      assert Last(ch) in ch;
    }
    ChainFrame(v.table, w.table, other);
    ContentFrame(v, w, other);
  }

  lemma {:induction false} SplitOff(t: Table)
    requires t != []
    ensures var (n, u) := (|t| - 1, t[..|t| - 1]);
            && |InUse(t)| == |InUse(u)| + (if t[n] == FREE then 0 else 1)
            && |FreeSet(t)| == |FreeSet(u)| + (if t[n] == FREE then 1 else 0)
  {
    var n, u := |t| - 1, t[..|t| - 1];
    if t[n] == FREE {
      assert InUse(t) == InUse(u) && FreeSet(t) == FreeSet(u) + {n};
    } else {
      assert InUse(t) == InUse(u) + {n} && FreeSet(t) == FreeSet(u);
    }
  }

  /** Every entry is either in use or free. */
  lemma {:induction false} TableSplit(t: Table)
    ensures |InUse(t)| + |FreeSet(t)| == |t|
  {
    if t != [] {
      var n, u := |t| - 1, t[..|t| - 1];
      TableSplit(u);
      SplitOff(t);
    }
  }

  ghost function Members(ch: seq<nat>): set<nat> {
    set i | 0 <= i < |ch| :: ch[i]
  }

  lemma {:induction false} DistinctSize(ch: seq<nat>)
    requires Distinct(ch)
    ensures |Members(ch)| == |ch|
  {
    if ch != [] {
      var front := ch[..|ch| - 1];
      DistinctSize(front);
      assert Members(ch) == Members(front) + {Last(ch)};
    }
  }

  /** A chain has no more clusters than the table has entries. */
  lemma {:induction false} ChainShort(t: Table, ch: seq<nat>)
    requires LinksInRange(t) && IsChain(t, ch)
    ensures |ch| <= |t|
  {
    ChainDistinct(t, ch);
    ChainInUse(t, ch);
    DistinctSize(ch);
    SubsetSize(Members(ch), InUse(t));
    TableSplit(t);
  }

  lemma {:induction false} QuotientSmall(x: nat, m: nat)
    requires m >= 512
    ensures 512 * (x / m) <= x
  {
    StartOf(x, m);
    StartIsProduct(x / m, m);
    assert x / m * 512 <= x / m * m;
  }

  lemma {:induction false} UnsignedDifference(need: nat, have: nat, free: nat)
    requires need < 0x8000_0000 && have < 0x10000 && free < 0x10000
    ensures var k := (need - have) % 0x1_0000_0000;
            (k <= free <==> have <= need <= have + free) && (k <= free ==> have + k == need)
  {
    assert (need - have) % 0x1_0000_0000 == if have <= need then need - have else 0x1_0000_0000 + need - have;
  }

  lemma {:induction false} GrowthTo(v: Vol, ch: seq<nat>, need: nat)
    requires v.Valid() && IsChain(v.table, ch) && |v.table| > 0 && v.table[0] != FREE
    requires need < 0x8000_0000
    ensures var (ok, w, d) := GrownBy(v, ch, (need - |ch|) % 0x1_0000_0000);
            ok == (|ch| <= need <= |ch| + |FreeSet(v.table)|) && (ok ==> |d| == need)
  {
    TableSplit(v.table);
    ChainShort(v.table, ch);
    UnsignedDifference(need, |ch|, |FreeSet(v.table)|);
    GrowthAdds(v, ch, (need - |ch|) % 0x1_0000_0000);
  }

  lemma {:induction false} ClustersSuffice(bpc: nat, size: nat)
    requires bpc >= 512 && size < 0x1_0000_0000
    ensures size / bpc + 1 < 0x8000_0000
    ensures size < Start(size / bpc + 1, bpc)
  {
    QuotientSmall(size, bpc);
    StartOf(size, bpc);
  }

  lemma {:induction false} BlockSize(v: Vol)
    requires v.Valid()
    ensures v.bpc >= 512
  {
  }

  /** Growth to `need` clusters, when they hold more than `size` bytes. */
  lemma {:induction false} GrowthEnough(v: Vol, ch: seq<nat>, need: nat, size: nat)
    requires v.Valid() && IsChain(v.table, ch) && |v.table| > 0 && v.table[0] != FREE
    requires need < 0x8000_0000 && size < Start(need, v.bpc)
    ensures var (ok, w, d) := GrownBy(v, ch, (need - |ch|) % 0x1_0000_0000);
            && ok == (|ch| <= need <= |ch| + |FreeSet(v.table)|)
            && (ok ==> w.Holds(d) && |d| == need && size < |Content(w, d)|)
  {
    hide Content, GrownBy, Start;
    GrowthTo(v, ch, need);
  }

  /** Growth for a file of `size` bytes succeeds exactly when the chain is not already longer than
      size / bpc + 1 clusters and there are clusters enough; it then has exactly that length. If the
      chain is longer, the unsigned count wraps around and no disk has so many clusters. */
  lemma {:induction false} GrowthSucceeds(v: Vol, ch: seq<nat>, size: nat)
    requires v.Valid() && IsChain(v.table, ch) && |v.table| > 0 && v.table[0] != FREE
    requires size < 0x1_0000_0000
    ensures var (ok, w, d) := GrownBy(v, ch, MissingClusters(v.bpc, size, |ch|));
            && ok == (|ch| <= size / v.bpc + 1 <= |ch| + |FreeSet(v.table)|)
            && (ok ==> |d| == size / v.bpc + 1 && size < |Content(w, d)|)
  {
    hide IsChain, Content, GrownBy, Start, FreeSet, LinksInRange;
    BlockSize(v);
    ClustersSuffice(v.bpc, size);
    GrowthEnough(v, ch, size / v.bpc + 1, size);
  }

  // --- what the file operations do ---------------------------------------------------------

  ghost predicate Apart(a: seq<nat>, b: seq<nat>) {
    forall c :: c in a ==> c !in b
  }

  /** What a growing `fat_truncate` and `fat_write` ask for: the file, and the directory that holds its entry. */
  ghost predicate Growable(v: Vol, file: DirEntry, ch: seq<nat>, dir: seq<nat>) {
    && FileOn(v, file, ch) && IsChain(v.table, dir) && Apart(dir, ch)
    && |v.table| > 0 && v.table[0] != FREE && |file.Name()| < NAME_SIZE
  }

  /** `fat_truncate` to a larger size: result `r`, entry `after`, chain `d`. It may stop half way,
      with the chain longer but the entry unchanged. */
  ghost predicate Extended(v: Vol, w: Vol, file: DirEntry, ch: seq<nat>, dir: seq<nat>, size: nat, r: int,
                           after: DirEntry, d: seq<nat>)
    requires Growable(v, file, ch, dir) && file.size < size < 0x1_0000_0000
  {
    var (ok, u, c) := GrownBy(v, ch, MissingClusters(v.bpc, size, |ch|));
    GrowthKeeps(v, ch, MissingClusters(v.bpc, size, |ch|), dir);
    var k := Find(DirOn(u, dir), file.Name(), true, 0);
    && d == c
    && if ok && k < |DirOn(u, dir)| then
         && r == 0 && after == file.(size := size)
         && Patched(u, w, dir, ENTRY_SIZE * k, Encode(after))
       else
         r == -1 && after == file && w == u
  }

  /** `fat_write`. A write that ends behind the end of the file extends it first. */
  ghost predicate Written(v: Vol, w: Vol, file: DirEntry, ch: seq<nat>, dir: seq<nat>, offset: nat, buf: seq<Byte>,
                          r: int, after: DirEntry, d: seq<nat>)
    requires Growable(v, file, ch, dir) && offset + |buf| < 0x1_0000_0000
  {
    if offset + |buf| <= file.size then
      r == |buf| && after == file && d == ch && Patched(v, w, ch, offset, buf)
    else
      || (r == -1 && Extended(v, w, file, ch, dir, offset + |buf|, -1, after, d))
      || (r == |buf| && exists m: Vol :: Extended(v, m, file, ch, dir, offset + |buf|, 0, after, d)
                                      && m.Valid() && m.Holds(d) && Patched(m, w, d, offset, buf))
  }

  lemma {:induction false} RangeOfFile(v: Vol, file: DirEntry, ch: seq<nat>, offset: nat, size: nat)
    requires FileOn(v, file, ch) && offset < file.size
    ensures var n := if offset + size > file.size then file.size - offset else size;
            Content(v, ch)[offset..offset + n] == Range(FileBytes(v, file, ch), offset, size)
  {
  }

  /** After a successful extension the chain holds the whole file. */
  lemma {:induction false} ExtendedRoom(v: Vol, w: Vol, file: DirEntry, ch: seq<nat>, dir: seq<nat>, size: nat,
                                        after: DirEntry, d: seq<nat>)
    requires Growable(v, file, ch, dir) && file.size < size < 0x1_0000_0000
    requires Extended(v, w, file, ch, dir, size, 0, after, d)
    ensures w.Valid() && IsChain(w.table, d) && d[0] == file.start == after.start
    ensures size <= |Content(w, d)|
  {
    var k := MissingClusters(v.bpc, size, |ch|);
    var (ok, u, c) := GrownBy(v, ch, k);
    GrowthAdds(v, ch, k);
    GrowthSucceeds(v, ch, size);
    assert d[0] == d[..|ch|][0];
  }

  lemma {:induction false} GrownFile(v: Vol, file: DirEntry, ch: seq<nat>, dir: seq<nat>, size: nat)
    requires Growable(v, file, ch, dir) && file.size < size < 0x1_0000_0000
    ensures var (ok, u, d) := GrownBy(v, ch, MissingClusters(v.bpc, size, |ch|));
            ok ==> Growable(u, file.(size := size), d, dir) && d[0] == file.start
  {
    var k := MissingClusters(v.bpc, size, |ch|);
    var (ok, u, d) := GrownBy(v, ch, k);
    GrowthAdds(v, ch, k);
    GrowthSucceeds(v, ch, size);
    GrowthKeeps(v, ch, k, dir);
    assert d[0] == d[..|ch|][0];
  }

  /** Writing no bytes at the end of the file changes nothing. */
  lemma {:induction false} NothingWritten(v: Vol, w: Vol, file: DirEntry, ch: seq<nat>, dir: seq<nat>, r: int,
                                          after: DirEntry, d: seq<nat>)
    requires Growable(v, file, ch, dir)
    requires Written(v, w, file, ch, dir, file.size, [], r, after, d)
    ensures w == v && r == 0 && after == file && d == ch
  {
    PatchedNothing(v, ch, file.size);
    PatchedUnique(v, w, v, ch, file.size, []);
  }

  lemma {:induction false} ExtendedNot(v: Vol, u: Vol, file: DirEntry, ch: seq<nat>, dir: seq<nat>, size: nat, ok: bool,
                                       d: seq<nat>)
    requires Growable(v, file, ch, dir) && file.size < size < 0x1_0000_0000
    requires GrownBy(v, ch, MissingClusters(v.bpc, size, |ch|)) == (ok, u, d)
    requires ok ==> u.Holds(dir) && Find(DirOn(u, dir), file.Name(), true, 0) == |DirOn(u, dir)|
    ensures Extended(v, u, file, ch, dir, size, -1, file, d)
  {
  }

  lemma {:induction false} ExtendedDone(v: Vol, u: Vol, w: Vol, file: DirEntry, ch: seq<nat>, dir: seq<nat>, size: nat,
                                        d: seq<nat>)
    requires Growable(v, file, ch, dir) && file.size < size < 0x1_0000_0000
    requires GrownBy(v, ch, MissingClusters(v.bpc, size, |ch|)) == (true, u, d)
    requires u.Holds(dir) && Find(DirOn(u, dir), file.Name(), true, 0) < |DirOn(u, dir)|
    requires Patched(u, w, dir, ENTRY_SIZE * Find(DirOn(u, dir), file.Name(), true, 0), Encode(file.(size := size)))
    ensures Extended(v, w, file, ch, dir, size, 0, file.(size := size), d)
  {
  }
}
