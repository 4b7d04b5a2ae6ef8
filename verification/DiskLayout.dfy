/** Where the FAT and the clusters lie on the disk. */
module DiskLayout {
  import opened CText
  import opened FatTable
  import opened Volumes

  const SECTOR: nat := 512
  const WORDS_PER_SECTOR: nat := 256

  /** The part of `FAT16_FS` the file system uses; bytes_per_sector is 512. */
  datatype Geometry = Geometry(reserved: nat, numFats: nat, sectorsPerFat: nat, sectorsPerCluster: nat,
                               rootEntries: nat, rootDirStart: nat) {
    predicate Valid() {
      && 0 < numFats < 0x100 && 0 < sectorsPerFat < 0x100 && 0 < sectorsPerCluster < 0x100
      && 0 < reserved && rootEntries < 0x10000
      && reserved + sectorsPerFat <= rootDirStart
    }

    /** `total_fat_entries`: fewer than 0xFFF7, see Valid. */
    function Entries(): nat { sectorsPerFat * WORDS_PER_SECTOR }

    function Bpc(): nat { SECTOR * sectorsPerCluster }

    /** The sector cluster `c` starts at; the root directory is cluster 0. */
    function ClusterSector(c: nat): nat { c * sectorsPerCluster + rootDirStart }

    /** The first byte of cluster `c`: the clusters follow one another from `rootDirStart` on. */
    function ClusterByte(c: nat): nat { SECTOR * rootDirStart + Start(c, Bpc()) }

    /** The first byte of entry `i` of the first FAT. */
    function EntryByte(i: nat): nat { SECTOR * reserved + 2 * i }

    /** The disk is large enough for every cluster the FAT has an entry for. */
    predicate Fits(disk: seq<Byte>) { ClusterByte(Entries()) <= |disk| }
  }

  const SIGNATURE: nat := 0xAA55

  /** The fields `fat_init` parses out of the boot sector, and the start it computes from them. */
  function GeometryOf(boot: seq<Byte>): Geometry
    requires |boot| >= SECTOR
  {
    var reserved, numFats, sectorsPerFat := Word(boot, 14), boot[16] as int, Word(boot, 22);
    Geometry(reserved, numFats, sectorsPerFat, boot[13] as int, Word(boot, 17), reserved + numFats * sectorsPerFat)
  }

  /** The copies of the FAT follow one another, and the clusters start behind the last. */
  predicate CopiesFit(g: Geometry) {
    g.Valid() && g.reserved + Start(g.numFats, g.sectorsPerFat) <= g.rootDirStart
  }

  lemma {:induction false} ClusterSectorByte(g: Geometry, c: nat)
    ensures SECTOR * g.ClusterSector(c) == g.ClusterByte(c)
  {
    StartIsProduct(c, g.Bpc());
    assert SECTOR * (c * g.sectorsPerCluster) == c * g.Bpc();
  }

  lemma {:induction false} ClusterInside(g: Geometry, c: nat, d: nat)
    requires c < d
    ensures g.ClusterByte(c) + g.Bpc() <= g.ClusterByte(d)
  {
    StartMonotone(c, d, g.Bpc());
  }

  /** The first FAT lies below every cluster. */
  lemma {:induction false} FatBelowClusters(g: Geometry, c: nat)
    requires g.Valid()
    ensures g.EntryByte(g.Entries()) <= g.ClusterByte(c)
  {
  }

  function ClusterOn(g: Geometry, disk: seq<Byte>, c: nat): (b: seq<Byte>)
    requires g.Fits(disk) && c < g.Entries()
    ensures |b| == g.Bpc()
  {
    ClusterInside(g, c, g.Entries());
    disk[g.ClusterByte(c)..g.ClusterByte(c) + g.Bpc()]
  }

  function ClustersOn(g: Geometry, disk: seq<Byte>): (d: seq<seq<Byte>>)
    requires g.Fits(disk)
    ensures |d| == g.Entries()
  {
    seq(g.Entries(), c requires 0 <= c < g.Entries() => ClusterOn(g, disk, c))
  }

  /** The first FAT copy on the disk. */
  function TableOn(g: Geometry, disk: seq<Byte>): (t: Table)
    requires g.Valid() && g.Fits(disk)
    ensures |t| == g.Entries()
  {
    FatBelowClusters(g, g.Entries());
    seq(g.Entries(), i requires 0 <= i < g.Entries() => Word(disk, g.EntryByte(i)))
  }

  /** Writing one cluster changes that cluster and leaves the FAT alone. */
  lemma {:induction false} WriteClusterOn(g: Geometry, disk: seq<Byte>, c: nat, b: seq<Byte>)
    requires g.Valid() && g.Fits(disk) && c < g.Entries() && |b| == g.Bpc()
    ensures g.ClusterByte(c) + |b| <= |disk|
    ensures g.Fits(Splice(disk, g.ClusterByte(c), b))
    ensures ClustersOn(g, Splice(disk, g.ClusterByte(c), b)) == ClustersOn(g, disk)[c := b]
    ensures TableOn(g, Splice(disk, g.ClusterByte(c), b)) == TableOn(g, disk)
  {
    ClusterInside(g, c, g.Entries());
    var d := Splice(disk, g.ClusterByte(c), b);
    forall x | 0 <= x < g.Entries()
      ensures ClusterOn(g, d, x) == if x == c then b else ClusterOn(g, disk, x)
    {
      if x < c { ClusterInside(g, x, c); }
      if x > c { ClusterInside(g, c, x); }
      ClusterInside(g, x, g.Entries());
    }
    FatBelowClusters(g, c);
    forall i | 0 <= i < g.Entries()
      ensures Word(d, g.EntryByte(i)) == Word(disk, g.EntryByte(i))
    {
    }
  }

  /** The disks differ in clusters only. */
  predicate SameBelow(g: Geometry, a: seq<Byte>, b: seq<Byte>) {
    g.ClusterByte(0) <= |a| == |b| && a[..g.ClusterByte(0)] == b[..g.ClusterByte(0)]
  }

  lemma {:induction false} WriteClusterBelow(g: Geometry, disk: seq<Byte>, c: nat, b: seq<Byte>)
    requires g.Fits(disk) && c < g.Entries() && |b| == g.Bpc()
    ensures g.ClusterByte(c) + |b| <= |disk|
    ensures SameBelow(g, disk, Splice(disk, g.ClusterByte(c), b))
  {
    ClusterInside(g, c, g.Entries());
    if c > 0 {
      ClusterInside(g, 0, c);
    }
  }

  lemma {:induction false} NothingBelow(g: Geometry, disk: seq<Byte>)
    requires g.Valid() && g.Fits(disk)
    ensures SameBelow(g, disk, disk)
  {
  }

  /** Every entry is a 16-bit word. */
  predicate Words(t: Table) {
    forall k :: 0 <= k < |t| ==> t[k] < 0x10000
  }

  /** `u` is `t` but for entry `i`. */
  predicate DiffersAt(t: Table, u: Table, i: nat) {
    && i < |t| == |u|
    && u[i] < 0x10000
    && forall k :: 0 <= k < |t| && k != i ==> u[k] == t[k]
  }

  /** A stretch of the in-memory FAT as the bytes `ata_write` puts on the disk. */
  function TableBytes(t: Table): (b: seq<Byte>)
    requires Words(t)
    ensures |b| == 2 * |t|
    ensures forall i :: 0 <= i < |t| ==> Word(b, 2 * i) == t[i]
  {
    var b := seq(2 * |t|, j requires 0 <= j < 2 * |t| => WordBytes(t[j / 2])[j % 2]);
    assert forall i :: 0 <= i < |t| ==> Word(b, 2 * i) == t[i] by {
      forall i | 0 <= i < |t|
        ensures Word(b, 2 * i) == t[i]
      {
        WordRoundTrip(t[i]);
        assert b[2 * i] == WordBytes(t[i])[0] && b[2 * i + 1] == WordBytes(t[i])[1];
      }
    }
    b
  }

  /** The index in the table of the slice written after entry `i` changed. */
  function SliceStart(i: nat): (first: nat)
    ensures first == i / WORDS_PER_SECTOR * WORDS_PER_SECTOR
    ensures first <= i < first + WORDS_PER_SECTOR
  {
    i * 2 / SECTOR * SECTOR / 2
  }

  lemma {:induction false} SliceInside(i: nat, n: nat)
    requires i < n && n % WORDS_PER_SECTOR == 0
    ensures SliceStart(i) + WORDS_PER_SECTOR <= n
  {
    var q := i / WORDS_PER_SECTOR;
    assert q < n / WORDS_PER_SECTOR;
  }

  /** The sector slice of the table that holds entry `i`. */
  function SectorOf(t: Table, i: nat): (s: Table)
    requires i < |t| && |t| % WORDS_PER_SECTOR == 0
    ensures |s| == WORDS_PER_SECTOR
  {
    SliceInside(i, |t|);
    var first := SliceStart(i);
    t[first..first + WORDS_PER_SECTOR]
  }

  lemma {:induction false} WordInside(disk: seq<Byte>, at: nat, b: seq<Byte>, k: nat)
    requires at + |b| <= |disk| && k + 2 <= |b|
    ensures Word(Splice(disk, at, b), at + k) == Word(b, k)
  {
  }

  lemma {:induction false} WordOutside(disk: seq<Byte>, at: nat, b: seq<Byte>, k: nat)
    requires at + |b| <= |disk| && k + 2 <= |disk| && (k + 2 <= at || at + |b| <= k)
    ensures Word(Splice(disk, at, b), k) == Word(disk, k)
  {
  }

  /** Writing below the clusters changes none of them. */
  lemma {:induction false} WriteBelowClusters(g: Geometry, disk: seq<Byte>, at: nat, b: seq<Byte>)
    requires g.Valid() && g.Fits(disk) && at + |b| <= g.EntryByte(g.Entries())
    ensures at + |b| <= |disk| && g.Fits(Splice(disk, at, b))
    ensures ClustersOn(g, Splice(disk, at, b)) == ClustersOn(g, disk)
  {
    FatBelowClusters(g, g.Entries());
    var d := Splice(disk, at, b);
    forall c | 0 <= c < g.Entries()
      ensures ClusterOn(g, d, c) == ClusterOn(g, disk, c)
    {
      FatBelowClusters(g, c);
      ClusterInside(g, c, g.Entries());
    }
  }

  /** Writing at or after the first FAT leaves the sectors before it alone. */
  lemma {:induction false} WriteAfterBoot(g: Geometry, disk: seq<Byte>, at: nat, b: seq<Byte>)
    requires g.EntryByte(0) <= at && at + |b| <= |disk|
    ensures Splice(disk, at, b)[..g.EntryByte(0)] == disk[..g.EntryByte(0)]
  {
  }

  /** Entry `k` after a sector of entries from `first` on is written. */
  lemma {:induction false} EntryAfterWrite(g: Geometry, disk: seq<Byte>, u: Table, first: nat, k: nat)
    requires g.Valid() && first + WORDS_PER_SECTOR <= |u| == g.Entries() && k < |u| && Words(u)
    requires g.EntryByte(first) + SECTOR <= |disk| && g.EntryByte(k) + 2 <= |disk|
    requires !(first <= k < first + WORDS_PER_SECTOR) ==> u[k] == Word(disk, g.EntryByte(k))
    ensures Word(Splice(disk, g.EntryByte(first), TableBytes(u[first..first + WORDS_PER_SECTOR])), g.EntryByte(k)) == u[k]
  {
    hide Splice, Word, TableBytes;
    var at, b := g.EntryByte(first), TableBytes(u[first..first + WORDS_PER_SECTOR]);
    if first <= k < first + WORDS_PER_SECTOR {
      WordInside(disk, at, b, 2 * (k - first));
      assert u[first..first + WORDS_PER_SECTOR][k - first] == u[k];
    } else {
      WordOutside(disk, at, b, g.EntryByte(k));
    }
  }

  lemma {:induction false} WriteWordsOn(g: Geometry, disk: seq<Byte>, t: Table, u: Table, first: nat)
    requires g.Valid() && g.Fits(disk) && TableOn(g, disk) == t && |u| == |t|
    requires first + WORDS_PER_SECTOR <= |t|
    requires Words(u)
    requires forall k :: 0 <= k < |t| && !(first <= k < first + WORDS_PER_SECTOR) ==> u[k] == t[k]
    ensures g.EntryByte(first) + SECTOR <= |disk|
    ensures var d := Splice(disk, g.EntryByte(first), TableBytes(u[first..first + WORDS_PER_SECTOR]));
            && g.Fits(d) && TableOn(g, d) == u && ClustersOn(g, d) == ClustersOn(g, disk)
            && d[..g.EntryByte(0)] == disk[..g.EntryByte(0)]
  {
    var at, b := g.EntryByte(first), TableBytes(u[first..first + WORDS_PER_SECTOR]);
    FatBelowClusters(g, g.Entries());
    WriteBelowClusters(g, disk, at, b);
    WriteAfterBoot(g, disk, at, b);
    var d := Splice(disk, at, b);
    forall k | 0 <= k < |t|
      ensures TableOn(g, d)[k] == u[k]
    {
      EntryAfterWrite(g, disk, u, first, k);
    }
  }

  /** The sector that holds entry `i`, and its place on the disk. */
  lemma {:induction false} SectorPlace(g: Geometry, i: nat, n: nat)
    requires i < n && n % WORDS_PER_SECTOR == 0
    ensures SECTOR * (g.reserved + i * 2 / SECTOR) == g.EntryByte(SliceStart(i))
    ensures SliceStart(i) + WORDS_PER_SECTOR <= n
  {
    SliceInside(i, n);
    assert i * 2 / SECTOR == i / WORDS_PER_SECTOR;
  }

  lemma {:induction false} WordsOnDisk(g: Geometry, disk: seq<Byte>)
    requires g.Valid() && g.Fits(disk)
    ensures Words(TableOn(g, disk))
  {
    FatBelowClusters(g, g.Entries());
    forall k | 0 <= k < g.Entries()
      ensures TableOn(g, disk)[k] < 0x10000
    {
      assert TableOn(g, disk)[k] == Word(disk, g.EntryByte(k));
    }
  }

  lemma {:induction false} SectorOnDisk(g: Geometry, disk: seq<Byte>, u: Table, i: nat)
    requires g.Valid() && g.Fits(disk) && DiffersAt(TableOn(g, disk), u, i)
    ensures Words(u)
    ensures SECTOR * (g.reserved + i * 2 / SECTOR) + SECTOR <= |disk|
  {
    WordsOnDisk(g, disk);
    SectorPlace(g, i, |u|);
    FatBelowClusters(g, g.Entries());
  }

  /** After entry `i` changed in RAM, writing back its sector makes disk and RAM agree again:
      the slice written always contains the changed entry, and no cluster is touched. */
  lemma {:induction false} WriteSectorOn(g: Geometry, disk: seq<Byte>, u: Table, i: nat, d: seq<Byte>)
    requires g.Valid() && g.Fits(disk) && DiffersAt(TableOn(g, disk), u, i) && Words(u)
    requires SECTOR * (g.reserved + i * 2 / SECTOR) + SECTOR <= |disk|
    requires d == Splice(disk, SECTOR * (g.reserved + i * 2 / SECTOR), TableBytes(SectorOf(u, i)))
    ensures g.Fits(d) && TableOn(g, d) == u && ClustersOn(g, d) == ClustersOn(g, disk)
    ensures d[..g.EntryByte(0)] == disk[..g.EntryByte(0)]
  {
    hide TableBytes, Splice, TableOn, ClustersOn, Words;
    SectorPlace(g, i, |u|);
    WriteWordsOn(g, disk, TableOn(g, disk), u, SliceStart(i));
  }
}
