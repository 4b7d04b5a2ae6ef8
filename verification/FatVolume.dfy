/** fat.c: the mounted volume, its FAT in memory and the disk it is written through to. */
module FatVolume {
  import opened CText
  import opened DirEntries
  import opened Directory
  import opened FatTable
  import opened Volumes
  import opened DiskLayout
  import opened ChainGrowth
  import opened FileContents

  class Volume {
    const g: Geometry
    const fat: array<nat>
    var disk: seq<Byte>
    /** The sectors before the first FAT, which nothing writes. */
    ghost const boot: seq<Byte>

    /** RAM and disk agree, and the FAT's links stay inside the FAT. */
    ghost predicate Valid()
      reads this, fat
    {
      && g.Valid() && g.Fits(disk)
      && fat.Length == g.Entries()
      && LinksInRange(fat[..])
      && TableOn(g, disk) == fat[..]
      && |boot| == g.EntryByte(0) <= |disk| && disk[..|boot|] == boot
    }

    /** The volume as a value. */
    ghost function V(): (v: Vol)
      reads this, fat
      requires Valid()
      ensures v.Valid() && |v.table| == fat.Length && v.bpc == g.Bpc()
    {
      BpcPositive(g);
      Vol(g.Bpc(), fat[..], ClustersOn(g, disk))
    }

    static lemma {:induction false} BpcPositive(g: Geometry)
      requires g.Valid()
      ensures g.Bpc() > 0 && g.Bpc() % 512 == 0
    {
    }

    /** `fat_init` after the boot sector is parsed: the first FAT copy, sector by sector. */
    constructor Load(image: seq<Byte>, geometry: Geometry)
      requires geometry.Valid() && geometry.Fits(image)
      requires LinksInRange(TableOn(geometry, image))
      ensures Valid() && disk == image && g == geometry && fresh(fat)
      ensures V() == Vol(g.Bpc(), TableOn(g, image), ClustersOn(g, image))
    {
      g, disk := geometry, image;
      fat := new nat[geometry.Entries()];
      boot := image[..if geometry.EntryByte(0) <= |image| then geometry.EntryByte(0) else 0];
      new;
      FatBelowClusters(g, g.Entries());
      for i := 0 to g.sectorsPerFat
        invariant disk == image
        invariant forall k :: 0 <= k < i * WORDS_PER_SECTOR ==> fat[k] == TableOn(g, image)[k]
      {
        var sector := AtaRead(g.reserved + i, 1);
        for j := 0 to WORDS_PER_SECTOR
          invariant disk == image
          invariant forall k :: 0 <= k < i * WORDS_PER_SECTOR + j ==> fat[k] == TableOn(g, image)[k]
        {
          fat[i * WORDS_PER_SECTOR + j] := Word(sector, 2 * j);
          assert g.EntryByte(i * WORDS_PER_SECTOR + j) == SECTOR * (g.reserved + i) + 2 * j;
        }
      }
      assert fat[..] == TableOn(g, image);
    }

    // --- the disk --------------------------------------------------------------------------

    method AtaRead(sector: nat, count: nat) returns (buf: seq<Byte>)
      requires SECTOR * (sector + count) <= |disk|
      ensures |buf| == SECTOR * count
      ensures buf == disk[SECTOR * sector..SECTOR * (sector + count)]
    {
      buf := disk[SECTOR * sector..SECTOR * (sector + count)];
    }

    method AtaWrite(sector: nat, buf: seq<Byte>)
      requires SECTOR * sector + |buf| <= |disk|
      modifies this`disk
      ensures disk == Splice(old(disk), SECTOR * sector, buf)
    {
      disk := disk[..SECTOR * sector] + buf + disk[SECTOR * sector + |buf|..];
    }

    /** `fat_read_data_cluster`. */
    method ReadCluster(c: nat) returns (buf: seq<Byte>)
      requires Valid() && c < fat.Length
      ensures buf == V().data[c] && |buf| == g.Bpc()
    {
      ClusterSectorByte(g, c);
      ClusterInside(g, c, g.Entries());
      buf := AtaRead(g.ClusterSector(c), g.sectorsPerCluster);
    }

    /** `fat_write_data_cluster`. */
    method WriteCluster(c: nat, buf: seq<Byte>)
      requires Valid() && c < fat.Length && |buf| == g.Bpc()
      modifies this`disk
      ensures Valid() && V() == old(V()).(data := old(V()).data[c := buf])
      ensures SameBelow(g, old(disk), disk)
    {
      ClusterSectorByte(g, c);
      WriteClusterBelow(g, disk, c, buf);
      WriteClusterOn(g, disk, c, buf);
      FatBelowClusters(g, c);
      AtaWrite(g.ClusterSector(c), buf);
    }

    /** The `ata_write` of the sector slice of `fat_table` that holds entry `i`. */
    method WriteTableSector(i: nat)
      requires i < fat.Length && fat.Length % WORDS_PER_SECTOR == 0 && Words(fat[..])
      requires SECTOR * (g.reserved + i * 2 / SECTOR) + SECTOR <= |disk|
      modifies this`disk
      ensures fat[..] == old(fat[..])
      ensures disk == Splice(old(disk), SECTOR * (g.reserved + i * 2 / SECTOR), TableBytes(SectorOf(old(fat[..]), i)))
    {
      SectorPlace(g, i, fat.Length);
      var first := SliceStart(i);
      var slice := fat[first..first + WORDS_PER_SECTOR];
      assert slice == SectorOf(fat[..], i);
      AtaWrite(g.reserved + i * 2 / SECTOR, TableBytes(slice));
    }

    /** Writing back the sector of the only entry in which RAM and disk differ. */
    method FlushSector(i: nat)
      requires g.Valid() && g.Fits(disk) && fat.Length == g.Entries()
      requires DiffersAt(TableOn(g, disk), fat[..], i)
      modifies this`disk
      ensures fat[..] == old(fat[..])
      ensures g.Fits(disk) && TableOn(g, disk) == old(fat[..])
      ensures ClustersOn(g, disk) == ClustersOn(g, old(disk))
      ensures g.EntryByte(0) <= |disk| && |disk| == |old(disk)|
      ensures disk[..g.EntryByte(0)] == old(disk)[..g.EntryByte(0)]
    {
      ghost var d, u := disk, fat[..];
      SectorOnDisk(g, d, u, i);
      WriteTableSector(i);
      WriteSectorOn(g, d, u, i, disk);
    }

    /** An assignment to `fat_table[i]` and the write of its sector. */
    method StoreEntry(i: nat, w: nat)
      requires Valid() && i < fat.Length
      requires w == FREE || w == CHAIN_END || w < fat.Length
      modifies this`disk, fat
      ensures Valid() && V() == old(V()).(table := old(V()).table[i := w])
    {
      ghost var t := fat[..];
      fat[i] := w;
      assert fat[..] == t[i := w];
      FlushSector(i);
    }

    // --- chains ----------------------------------------------------------------------------

    /** `fat_find_free`. */
    method FindFree() returns (r: int)
      requires Valid()
      ensures r == if FirstFree(V().table, 0) < fat.Length then FirstFree(V().table, 0) else -1
    {
      for i := 0 to fat.Length
        invariant FirstFree(fat[..], 0) == FirstFree(fat[..], i)
      {
        if fat[i] == FREE {
          return i;
        }
      }
      return -1;
    }

    /** `fat_update_chain`. `ch` is the chain of `start`, or empty if `start` is the free entry `n`. */
    method UpdateChain(start: nat, n: nat, ghost ch: seq<nat>)
      requires Valid() && n < fat.Length && n != 0 && fat[n] == FREE
      requires if ch == [] then start == n else IsChain(fat[..], ch) && ch[0] == start
      modifies this`disk, fat
      ensures Valid() && V() == if ch == [] then Started(old(V()), n) else Grown(old(V()), ch, n)
    {
      ghost var t := fat[..];
      var buffer := Zeros(g.Bpc());
      var beforeLast: nat := start;
      ghost var i := 0;
      while !IsEnd(fat[beforeLast]) && fat[beforeLast] != FREE
        invariant beforeLast < fat.Length
        invariant if ch == [] then beforeLast == n else i < |ch| && ch[i] == beforeLast
        decreases |ch| - i
        modifies {}
      {
        assert LinkAt(t, ch, i);
        beforeLast := fat[beforeLast];
        assert beforeLast < g.Entries();  // so the corruption check never fires
        i := i + 1;
      }
      if ch != [] {
        ChainInUse(t, ch);
        ChainExtend(t, ch, n);
        assert LinkAt(t, ch, i);
      } else {
        ChainStart(t, n);
      }
      StoreEntry(beforeLast, n);
      StoreEntry(n, CHAIN_END);
      WriteCluster(n, buffer);
    }

    /** `fat_free_chain`. */
    method FreeChain(start: nat)
      requires Valid() && start < fat.Length
      modifies this`disk, fat
      ensures Valid() && V() == Freed(old(V()), start)
    {
      var current: nat := start;
      while !IsEnd(fat[current]) && fat[current] != FREE
        invariant Valid() && current < fat.Length
        invariant V().data == old(V()).data
        invariant FreeFrom(fat[..], current) == FreeFrom(old(fat[..]), start)
        decreases |InUse(fat[..])|
      {
        InUseShrinks(fat[..], current);
        var next := fat[current];
        StoreEntry(current, FREE);
        current := next;
      }
      StoreEntry(current, FREE);
    }

    /** `get_ith_cluster`: restarting from the head gives the i-th cluster of the chain, or -1 past its end. */
    method GetIth(start: nat, i: nat, ghost ch: seq<nat>) returns (c: int)
      requires Valid() && Walked(fat[..], ch) && ch[0] == start
      ensures c == if i < |ch| then ch[i] else -1
    {
      ghost var t := fat[..];
      var cluster, left := start, i;
      ghost var k := 0;
      while left > 0
        invariant 0 <= k < |ch| && ch[k] == cluster && k + left == i
      {
        assert LinkAt(t, ch, k) || t[ch[k]] == FREE;
        if IsEnd(fat[cluster]) || fat[cluster] == FREE {
          return -1;
        }
        cluster := fat[cluster];
        left, k := left - 1, k + 1;
      }
      return cluster;
    }

    /** `fat_get_cluster_amount`. */
    method ClusterAmount(start: nat, ghost ch: seq<nat>) returns (count: nat)
      requires Valid() && IsChain(fat[..], ch) && ch[0] == start
      ensures count == |ch|
    {
      ghost var t := fat[..];
      var cluster: nat := start;
      count := 0;
      while !(IsEnd(fat[cluster]) || fat[cluster] == FREE)
        invariant count < |ch| && ch[count] == cluster
        decreases |ch| - count
      {
        assert LinkAt(t, ch, count);
        cluster := fat[cluster];
        count := count + 1;
      }
      assert LinkAt(t, ch, count);
      if IsEnd(fat[cluster]) {
        count := count + 1;
      }
    }

    // --- directories -----------------------------------------------------------------------

    /** Entries per cluster. */
    function Epc(): nat { SECTOR / ENTRY_SIZE * g.sectorsPerCluster }

    /** The inner loop of the scan: the first matching slot of one cluster, or the number of slots. */
    method ScanSlots(dir: seq<Byte>, name: seq<Byte>, exact: bool) returns (n: nat)
      requires |dir| == g.Bpc()
      ensures n == Find(Slots(dir), name, exact, 0) <= Epc()
    {
      n := 0;
      while n < Epc()
        invariant n <= Epc()
        invariant Find(Slots(dir), name, exact, 0) == Find(Slots(dir), name, exact, n)
      {
        if Matches(Slot(dir, n), name, exact) {
          return n;
        }
        n := n + 1;
      }
    }

    /** The i-th turn of the scan: fetch the cluster and search its slots. */
    method ScanCluster(c: nat, name: seq<Byte>, exact: bool, ghost v: Vol, ghost ch: seq<nat>, ghost i: nat)
      returns (n: nat, dir: seq<Byte>)
      requires Valid() && V() == v && Walked(v.table, ch) && i < |ch| && ch[i] == c
      ensures |dir| == v.bpc && n <= Epc()
      ensures Start(i, Epc()) + Epc() == Start(i + 1, Epc()) <= |DirOn(v, ch)|
      ensures Find(DirOn(v, ch), name, exact, Start(i, Epc()))
           == if n < Epc() then Start(i, Epc()) + n else Find(DirOn(v, ch), name, exact, Start(i + 1, Epc()))
      ensures n < Epc() ==> LocatedAt(v, ch, Start(i, Epc()) + n, i, c, n, dir)
    {
      hide Content, Start, Find, LinksInRange;
      dir := ReadCluster(c);
      n := ScanSlots(dir, name, exact);
      FindCluster(v, ch, i, Epc(), name, exact);
      if n < Epc() {
        SlotOfCluster(v, ch, i, n, Epc());
      }
    }

    /** The scan shared by the directory operations: over the clusters of the chain, fetched one by
        one from its head, and over the slots of each. It stops at the first slot that matches. */
    method Locate(name: seq<Byte>, exact: bool, start: nat, ghost v: Vol, ghost ch: seq<nat>)
      returns (found: bool, c: nat, j: nat, dir: seq<Byte>, ghost i: nat)
      requires Valid() && V() == v && Walked(v.table, ch) && ch[0] == start
      ensures |dir| == v.bpc && j < Epc() && c < fat.Length
      ensures found <==> Find(DirOn(v, ch), name, exact, 0) < |DirOn(v, ch)|
      ensures found ==> LocatedAt(v, ch, Find(DirOn(v, ch), name, exact, 0), i, c, j, dir)
    {
      hide Content, LocatedAt, Find, LinksInRange;
      ghost var s := DirOn(v, ch);
      DirLength(v, ch, Epc());
      var next := GetIth(start, 0, ch);
      var k := 0;
      c, j, dir, i := start, 0, Zeros(g.Bpc()), 0;
      while next != -1
        invariant k <= |ch| && next == if k < |ch| then ch[k] else -1
        invariant |dir| == v.bpc && Start(k, Epc()) <= |s|
        invariant Find(s, name, exact, 0) == Find(s, name, exact, Start(k, Epc()))
        decreases |ch| - k
      {
        var n;
        n, dir := ScanCluster(next, name, exact, v, ch, k);
        if n < Epc() {
          return true, next, n, dir, k;
        }
        k := k + 1;
        next := GetIth(start, k, ch);
      }
      found := false;
    }

    /** `memcpy(&dir[j], e)` in the buffer of the i-th cluster, and the write of that cluster. */
    method PutEntry(c: nat, dir: seq<Byte>, j: nat, b: seq<Byte>, ghost ch: seq<nat>, ghost i: nat, ghost k: nat)
      requires Valid() && V().Holds(ch) && Distinct(ch) && LocatedAt(V(), ch, k, i, c, j, dir) && |b| == ENTRY_SIZE
      modifies this`disk
      ensures Valid() && Patched(old(V()), V(), ch, ENTRY_SIZE * k, b)
      ensures SameBelow(g, old(disk), disk)
    {
      PatchedCluster(V(), ch, i, ENTRY_SIZE * j, b);
      WriteCluster(c, Splice(dir, ENTRY_SIZE * j, b));
    }

    /** `fat_find_dir_entry`. */
    method FindDirEntry(name: seq<Byte>, start: nat, ghost ch: seq<nat>) returns (found: bool, e: DirEntry)
      requires Valid() && IsChain(fat[..], ch) && ch[0] == start
      ensures found <==> Find(DirOn(V(), ch), name, false, 0) < |DirOn(V(), ch)|
      ensures found ==> e == DirOn(V(), ch)[Find(DirOn(V(), ch), name, false, 0)]
    {
      var c, j, dir;
      ghost var i;
      found, c, j, dir, i := Locate(name, false, start, V(), ch);
      e := Slot(dir, j);
    }

    /** `fat_update_dir_entry`, which compares names with `strcmp`. */
    method UpdateDirEntry(name: seq<Byte>, start: nat, e: DirEntry, ghost ch: seq<nat>) returns (ok: bool)
      requires Valid() && Walked(fat[..], ch) && ch[0] == start && e.Valid()
      modifies this`disk
      ensures Valid()
      ensures ok <==> Find(DirOn(old(V()), ch), name, true, 0) < |DirOn(old(V()), ch)|
      ensures if ok
              then Patched(old(V()), V(), ch, ENTRY_SIZE * Find(DirOn(old(V()), ch), name, true, 0), Encode(e))
              else V() == old(V())
      ensures SameBelow(g, old(disk), disk)
    {
      NothingBelow(g, disk);
      var c, j, dir;
      ghost var i;
      ok, c, j, dir, i := Locate(name, true, start, V(), ch);
      if ok {
        WalkDistinct(fat[..], ch);
        PutEntry(c, dir, j, Encode(e), ch, i, Find(DirOn(V(), ch), name, true, 0));
      }
    }

    /** `fat_add_dir_entry`: into the first empty slot, or else into a new cluster at the end of the chain. */
    method AddDirEntry(start: nat, e: DirEntry, ghost ch: seq<nat>) returns (ok: bool, ghost d: seq<nat>)
      requires Valid() && IsChain(fat[..], ch) && ch[0] == start && e.Valid() && fat[0] != FREE
      modifies this`disk, fat
      ensures Valid()
      ensures Added(old(V()), V(), ch, d, e, ok)
    {
      hide Content, Find, LinksInRange, Encode, Patched, LocatedAt, DirOn, Start;
      ghost var v := V();
      var found, c, j, dir;
      ghost var i;
      found, c, j, dir, i := Locate([], false, start, v, ch);
      if found {
        ChainDistinct(v.table, ch);
        PutEntry(c, dir, j, Encode(e), ch, i, Find(DirOn(v, ch), [], false, 0));
        return true, ch;
      }
      var n := FindFree();
      if n == -1 {
        return false, ch;
      }
      UpdateChain(start, n, ch);
      d := ch + [n];
      dir := ReadCluster(n);
      FirstOfLast(V(), d, dir, Epc());
      FullLength(v, ch, Epc());
      ChainDistinct(fat[..], d);
      PutEntry(n, dir, 0, Encode(e), d, |ch|, Start(|ch|, Epc()));
      ok := true;
    }

    /** `fat_remove_dir_entry` with `delete_chain`: the chain goes first, then the slot is zeroed. */
    method RemoveDirEntry(name: seq<Byte>, start: nat, ghost ch: seq<nat>) returns (ok: bool)
      requires Valid() && IsChain(fat[..], ch) && ch[0] == start
      requires Removable(V(), ch, name)
      modifies this`disk, fat
      ensures Valid()
      ensures Removed(old(V()), V(), ch, name, ok)
    {
      ghost var v := V();
      var c, j, dir;
      ghost var i;
      ok, c, j, dir, i := Locate(name, false, start, V(), ch);
      if ok {
        ghost var k := Find(DirOn(v, ch), name, false, 0);
        ChainDistinct(v.table, ch);
        FreeChain(Slot(dir, j).start);
        LocatedFrame(v, V(), ch, k, i, c, j, dir);
        PutEntry(c, dir, j, Zeros(ENTRY_SIZE), ch, i, k);
      }
    }

    // --- files -----------------------------------------------------------------------------

    /** The walk `fat_read` and `fat_write` start with: `n` links on from the first cluster. Up to the
        end of the chain, the checks for an end mark on the way never fire. */
    method Walk(start: nat, n: nat, ghost v: Vol, ghost ch: seq<nat>) returns (c: nat)
      requires Valid() && V() == v && IsChain(v.table, ch) && ch[0] == start && n <= |ch|
      ensures n < |ch| ==> c == ch[n]
    {
      c := start;
      for i := 0 to n
        invariant i < |ch| ==> c == ch[i]
      {
        assert LinkAt(v.table, ch, i) && c < CHAIN_END;
        c := fat[c];
      }
    }

    /** `fat_read`. */
    method Read(file: DirEntry, offset: nat, size: nat, ghost ch: seq<nat>) returns (r: int, buf: seq<Byte>)
      requires Valid() && offset + size < 0x1_0000_0000
      requires !file.IsDir() ==> FileOn(V(), file, ch)
      ensures file.IsDir() ==> r == -1
      ensures !file.IsDir() ==> r == |buf| && buf == Range(FileBytes(V(), file, ch), offset, size)
    {
      if file.IsDir() {
        return -1, [];
      }
      if offset >= file.size {
        return 0, [];
      }
      var count := if offset + size > file.size then file.size - offset else size;
      buf := ReadBytes(file.start, offset, count, V(), ch);
      RangeOfFile(V(), file, ch, offset, size);
      r := |buf|;
    }

    /** The copying part of `fat_read`. */
    method ReadBytes(start: nat, offset: nat, size: nat, ghost v: Vol, ghost ch: seq<nat>) returns (buf: seq<Byte>)
      requires Valid() && V() == v && IsChain(v.table, ch) && ch[0] == start && start != 0
      requires offset < |Content(v, ch)| && offset + size <= |Content(v, ch)|
      ensures buf == Content(v, ch)[offset..offset + size]
    {
      hide Content, LinksInRange;
      var bpc := g.Bpc();
      InsideChain(offset, |ch|, bpc);
      ChainNotRoot(v.table, ch);
      var clusterOffset: nat := offset % bpc;
      ghost var k: nat := offset / bpc;
      var current := Walk(start, offset / bpc, v, ch);
      buf := [];
      while |buf| < size && current < CHAIN_END && current != 0
        invariant k < |ch| && current == ch[k] && |buf| <= size && clusterOffset < bpc
        invariant |buf| < size ==> Start(k, bpc) + clusterOffset == offset + |buf|
        invariant buf == Content(v, ch)[offset..offset + |buf|]
        decreases size - |buf|
      {
        var cluster := ReadCluster(current);
        var count := bpc - clusterOffset;
        if count > size - |buf| {
          count := size - |buf|;
        }
        ContentInCluster(v, ch, k, clusterOffset, count);
        SliceNext(Content(v, ch), offset, offset + |buf|, offset + |buf| + count);
        buf := buf + cluster[clusterOffset..clusterOffset + count];
        clusterOffset := 0;
        if |buf| < size {
          BeforeChainEnd(k + 1, |ch|, bpc);
          assert LinkAt(v.table, ch, k);
          current := fat[current];
          k := k + 1;
        }
      }
    }

    /** `fat_allocate_space`. */
    method AllocateSpace(amount: nat, start: nat, ghost ch: seq<nat>) returns (ok: bool, ghost d: seq<nat>)
      requires Valid() && IsChain(fat[..], ch) && ch[0] == start && fat[0] != FREE
      modifies this`disk, fat
      ensures Valid() && GrownBy(old(V()), ch, amount) == (ok, V(), d)
    {
      d := ch;
      for i := 0 to amount
        invariant Valid() && IsChain(fat[..], d) && d[0] == start && fat[0] != FREE
        invariant GrownBy(old(V()), ch, amount) == GrownBy(V(), d, amount - i)
      {
        var index := FindFree();
        if index == -1 {
          return false, d;
        }
        UpdateChain(start, index, d);
        d := d + [index];
      }
      ok := true;
    }

    /** One turn of the copying loop of `fat_write`: a cluster that is not overwritten as a whole is
        read first; `cluster` is the buffer left from the turn before. */
    method WriteOne(current: nat, clusterOffset: nat, part: seq<Byte>, left: nat, cluster: seq<Byte>, ghost ch: seq<nat>,
                    ghost k: nat)
      returns (after: seq<Byte>)
      requires Valid() && IsChain(fat[..], ch) && k < |ch| && ch[k] == current
      requires |cluster| == g.Bpc() && clusterOffset + |part| <= g.Bpc()
      requires clusterOffset == 0 && left >= g.Bpc() ==> |part| == g.Bpc()
      modifies this`disk
      ensures Valid() && |after| == g.Bpc()
      ensures Patched(old(V()), V(), ch, Start(k, g.Bpc()) + clusterOffset, part)
      ensures SameBelow(g, old(disk), disk)
    {
      ghost var v := V();
      after := cluster;
      if clusterOffset > 0 || left < g.Bpc() {
        after := ReadCluster(current);
      }
      after := Splice(after, clusterOffset, part);
      assert after == Splice(v.data[current], clusterOffset, part);
      ChainDistinct(v.table, ch);
      PatchedCluster(v, ch, k, clusterOffset, part);
      WriteCluster(current, after);
    }

    /** One turn, seen from the whole write: the bytes up to `written` become those up to `written + count`. */
    method WriteTurn(current: nat, clusterOffset: nat, buffer: seq<Byte>, written: nat, cluster: seq<Byte>,
                     ghost offset: nat, ghost v: Vol, ghost u: Vol, ghost ch: seq<nat>, ghost k: nat)
      returns (after: seq<Byte>, count: nat)
      requires Valid() && V() == u && v.Valid() && IsChain(v.table, ch) && k < |ch| && ch[k] == current
      requires written < |buffer| && Patched(v, u, ch, offset, buffer[..written]) && u.table == v.table && u.bpc == v.bpc
      requires |cluster| == u.bpc && clusterOffset < u.bpc
      requires Start(k, u.bpc) + clusterOffset == offset + written
      modifies this`disk
      ensures Valid() && V().table == v.table && V().bpc == v.bpc && |after| == v.bpc
      ensures 0 < count && written + count <= |buffer|
      ensures count == if v.bpc - clusterOffset > |buffer| - written then |buffer| - written else v.bpc - clusterOffset
      ensures Patched(v, V(), ch, offset, buffer[..written + count])
    {
      hide Patched, LinksInRange, Start;
      count := g.Bpc() - clusterOffset;
      if count > |buffer| - written {
        count := |buffer| - written;
      }
      var part := buffer[written..written + count];
      after := WriteOne(current, clusterOffset, part, |buffer| - written, cluster, ch, k);
      assert buffer[..written] + part == buffer[..written + count] && |buffer[..written]| == written;
      PatchedTwice(v, u, V(), ch, offset, buffer[..written], part);
      PatchedKeeps(v, V(), ch, offset, buffer[..written + count]);
    }

    static lemma {:induction false} PatchedKeeps(v: Vol, w: Vol, ch: seq<nat>, at: nat, b: seq<Byte>)
      requires v.Valid() && v.Holds(ch) && Patched(v, w, ch, at, b)
      ensures w.table == v.table && w.bpc == v.bpc && at + |b| <= |Content(v, ch)|
    {
    }

    /** The copying part of `fat_write`. */
    method WriteBytes(start: nat, offset: nat, buffer: seq<Byte>, ghost ch: seq<nat>)
      requires Valid() && IsChain(fat[..], ch) && ch[0] == start && offset + |buffer| <= |Content(V(), ch)|
      modifies this`disk
      ensures Valid() && Patched(old(V()), V(), ch, offset, buffer)
    {
      hide Patched, Content;
      ghost var v := V();
      var bpc := g.Bpc();
      AtMostChain(offset, |ch|, bpc);
      PatchedNothing(v, ch, offset);
      var clusterOffset: nat := offset % bpc;
      ghost var k: nat := offset / bpc;
      var current := Walk(start, offset / bpc, v, ch);
      var cluster, written := Zeros(bpc), 0;
      assert buffer[..0] == [];
      if |buffer| > 0 {
        BeforeChainEnd(k, |ch|, bpc);
      }
      while written < |buffer|
        invariant Valid() && V().table == v.table && V().bpc == v.bpc
        invariant written <= |buffer| && |cluster| == bpc && clusterOffset < bpc
        invariant Patched(v, V(), ch, offset, buffer[..written])
        invariant written < |buffer| ==> k < |ch| && current == ch[k]
        invariant written < |buffer| ==> Start(k, bpc) + clusterOffset == offset + written
      {
        var count;
        cluster, count := WriteTurn(current, clusterOffset, buffer, written, cluster, offset, v, V(), ch, k);
        written := written + count;
        if written < |buffer| {
          assert Start(k + 1, bpc) == Start(k, bpc) + bpc;
          BeforeChainEnd(k + 1, |ch|, bpc);
          assert LinkAt(v.table, ch, k);
          current := fat[current];
          k := k + 1;
        }
        clusterOffset := 0;
      }
      assert buffer[..written] == buffer;
    }

    /** `fat_write`. The entry it updates for its caller is the out-parameter `after`. */
    method Write(file: DirEntry, parent: DirEntry, offset: nat, buffer: seq<Byte>, ghost ch: seq<nat>,
                 ghost dir: seq<nat>)
      returns (r: int, after: DirEntry, ghost d: seq<nat>)
      requires Valid() && offset + |buffer| < 0x1_0000_0000
      requires !file.IsDir() ==> Growable(V(), file, ch, dir) && dir[0] == parent.start
      modifies this`disk, fat
      ensures Valid()
      ensures file.IsDir() ==> r == -1 && after == file && d == ch && V() == old(V())
      ensures !file.IsDir() ==> Written(old(V()), V(), file, ch, dir, offset, buffer, r, after, d)
      decreases if offset + |buffer| > file.size then offset + |buffer| - file.size else 0, 1
    {
      after, d := file, ch;
      if file.IsDir() {
        return -1, after, d;
      }
      ghost var v := V();
      var newSize := offset + |buffer|;
      if newSize > file.size {
        r, after, d := Truncate(file, parent, newSize, ch, dir);
        if r != 0 {
          return -1, file, d;
        }
        ExtendedRoom(v, V(), file, ch, dir, newSize, after, d);
      }
      WriteBytes(after.start, offset, buffer, d);
      r := |buffer|;
    }

    /** `fat_truncate` to a size not below the file's: the branch that grows it. The zeros it writes
        are none at all, since the size is assigned before their number is computed. */
    method Truncate(file: DirEntry, parent: DirEntry, size: nat, ghost ch: seq<nat>, ghost dir: seq<nat>)
      returns (r: int, after: DirEntry, ghost d: seq<nat>)
      requires Valid() && file.size <= size < 0x1_0000_0000
      requires !file.IsDir() ==> Growable(V(), file, ch, dir) && dir[0] == parent.start
      modifies this`disk, fat
      ensures Valid()
      ensures file.IsDir() ==> r == -1 && after == file && d == ch && V() == old(V())
      ensures !file.IsDir() && size == file.size ==> r == 0 && after == file && d == ch && V() == old(V())
      ensures !file.IsDir() && size > file.size ==> Extended(old(V()), V(), file, ch, dir, size, r, after, d)
      decreases size - file.size, 0
    {
      after, d := file, ch;
      if file.IsDir() {
        return -1, after, d;
      }
      if size == file.size {
        return 0, after, d;
      }
      ghost var v := V();
      var newAmount := size / g.Bpc() + 1;
      var amount := ClusterAmount(file.start, ch);
      GrownFile(v, file, ch, dir, size);
      var ok;
      ok, d := AllocateSpace((newAmount - amount) % 0x1_0000_0000, file.start, ch);
      if !ok {
        ExtendedNot(v, V(), file, ch, dir, size, ok, d);
        return -1, file, d;
      }
      ghost var u := V();
      var grown := file.(size := size);
      var none := Zeros(size - grown.size);
      var w, same;
      ghost var c;
      w, same, c := Write(grown, parent, grown.size, none, d, dir);
      NothingWritten(u, V(), grown, d, dir, w, same, c);
      ok := UpdateDirEntry(grown.Name(), parent.start, grown, dir);
      if !ok {
        ExtendedNot(v, V(), file, ch, dir, size, true, d);
        return -1, file, d;
      }
      ExtendedDone(v, u, V(), file, ch, dir, size, d);
      return 0, grown, d;
    }
  }
}
