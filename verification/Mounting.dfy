/** fat.c: mounting a disk, and what operations leave for the next mount. */
module Mounting {
  import opened CText
  import opened FatTable
  import opened Volumes
  import opened DiskLayout
  import opened FatVolume

  /** The boot sector, if it is signed, describes the disk. */
  ghost predicate Bootable(image: seq<Byte>) {
    && |image| >= SECTOR
    && (Word(image, 510) == SIGNATURE ==>
          && GeometryOf(image[..SECTOR]).Valid() && GeometryOf(image[..SECTOR]).Fits(image)
          && LinksInRange(TableOn(GeometryOf(image[..SECTOR]), image)))
  }

  /** The table is in the image from byte `at` on, the low byte of each entry first. */
  ghost predicate TableAt(image: seq<Byte>, t: Table, at: nat) {
    && at + 2 * |t| <= |image|
    && forall i :: 0 <= i < |t| ==> t[i] == image[at + 2 * i] as int + 0x100 * (image[at + 2 * i + 1] as int)
  }

  /** The clusters, of `n` bytes each, follow one another from byte `at` on. */
  ghost predicate ClustersAt(image: seq<Byte>, d: seq<seq<Byte>>, n: nat, at: nat) {
    forall c :: 0 <= c < |d| ==> |d[c]| == n && BytesAt(image, d[c], at + c * n)
  }

  ghost predicate BytesAt(image: seq<Byte>, b: seq<Byte>, at: nat) {
    at + |b| <= |image| && b == image[at..at + |b|]
  }

  /** The volume `v` in the bytes of an image: the FAT begins behind the reserved sectors, and the clusters, the root
      directory first, behind the last copy of it. */
  ghost predicate LaidOut(image: seq<Byte>, v: Vol) {
    && |image| >= 512
    && var reserved := image[14] as int + 0x100 * (image[15] as int);
       var copies := image[16] as int;
       var sectors := image[22] as int + 0x100 * (image[23] as int);
       && |v.table| == |v.data| == 256 * sectors && v.bpc == 512 * (image[13] as int)
       && TableAt(image, v.table, 512 * reserved)
       && ClustersAt(image, v.data, v.bpc, 512 * (reserved + copies * sectors))
  }

  lemma {:induction false} TableBytes(g: Geometry, image: seq<Byte>)
    requires g.Valid() && g.Fits(image)
    ensures TableAt(image, TableOn(g, image), SECTOR * g.reserved)
  {
    FatBelowClusters(g, g.Entries());
  }

  lemma {:induction false} ClusterBytes(g: Geometry, image: seq<Byte>)
    requires g.Valid() && g.Fits(image)
    ensures ClustersAt(image, ClustersOn(g, image), g.Bpc(), SECTOR * g.rootDirStart)
  {
    var d, at := ClustersOn(g, image), SECTOR * g.rootDirStart;
    forall c | 0 <= c < |d|
      ensures |d[c]| == g.Bpc() && BytesAt(image, d[c], at + c * g.Bpc())
    {
      StartIsProduct(c, g.Bpc());
      ClusterInside(g, c, g.Entries());
      assert d[c] == ClusterOn(g, image, c);
      assert g.ClusterByte(c) == at + c * g.Bpc();
    }
  }

  /** What is parsed out of the boot sector puts table and clusters where the image has them. */
  lemma {:induction false} MountedLayout(image: seq<Byte>)
    requires Bootable(image) && Word(image, 510) == SIGNATURE
    ensures var g := GeometryOf(image[..SECTOR]);
            && LaidOut(image, Vol(g.Bpc(), TableOn(g, image), ClustersOn(g, image))) && CopiesFit(g)
            && g.rootEntries == image[17] as int + 0x100 * (image[18] as int)
  {
    hide TableAt, ClustersAt;
    var g := GeometryOf(image[..SECTOR]);
    TableBytes(g, image);
    ClusterBytes(g, image);
    StartIsProduct(g.numFats, g.sectorsPerFat);
  }

  /** `fat_init`. */
  method FatInit(image: seq<Byte>) returns (vol: Volume?)
    requires Bootable(image)
    ensures vol == null <==> Word(image, 510) != SIGNATURE
    ensures vol == null <==> image[510] as int != 0x55 || image[511] as int != 0xAA
    ensures vol != null ==> fresh(vol) && fresh(vol.fat) && vol.Valid() && vol.disk == image
    ensures vol != null ==> |vol.boot| >= SECTOR && vol.boot[..SECTOR] == image[..SECTOR]
    ensures vol != null ==> vol.g == GeometryOf(image[..SECTOR])
    ensures vol != null ==> vol.V() == Vol(vol.g.Bpc(), TableOn(vol.g, image), ClustersOn(vol.g, image))
    ensures vol != null ==> LaidOut(image, vol.V()) && CopiesFit(vol.g)
    ensures vol != null ==> vol.g.rootEntries == image[17] as int + 0x100 * (image[18] as int)
  {
    if Word(image, 510) != SIGNATURE {
      return null;
    }
    MountedLayout(image);
    vol := new Volume.Load(image, GeometryOf(image[..SECTOR]));
    assert vol.boot[..SECTOR] == image[..SECTOR];
  }

  /** Whatever was done in between, as long as RAM and disk agree: mounting the disk again gives the
      same table and the same clusters. */
  method Remount(vol: Volume) returns (again: Volume?)
    requires vol.Valid() && vol.g == GeometryOf(vol.boot[..SECTOR]) && Word(vol.boot, 510) == SIGNATURE
    ensures again != null && fresh(again) && again.Valid()
    ensures again.g == vol.g && again.V() == vol.V() && again.fat[..] == vol.fat[..]
  {
    ghost var disk := vol.disk;
    assert disk[..|vol.boot|][..SECTOR] == disk[..SECTOR];
    assert Word(disk[..|vol.boot|], 510) == Word(disk, 510);
    again := FatInit(vol.disk);
  }
}
