/** The sectors behind a FAT32 volume as fs/fat32.c sees them: a disk, and one
sector of the table held in a buffer that may be newer than the disk.

`Merged` is the disk with the buffer laid over it. Loading and writing back
move sectors between the two and leave `Merged` alone; the table and the
clusters are read off it. */
module Fat32Disk {
  import opened Arith
  import opened Bytes
  import opened Fat32Chains

  const SECTOR: nat := 512
  /** fat32_init's mark for an empty buffer. */
  const NO_LBA: nat := 0xFFFF_FFFF

  type Sectors = seq<seq<Byte>>

  datatype Geometry = Geometry(fatLba: nat, dataLba: nat, spc: nat, total: nat)

  function Clusters(g: Geometry): nat {
    g.total + 2
  }

  /** The sector that holds the entry of cluster `c`. */
  function FatSector(g: Geometry, c: nat): nat {
    g.fatLba + c * 4 / SECTOR
  }

  function FatIndex(c: nat): (i: nat)
    ensures 4 * i == c * 4 % SECTOR && 4 * i + 4 <= SECTOR
  {
    c % 128
  }

  ghost predicate Sized(m: Sectors) {
    forall l | 0 <= l < |m| :: |m[l]| == SECTOR
  }

  /** The table lies before the data area, and both lie on the disk. */
  ghost predicate Fits(g: Geometry, m: Sectors) {
    && Sized(m) && |m| <= NO_LBA && g.spc > 0 && Clusters(g) <= EOC_MIN
    && (forall c: nat | c < Clusters(g) :: FatSector(g, c) < g.dataLba)
    && g.dataLba + g.total * g.spc <= |m|
    && g.dataLba <= |m|
  }

  function Merged(disk: Sectors, buf: seq<Byte>, bufLba: nat): (m: Sectors)
    ensures |m| == |disk|
  {
    if bufLba < |disk| then disk[bufLba := buf] else disk
  }

  /** The buffer is empty or holds a sector of the table; unless it is dirty it
      agrees with the disk. */
  ghost predicate Buffered(g: Geometry, disk: Sectors, buf: seq<Byte>, bufLba: nat, dirty: bool) {
    && |buf| == SECTOR
    && (bufLba == NO_LBA || g.fatLba <= bufLba < g.dataLba)
    && (dirty ==> bufLba < |disk|)
    && (!dirty && bufLba < |disk| ==> buf == disk[bufLba])
  }

  // ---------------------------------------------------------------------
  // The table
  // ---------------------------------------------------------------------

  function EntryOf(g: Geometry, m: Sectors, c: nat): nat {
    if FatSector(g, c) < |m| && |m[FatSector(g, c)]| == SECTOR
    then Word(m[FatSector(g, c)], FatIndex(c)) % MASK else 0
  }

  function FatOf(g: Geometry, m: Sectors): (fat: Fat)
    ensures |fat| == Clusters(g)
    ensures forall c: nat | c < Clusters(g) :: fat[c] == EntryOf(g, m, c)
  {
    seq(Clusters(g), c requires 0 <= c => EntryOf(g, m, c))
  }

  /** The sectors after the entry of `c` is set. */
  function PutEntry(g: Geometry, m: Sectors, c: nat, v: nat): Sectors
    requires FatSector(g, c) < |m| && |m[FatSector(g, c)]| == SECTOR
  {
    m[FatSector(g, c) := PutWord(m[FatSector(g, c)], FatIndex(c), v % MASK)]
  }

  lemma EntryPut(g: Geometry, m: Sectors, c: nat, v: nat, x: nat)
    requires Fits(g, m) && c < Clusters(g) && x < Clusters(g)
    ensures FatSector(g, c) < |m|
    ensures EntryOf(g, PutEntry(g, m, c, v), x) == if x == c then v % MASK else EntryOf(g, m, x)
  {
    hide Word, PutWord, FatSector, FatIndex;
    SameEntry(g, x, c);
    if FatSector(g, x) == FatSector(g, c) {
      WordPut(m[FatSector(g, c)], FatIndex(c), v % MASK, FatIndex(x));
    }
  }

  /** The entries lie one behind the other, four bytes each, from the start of the table. */
  lemma EntryPlace(g: Geometry, c: nat)
    ensures SECTOR * (FatSector(g, c) - g.fatLba) + 4 * FatIndex(c) == 4 * c
  {
    assert c * 4 == SECTOR * (c * 4 / SECTOR) + c * 4 % SECTOR;
  }

  lemma SameEntry(g: Geometry, x: nat, c: nat)
    ensures FatSector(g, x) == FatSector(g, c) && FatIndex(x) == FatIndex(c) ==> x == c
  {
  }

  /** Setting one entry changes the table at one index. */
  lemma FatPut(g: Geometry, m: Sectors, c: nat, v: nat)
    requires Fits(g, m) && c < Clusters(g)
    ensures FatSector(g, c) < |m| && |m[FatSector(g, c)]| == SECTOR
    ensures Fits(g, PutEntry(g, m, c, v))
    ensures FatOf(g, PutEntry(g, m, c, v)) == FatOf(g, m)[c := v % MASK]
  {
    hide EntryOf, PutWord;
    var e := PutEntry(g, m, c, v);
    forall x: nat | x < Clusters(g)
      ensures EntryOf(g, e, x) == FatOf(g, m)[c := v % MASK][x]
    {
      EntryPut(g, m, c, v, x);
    }
  }

  // ---------------------------------------------------------------------
  // Clusters
  // ---------------------------------------------------------------------

  function ClusterSize(g: Geometry): nat {
    g.spc * SECTOR
  }

  /** cluster_to_lba. */
  function LbaOf(g: Geometry, c: nat): nat
    requires c >= 2
  {
    g.dataLba + (c - 2) * g.spc
  }

  lemma LbaInside(g: Geometry, m: Sectors, c: nat)
    requires Fits(g, m) && 2 <= c < Clusters(g)
    ensures g.dataLba <= LbaOf(g, c) && LbaOf(g, c) + g.spc <= |m|
  {
    MulSign(g.total - (c - 2), g.spc);
    assert (g.total - (c - 2)) * g.spc == g.total * g.spc - (c - 2) * g.spc;
  }

  /** Two clusters have no sector in common. */
  lemma LbaApart(g: Geometry, c: nat, x: nat)
    requires c >= 2 && x >= 2 && c != x
    ensures LbaOf(g, c) + g.spc <= LbaOf(g, x) || LbaOf(g, x) + g.spc <= LbaOf(g, c)
  {
    MulSign(c - x, g.spc);
    assert (c - x) * g.spc == (c - 2) * g.spc - (x - 2) * g.spc;
  }

  function ByteOf(m: Sectors, lba: nat, x: nat): Byte {
    if lba + x / SECTOR < |m| && |m[lba + x / SECTOR]| == SECTOR then m[lba + x / SECTOR][x % SECTOR] else 0
  }

  /** The bytes of cluster `c`. */
  function Cluster(g: Geometry, m: Sectors, c: nat): (b: seq<Byte>)
    requires c >= 2
    ensures |b| == ClusterSize(g)
    ensures forall x: nat | x < |b| :: b[x] == ByteOf(m, LbaOf(g, c), x)
  {
    seq(ClusterSize(g), x requires 0 <= x => ByteOf(m, LbaOf(g, c), x))
  }

  /** `m` and `e` hold the same in every cluster but `c`, and the same table. */
  ghost predicate OnlyCluster(g: Geometry, m: Sectors, e: Sectors, c: nat) {
    && FatOf(g, e) == FatOf(g, m)
    && forall x: nat | 2 <= x < Clusters(g) && x != c :: Cluster(g, e, x) == Cluster(g, m, x)
  }

  /** Sectors outside cluster `c` are as in `m`. */
  ghost predicate OutsideSame(g: Geometry, m: Sectors, e: Sectors, c: nat)
    requires c >= 2
  {
    && |e| == |m|
    && forall l | 0 <= l < |m| && !(LbaOf(g, c) <= l < LbaOf(g, c) + g.spc) :: e[l] == m[l]
  }

  lemma OutsideOnly(g: Geometry, m: Sectors, e: Sectors, c: nat)
    requires Fits(g, m) && 2 <= c < Clusters(g) && OutsideSame(g, m, e, c)
    ensures OnlyCluster(g, m, e, c)
  {
    LbaInside(g, m, c);
    var f, f' := FatOf(g, m), FatOf(g, e);
    assert f' == f by {
      forall x: nat | x < Clusters(g)
        ensures f'[x] == f[x]
      {
        assert FatSector(g, x) < g.dataLba;
      }
    }
    hide FatOf, LbaOf;
    forall x: nat | 2 <= x < Clusters(g) && x != c
      ensures Cluster(g, e, x) == Cluster(g, m, x)
    {
      ClusterSame(g, m, e, c, x);
    }
  }

  lemma ClusterSame(g: Geometry, m: Sectors, e: Sectors, c: nat, x: nat)
    requires Fits(g, m) && 2 <= c && OutsideSame(g, m, e, c) && 2 <= x < Clusters(g) && x != c
    ensures Cluster(g, e, x) == Cluster(g, m, x)
  {
    hide LbaOf;
    LbaInside(g, m, x);
    LbaApart(g, c, x);
    var lba := LbaOf(g, x);
    forall y: nat | y < ClusterSize(g)
      ensures ByteOf(e, lba, y) == ByteOf(m, lba, y)
    {
      SectorInside(g, y);
    }
  }

  lemma SectorInside(g: Geometry, y: nat)
    requires y < ClusterSize(g)
    ensures y / SECTOR < g.spc
  {
  }

  /** The table does not depend on data sectors, nor clusters on the buffer. */
  lemma ClusterUnbuffered(g: Geometry, disk: Sectors, buf: seq<Byte>, bufLba: nat, c: nat)
    requires Fits(g, disk) && 2 <= c < Clusters(g) && |buf| == SECTOR && (bufLba >= |disk| || bufLba < g.dataLba)
    ensures Cluster(g, Merged(disk, buf, bufLba), c) == Cluster(g, disk, c)
  {
    hide LbaOf;
    LbaInside(g, disk, c);
    var m, lba := Merged(disk, buf, bufLba), LbaOf(g, c);
    forall y: nat | y < ClusterSize(g)
      ensures ByteOf(m, lba, y) == ByteOf(disk, lba, y)
    {
    }
  }

  lemma MergedFits(g: Geometry, disk: Sectors, buf: seq<Byte>, bufLba: nat)
    requires Fits(g, disk) && |buf| == SECTOR
    ensures Fits(g, Merged(disk, buf, bufLba))
  {
  }

  /** Every cluster holds the same bytes. */
  ghost predicate SameClusters(g: Geometry, m: Sectors, e: Sectors) {
    forall x: nat | 2 <= x < Clusters(g) :: Cluster(g, e, x) == Cluster(g, m, x)
  }

  /** Setting a table entry leaves the clusters alone. */
  lemma PutEntryClusters(g: Geometry, m: Sectors, c: nat, v: nat)
    requires Fits(g, m) && c < Clusters(g) && FatSector(g, c) < |m| && |m[FatSector(g, c)]| == SECTOR
    ensures SameClusters(g, m, PutEntry(g, m, c, v))
  {
    hide LbaOf, PutWord;
    var e := PutEntry(g, m, c, v);
    forall x: nat | 2 <= x < Clusters(g)
      ensures Cluster(g, e, x) == Cluster(g, m, x)
    {
      LbaInside(g, m, x);
      assert forall y: nat :: ByteOf(e, LbaOf(g, x), y) == ByteOf(m, LbaOf(g, x), y);
    }
  }

  lemma ClusterIs(g: Geometry, m: Sectors, c: nat, data: seq<Byte>)
    requires c >= 2 && |data| == ClusterSize(g)
    requires forall x: nat | x < |data| :: data[x] == ByteOf(m, LbaOf(g, c), x)
    ensures Cluster(g, m, c) == data
  {
  }

  lemma SameClustersTransitive(g: Geometry, m: Sectors, e: Sectors, f: Sectors)
    requires SameClusters(g, m, e) && SameClusters(g, e, f)
    ensures SameClusters(g, m, f)
  {
    hide Cluster;
  }

  lemma SmallNumbers(g: Geometry, disk: Sectors, c: nat)
    requires Fits(g, disk) && c < Clusters(g)
    ensures c % MASK == c && EOC % MASK == EOC && FREE % MASK == FREE
  {
  }
}
