/** The directory entry that a FAT32 write keeps up to date: first cluster and
size of the file, in one of the 32-byte records of the directory's chain. */
module Fat32Dirent {
  import opened Arith
  import opened Bytes
  import opened Fat32Chains
  import opened Fat32Disk
  import opened Fat32File

  const DIRENT: nat := 32
  /** The index of a file that has no directory entry. */
  const NO_ENTRY: nat := 0xFFFF_FFFF

  function PerCluster(g: Geometry): (n: nat)
    ensures g.spc > 0 ==> n > 0
  {
    g.spc * (SECTOR / DIRENT)
  }

  function Le16(v: nat): seq<Byte>
    requires v < 0x1_0000
  {
    [v % 0x100, v / 0x100]
  }

  function Le32(v: nat): seq<Byte>
    requires v < WORD
  {
    Le16(v % 0x1_0000) + Le16(v / 0x1_0000)
  }

  /** The record at `o` with first cluster and size filled in. */
  function Stamped(c: seq<Byte>, o: nat, first: nat, size: nat): (r: seq<Byte>)
    requires o + DIRENT <= |c| && first < WORD && size < WORD
    ensures |r| == |c|
  {
    Splice(Splice(c, o + 20, Le16(first / 0x1_0000)), o + 26, Le16(first % 0x1_0000) + Le32(size))
  }

  /** What fat32_read_dir_entry takes for the first cluster and for the size. */
  function FirstAt(c: seq<Byte>, o: nat): nat
    requires o + DIRENT <= |c|
  {
    FromLe32(c[o + 26], c[o + 27], c[o + 20], c[o + 21])
  }

  function SizeAt(c: seq<Byte>, o: nat): nat
    requires o + DIRENT <= |c|
  {
    FromLe32(c[o + 28], c[o + 29], c[o + 30], c[o + 31])
  }

  lemma Le32Reads(v: nat)
    requires v < WORD
    ensures var w := Le32(v); |w| == 4 && FromLe32(w[0], w[1], w[2], w[3]) == v
  {
    var lo, hi := v % 0x1_0000, v / 0x1_0000;
    assert lo == lo / 0x100 * 0x100 + lo % 0x100;
    assert hi == hi / 0x100 * 0x100 + hi % 0x100;
  }

  /** The stamp is read back, and the other bytes are as they were. */
  lemma StampedReads(c: seq<Byte>, o: nat, first: nat, size: nat)
    requires o + DIRENT <= |c| && first < WORD && size < WORD
    ensures FirstAt(Stamped(c, o, first, size), o) == first && SizeAt(Stamped(c, o, first, size), o) == size
    ensures forall i | 0 <= i < |c| && !(o + 20 <= i < o + 22) && !(o + 26 <= i < o + 32) ::
              Stamped(c, o, first, size)[i] == c[i]
  {
    Le32Reads(first);
    Le32Reads(size);
    hide FromLe32;
  }

  function DirIndex(g: Geometry, idx: nat): nat
    requires g.spc > 0
  {
    QuotientNat(idx, PerCluster(g));
    idx / PerCluster(g)
  }

  function DirOffset(g: Geometry, idx: nat): nat
    requires g.spc > 0
  {
    DIRENT * (idx % PerCluster(g))
  }

  /** Entry `idx` begins at byte 32 * idx of the directory. */
  lemma DirentPlace(g: Geometry, idx: nat)
    requires g.spc > 0
    ensures Pos(g, DirIndex(g, idx)) + DirOffset(g, idx) == DIRENT * idx
  {
    var n, q, r := PerCluster(g), DirIndex(g, idx), idx % PerCluster(g);
    assert idx == q * n + r;
    assert ClusterSize(g) == DIRENT * n;
    assert q * (DIRENT * n) == DIRENT * (q * n);
  }

  lemma DirentInside(g: Geometry, idx: nat)
    requires g.spc > 0
    ensures DirOffset(g, idx) + DIRENT <= ClusterSize(g)
  {
    var n, r := PerCluster(g), idx % PerCluster(g);
    MulSign(n - r, DIRENT);
  }

  /** The cluster with entry `idx` of the directory whose chain starts at `dir`; 0
      if there is none, or if the file has no entry. */
  function Home(g: Geometry, chains: Chains, dir: nat, idx: nat): nat
    requires g.spc > 0
  {
    if dir != 0 && idx != NO_ENTRY && dir in chains && DirIndex(g, idx) < |chains[dir]|
    then chains[dir][DirIndex(g, idx)] else 0
  }

  /** From `m` to `e` the record at `o` of cluster `dc` was stamped, if there is
      such a cluster, and nothing else changed. */
  ghost predicate Stamp(g: Geometry, m: Sectors, e: Sectors, dc: nat, o: nat, first: nat, size: nat)
    requires first < WORD && size < WORD
  {
    if dc >= 2 then
      && OnlyCluster(g, m, e, dc) && o + DIRENT <= |Cluster(g, m, dc)|
      && Cluster(g, e, dc) == Stamped(Cluster(g, m, dc), o, first, size)
    else e == m
  }

  /** Record `idx` of the directory with chain `l` says where a file starts and how
      long it is: the first cluster in bytes 26, 27, 20 and 21, the size in 28 to 31. */
  ghost predicate Recorded(g: Geometry, m: Sectors, l: seq<nat>, idx: nat, first: nat, size: nat)
    requires g.spc > 0
  {
    var p := DIRENT * idx;
    && FromLe32(FileByte(g, m, l, p + 26), FileByte(g, m, l, p + 27), FileByte(g, m, l, p + 20),
                FileByte(g, m, l, p + 21)) == first
    && FromLe32(FileByte(g, m, l, p + 28), FileByte(g, m, l, p + 29), FileByte(g, m, l, p + 30),
                FileByte(g, m, l, p + 31)) == size
  }

  /** No byte of the directory differs, except for those in record `idx`. */
  ghost predicate OnlyRecord(g: Geometry, m: Sectors, e: Sectors, l: seq<nat>, idx: nat)
    requires g.spc > 0
  {
    forall x: nat ::
      var o := x - DIRENT * idx;
      !(20 <= o < 22 || 26 <= o < 32) ==> FileByte(g, e, l, x) == FileByte(g, m, l, x)
  }

  lemma RecordByte(g: Geometry, m: Sectors, l: seq<nat>, idx: nat, y: nat)
    requires g.spc > 0 && y < DIRENT && DirIndex(g, idx) < |l| && l[DirIndex(g, idx)] >= 2
    ensures DirOffset(g, idx) + DIRENT <= ClusterSize(g)
    ensures FileByte(g, m, l, DIRENT * idx + y) == Cluster(g, m, l[DirIndex(g, idx)])[DirOffset(g, idx) + y]
  {
    hide Cluster, DirIndex, DirOffset, Pos, ClusterOf, OffsetOf;
    DirentPlace(g, idx);
    DirentInside(g, idx);
    Join(g, DirIndex(g, idx), DirOffset(g, idx) + y);
    assert Pos(g, DirIndex(g, idx)) + (DirOffset(g, idx) + y) == DIRENT * idx + y;
  }

  /** Whether the directory has a record `idx`. */
  predicate HasRecord(g: Geometry, l: seq<nat>, idx: nat) {
    idx != NO_ENTRY && DIRENT * idx < Pos(g, |l|)
  }

  lemma HasRecordIs(g: Geometry, l: seq<nat>, idx: nat)
    requires g.spc > 0
    ensures HasRecord(g, l, idx) <==> idx != NO_ENTRY && DirIndex(g, idx) < |l|
  {
    hide Pos, DirIndex, DirOffset;
    DirentPlace(g, idx);
    DirentInside(g, idx);
    PosMono(g, DirIndex(g, idx), |l|);
    PosMono(g, |l|, DirIndex(g, idx));
  }

  /** The stamp seen in the directory as a file. */
  lemma StampRecord(g: Geometry, m: Sectors, e: Sectors, l: seq<nat>, idx: nat, first: nat, size: nat)
    requires g.spc > 0 && first < WORD && size < WORD && DirIndex(g, idx) < |l| && l[DirIndex(g, idx)] >= 2
    requires Stamp(g, m, e, l[DirIndex(g, idx)], DirOffset(g, idx), first, size)
    ensures Recorded(g, e, l, idx, first, size)
  {
    hide Cluster, DirIndex, DirOffset, FromLe32, Stamped, FileByte;
    StampedReads(Cluster(g, m, l[DirIndex(g, idx)]), DirOffset(g, idx), first, size);
    RecordByte(g, e, l, idx, 20);
    RecordByte(g, e, l, idx, 21);
    RecordByte(g, e, l, idx, 26);
    RecordByte(g, e, l, idx, 27);
    RecordByte(g, e, l, idx, 28);
    RecordByte(g, e, l, idx, 29);
    RecordByte(g, e, l, idx, 30);
    RecordByte(g, e, l, idx, 31);
  }

  lemma StampOnly(g: Geometry, m: Sectors, e: Sectors, l: seq<nat>, idx: nat, first: nat, size: nat)
    requires g.spc > 0 && first < WORD && size < WORD && (forall i | 0 <= i < |l| :: 2 <= l[i] < Clusters(g))
    requires (forall i, j | 0 <= i < j < |l| :: l[i] != l[j]) && DirIndex(g, idx) < |l|
    requires Stamp(g, m, e, l[DirIndex(g, idx)], DirOffset(g, idx), first, size)
    ensures OnlyRecord(g, m, e, l, idx)
  {
    hide Cluster, DirIndex, DirOffset, Stamped, Pos, ClusterOf, OffsetOf;
    var ci, o := DirIndex(g, idx), DirOffset(g, idx);
    DirentPlace(g, idx);
    StampedReads(Cluster(g, m, l[ci]), o, first, size);
    forall x: nat | var z := x - DIRENT * idx; !(20 <= z < 22 || 26 <= z < 32)
      ensures FileByte(g, e, l, x) == FileByte(g, m, l, x)
    {
      Split(g, x);
      if ClusterOf(g, x) == ci {
        assert x + o == DIRENT * idx + OffsetOf(g, x);
        assert Cluster(g, e, l[ci])[OffsetOf(g, x)] == Cluster(g, m, l[ci])[OffsetOf(g, x)];
      }
    }
  }

  /** A directory's clusters are on no other chain. */
  lemma HomeApart(g: Geometry, fat: Fat, chains: Chains, places: Places, dir: nat, idx: nat, h: nat)
    requires g.spc > 0 && Forest(fat, chains, places) && h in chains && h != dir && Home(g, chains, dir, idx) >= 2
    ensures Home(g, chains, dir, idx) !in chains[h]
  {
    hide Forest, DirIndex;
    ForestApart(fat, chains, places, dir, DirIndex(g, idx), h);
  }

  /** A stamp in a directory does not show in a file that the cluster is not on. */
  lemma StampElsewhere(g: Geometry, m: Sectors, e: Sectors, dc: nat, o: nat, first: nat, size: nat, l: seq<nat>)
    requires first < WORD && size < WORD && Stamp(g, m, e, dc, o, first, size)
    requires (dc >= 2 ==> dc !in l) && forall i | 0 <= i < |l| :: 2 <= l[i] < Clusters(g)
    ensures SameOn(g, m, e, l)
  {
    hide Cluster, Stamped;
  }

  lemma ShowsElsewhere(g: Geometry, m: Sectors, e: Sectors, l: seq<nat>, off: nat, data: seq<Byte>)
    requires g.spc > 0 && SameOn(g, m, e, l) && off + |data| <= Pos(g, |l|)
    requires forall x: nat | off <= x < off + |data| :: FileByte(g, m, l, x) == data[x - off]
    ensures forall x: nat | off <= x < off + |data| :: FileByte(g, e, l, x) == data[x - off]
  {
    forall x: nat | off <= x < off + |data|
      ensures FileByte(g, e, l, x) == data[x - off]
    {
      FileByteSame(g, m, e, l, l, x);
    }
  }

  /** A byte of the old file outside the data, where it can be read. */
  lemma OldByte(g: Geometry, m0: Sectors, l0: seq<nat>, m: Sectors, e: Sectors, l: seq<nat>, at: nat,
                done: seq<Byte>, x: nat, out: seq<Byte>)
    requires g.spc > 0 && Writing(g, m0, l0, m, l, at, done) && SameOn(g, m, e, l) && x < Pos(g, |l0|)
    ensures Pos(g, |l0|) <= Pos(g, |l|)
    ensures !(at <= x < at + |done|) && |out| == 1 && Shows(g, e, l, x, out) ==> out == [FileByte(g, m0, l0, x)]
  {
    hide FileByte, Cluster, Pos, SameOn;
    PosMono(g, |l0|, |l|);
    FileByteSame(g, m, e, l, l, x);
    if |out| == 1 && Shows(g, e, l, x, out) {
      assert out[0] == FileByte(g, e, l, x + 0);
    }
  }

  lemma OnlyRecordMore(g: Geometry, m0: Sectors, m: Sectors, e: Sectors, l: seq<nat>, idx: nat)
    requires g.spc > 0 && OnlyRecord(g, m0, m, l, idx) && OnlyRecord(g, m, e, l, idx)
    ensures OnlyRecord(g, m0, e, l, idx)
  {
    hide FileByte;
  }

  /** Writing another file changes no byte of a directory. */
  lemma DirectoryKept(g: Geometry, m0: Sectors, l0: seq<nat>, m: Sectors, fat: Fat, chains: Chains, places: Places,
                      h: nat, dir: nat, idx: nat, off: nat, done: seq<Byte>)
    requires g.spc > 0 && Forest(fat, chains, places) && |fat| == Clusters(g) && h in chains && dir in chains
             && h != dir
    requires Writing(g, m0, l0, m, chains[h], off, done)
    ensures OnlyRecord(g, m0, m, chains[dir], idx)
  {
    hide FileByte, Writing, Forest;
    forall x: nat
      ensures FileByte(g, m, chains[dir], x) == FileByte(g, m0, chains[dir], x)
    {
      OtherFilesKept(g, m0, l0, m, fat, chains, places, h, dir, off, done, x);
    }
  }
}
