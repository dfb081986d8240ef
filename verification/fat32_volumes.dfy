/** FAT32 volumes from scratch, a write that cuts the size of a file, and a cluster
that is not blanked. */
module Fat32Volumes {
  import opened Bytes
  import opened Fat32Chains
  import opened Fat32Disk
  import opened Fat32File
  import opened Fat32Dirent
  import opened Fat32

  /** Room for the table between the reserved sectors and the data area. */
  predicate Laid(g: Geometry) {
    && g.spc > 0 && g.total + 2 <= EOC_MIN && g.fatLba + (g.total + 1) * 4 / SECTOR < g.dataLba
    && g.dataLba + g.total * g.spc <= NO_LBA
  }

  /** A volume on which nothing is allocated; the data area is full of `x`. */
  function Blank(g: Geometry, x: Byte): Sectors {
    seq(g.dataLba + g.total * g.spc, l => seq(SECTOR, _ => if l < g.dataLba then 0 else x))
  }

  lemma BlankFits(g: Geometry, x: Byte)
    requires Laid(g)
    ensures Fits(g, Blank(g, x))
  {
    forall c: nat | c < Clusters(g)
      ensures FatSector(g, c) < g.dataLba
    {
      assert c * 4 <= (g.total + 1) * 4;
    }
  }

  lemma ZeroWord(s: seq<Byte>, i: nat)
    requires |s| == SECTOR && (forall j | 0 <= j < SECTOR :: s[j] == 0) && 4 * i + 4 <= SECTOR
    ensures Word(s, i) == 0
  {
  }

  lemma BlankTable(g: Geometry, x: Byte)
    requires Laid(g)
    ensures forall c: nat | c < Clusters(g) :: FatOf(g, Blank(g, x))[c] == FREE
    ensures Forest(FatOf(g, Blank(g, x)), map[], map[])
    ensures CountFree(FatOf(g, Blank(g, x))) == g.total
  {
    hide Word;
    BlankFits(g, x);
    forall c: nat | c < Clusters(g)
      ensures FatOf(g, Blank(g, x))[c] == FREE
    {
      ZeroWord(Blank(g, x)[FatSector(g, c)], FatIndex(c));
    }
    AllFree(FatOf(g, Blank(g, x)));
  }

  lemma BlankCluster(g: Geometry, x: Byte, c: nat, y: nat)
    requires Laid(g) && 2 <= c < Clusters(g) && y < ClusterSize(g)
    ensures Cluster(g, Blank(g, x), c)[y] == x
  {
    hide LbaOf;
    BlankFits(g, x);
    LbaInside(g, Blank(g, x), c);
    assert y / SECTOR < g.spc;
  }

  lemma {:induction false} AllFree(fat: Fat)
    requires |fat| >= 2 && forall c: nat | c < |fat| :: fat[c] == FREE
    ensures CountFree(fat) == |fat| - 2
    decreases |fat|
  {
    if |fat| > 2 {
      AllFree(fat[..|fat| - 1]);
    }
  }

  /** A blank volume, mounted. */
  method Format(g: Geometry, x: Byte, hint: nat) returns (fs: Fat32Fs)
    requires Laid(g) && hint <= Clusters(g)
    ensures fresh(fs) && fs.g == g && fs.Valid() && fs.Exact() && fs.Left() == g.total && fs.chains == map[]
    ensures fs.M() == Blank(g, x) && fs.hint == hint
  {
    hide Forest, FatOf, CountFree, Fits, Blank;
    BlankFits(g, x);
    BlankTable(g, x);
    fs := new Fat32Fs(g, Blank(g, x), hint, g.total, map[], map[]);
  }

  /** A search that starts behind the last cluster comes back to the front, where the
      code does not blank what it finds: a new cluster shows the old bytes. */
  method StaleCluster(g: Geometry, x: Byte) returns (c: nat, b: seq<Byte>)
    requires Laid(g) && g.total > 0
    ensures 2 <= c < Clusters(g) && |b| == ClusterSize(g) && forall y | 0 <= y < |b| :: b[y] == x
  {
    hide Fat32Fs.Mounted, Fat32Fs.Exact, Fat32Fs.Left, Blank, FatOf, NoneFree, Forest, Cluster, Laid;
    var fs := Format(g, x, Clusters(g));
    BlankTable(g, x);
    SomeFree(fs.Table(), 2);
    c := fs.AllocCluster(0);
    b := fs.ReadCluster(c);
    forall y: nat | y < |b|
      ensures b[y] == x
    {
      BlankCluster(g, x, c, y);
    }
  }

  lemma LargeVolume()
    ensures var g := Geometry(32, 600, 128, 65600); Laid(g) && Pos(g, g.total) > WORD
  {
  }

  /** A file of 100 bytes with room for 4 GiB and more, then two bytes at 2^32 - 1.
      The driver reports both written; the file now has size 1, the two bytes cannot
      be read and of the first hundred only one can. */
  method CutFile(fs: Fat32Fs, inode: nat, more: seq<Byte>)
    returns (r: WriteResult, size: nat, left: seq<Byte>, back: seq<Byte>)
    requires fs.Valid() && fs.g.spc > 0 && inode >= 2 && inode in fs.chains && 1 <= Pos(fs.g, |fs.chains[inode]|)
    requires Pos(fs.g, fs.Left() + |fs.chains[inode]|) > WORD && |more| == 2
    modifies fs
    ensures r == Wrote(2) && size == 1 && back == []
    ensures left == [old(FileByte(fs.g, fs.M(), fs.chains[inode], 0))]
  {
    hide Fat32Fs.Valid, Fat32Fs.Exact, Writing, SameOn, Stamp, Home, FileByte, Spot, Shows, Pos, NoneFree, OtherChains,
      Fat32Fs.M, Fat32Fs.Left;
    ghost var g, m, l := fs.g, fs.M(), fs.chains[inode];
    SpotSame(g, 0xFFFF_FFFF);
    ghost var mid;
    var inode';
    r, inode', size, mid := fs.Write(inode, 100, 0xFFFF_FFFF, more, 0, NO_ENTRY);
    assert r == Wrote(2);
    back := fs.Read(inode', size, 0xFFFF_FFFF, 2);
    left := fs.Read(inode', size, 0, 100);
    OldByte(g, m, l, mid, fs.M(), fs.chains[inode'], 0xFFFF_FFFF, more[..2], 0, left);
  }

  /** Such a file on a blank volume of more than 4 GiB. */
  method SizeCut(g: Geometry, first: seq<Byte>, more: seq<Byte>)
    returns (r: WriteResult, size: nat, left: seq<Byte>, back: seq<Byte>)
    requires Laid(g) && Pos(g, g.total) > WORD && |first| == 100 && |more| == 2
    ensures r == Wrote(2) && size == 1 && left == first[..1] && back == []
  {
    hide Fat32Fs.Valid, Fat32Fs.Exact, Writing, SameOn, Stamp, Home, FileByte, Spot, Shows, Pos, NoneFree, OtherChains,
      Fat32Fs.M, Fat32Fs.Left;
    var fs := Format(g, 0, 2);
    ghost var m := fs.M();
    ghost var mid;
    var r0, inode, size0;
    SpotSame(g, 0);
    r0, inode, size0, mid := fs.Write(0, 0, 0, first, 0, NO_ENTRY);
    assert r0 == Wrote(100);
    ghost var l := fs.chains[inode];
    WritingData(g, m, [], mid, l, 0, first[..100]);
    FileByteSame(g, mid, fs.M(), l, l, 0);
    r, size, left, back := CutFile(fs, inode, more);
  }
}
