/** What ext2_mkdir_op of fs/ext2.c adds to file creation: the first block of a
new directory, with '.' and '..' in it. */
module Ext2Mkdir {
  import opened Bytes
  import opened Ext2Map
  import opened Ext2State
  import opened Ext2Release
  import opened Ext2Dir
  import opened Ext2Tree
  import Bits = Ext2Bitmap

  const FT_DIR: Byte := 2
  const DOT_LEN: nat := 12

  function Dot(ino: nat): Dirent {
    Dirent([46], ino, FT_DIR)
  }

  function DotDot(parent: nat): Dirent {
    Dirent([46, 46], parent, FT_DIR)
  }

  /** The block as it is written: two records that fill it. */
  function Dots(bs: nat, ino: nat, parent: nat): (c: Block)
    requires 0 < ino < 0x1_0000_0000 && 0 < parent < 0x1_0000_0000 && 24 <= bs < 0x1_0000
    ensures |c| == bs
  {
    PutRecord(PutRecord(Zeros(bs), 0, DOT_LEN, Dot(ino)), DOT_LEN, bs - DOT_LEN, DotDot(parent))
  }

  lemma DotsLive(bs: nat, ino: nat, parent: nat)
    requires 0 < ino < 0x1_0000_0000 && 0 < parent < 0x1_0000_0000 && 24 <= bs < 0x1_0000 && bs % 4 == 0
    ensures Tiled(Dots(bs, ino, parent)) && Live(Dots(bs, ino, parent)) == [Dot(ino), DotDot(parent)]
  {
    hide PutRecord;
    var z := Zeros(bs);
    var b := PutRecord(z, 0, DOT_LEN, Dot(ino));
    var c := Dots(bs, ino, parent);
    PutRecordAt(z, 0, DOT_LEN, Dot(ino));
    PutRecordAt(b, DOT_LEN, bs - DOT_LEN, DotDot(parent));
    RecordFrame(b, c, 0);
    ChainTwo(c, 0, DOT_LEN, bs);
  }

  /** An inode bit may be taken before the inode is in use. */
  lemma TakenCore(s: State, j: nat)
    requires Core(s) && j < Bits.Size(s.ibits) && !Bits.IsSet(s.ibits, j)
    ensures Bits.Located(s.ibits, j) && s.ibits.free[Bits.GroupOf(s.ibits, j)] > 0
    ensures var m := Bits.Take(s.ibits, j); Core(s.(ibits := m)) && Bits.Counted(m) && Bits.IsSet(m, j)
  {
    Bits.TakeCounted(s.ibits, j);
    hide Bits.IsSet, Bits.Counted, Bits.Take, Bits.Located, Owns;
  }

  lemma TakenValid(s: State, j: nat)
    requires Valid(s) && j < Bits.Size(s.ibits) && !Bits.IsSet(s.ibits, j)
    ensures Bits.Located(s.ibits, j) && s.ibits.free[Bits.GroupOf(s.ibits, j)] > 0
    ensures Valid(s.(ibits := Bits.Take(s.ibits, j)))
  {
    hide Bits.IsSet, Bits.Counted, Bits.Take, Bits.Located, Core, Tails;
    TakenCore(s, j);
    var t := s.(ibits := Bits.Take(s.ibits, j));
    forall l: nat
      ensures SizedAt(t, l, 0, 0)
    {
      assert SizedAt(s, l, 0, 0);
    }
  }

  /** Setting a block aside changes no file. */
  lemma GrabValid(s: State, n: nat, j: nat)
    requires Valid(s) && n < Bits.Size(s.bbits) && !Bits.IsSet(s.bbits, n)
    ensures Grabbable(s, s.fdb + n)
    ensures var g := Grab(s, s.fdb + n);
            && Valid(g) && OthersSame(s, g, j) && Reserved(g, s.fdb + n) && Blank(g.disk, s.fdb + n)
            && g.disk.live == s.disk.live && g.ibits == s.ibits && g.disk.bs == s.disk.bs
  {
    hide Bits.IsSet, Bits.Counted, Core, Sized, Tails, OthersSame, Quiet;
    GrabCore(s, n, j);
    SizedAny(s, 0, j);
    GrabSized(s, s.fdb + n, j, 0);
    QuietValid(s, Grab(s, s.fdb + n), j);
  }

  /** A new inode beside a block that is set aside. */
  lemma BornBeside(s: State, n: nat, j: nat, i: Inode)
    requires Valid(s) && n < Bits.Size(s.bbits) && !Bits.IsSet(s.bbits, n)
    requires j < Bits.Size(s.ibits) && !Bits.IsSet(s.ibits, j) && Empty(i)
    ensures Grabbable(s, s.fdb + n) && j < |s.disk.inodes| && j !in s.disk.live && j !in s.disk.loose
    ensures Bits.Located(s.ibits, j) && s.ibits.free[Bits.GroupOf(s.ibits, j)] > 0
    ensures var t := Born(Grab(s, s.fdb + n), j, i);
            && Valid(t) && OthersSame(s, t, j) && Reserved(t, s.fdb + n) && Blank(t.disk, s.fdb + n)
  {
    hide Bits.IsSet, Core, Sized, Tails, OthersSame, OwnedBy, Bits.Take, Bits.Counted;
    GrabValid(s, n, j);
    var g := Grab(s, s.fdb + n);
    BornValid(g, j, i);
    OthersTransitive(s, g, Born(g, j, i), j);
  }

  /** A new inode without blocks is an empty directory. */
  lemma NewDirEmpty(t: State, j: nat)
    requires Valid(t) && j in t.disk.live && j !in t.disk.loose && j < |t.disk.inodes| && Empty(t.disk.inodes[j])
    ensures Ptrs(t.disk) > 0 && PhysOf(t.disk, j, 0) == 0
    ensures DirOk(t.disk, j) && DirBlocks(t.disk, j) == 0 && Entries(t.disk, j) == [] && NoHoles(t.disk, j)
  {
    CoreInode(t, j);
    hide Core, Sized, Tails;
    NoBlocks(t.disk, j);
  }

  lemma NoBlocks(d: Disk, j: nat)
    requires Ptrs(d) > 0 && j < |d.inodes| && Empty(d.inodes[j])
    ensures forall lb: nat :: PhysOf(d, j, lb) == 0
  {
  }

  /** A file with the one direct block `pb` owns that block only. */
  lemma OneBlockOwned(s: State, j: nat, pb: nat)
    requires Core(s) && j in s.disk.live && j < |s.disk.inodes| && OneBlock(s.disk.inodes[j], pb)
    ensures OwnedBy(s.owner, j) == {pb}
  {
    hide Bits.IsSet, Bits.Counted;
    assert forall p :: Ref(s.disk, j, p) == if p == Direct(0) then pb else 0;
    assert Ref(s.disk, j, Direct(0)) == pb;
    assert forall b | b in s.owner :: Ref(s.disk, s.owner[b].0, s.owner[b].1) == b != 0;
  }

  ghost predicate OneBlock(n: Inode, pb: nat) {
    |n.block| == N_BLOCKS && pb != 0 && n.block[0] == pb && forall i | 0 < i < N_BLOCKS :: n.block[i] == 0
  }

  /** The new directory taken back. */
  function Unmade(u: State, j: nat, pb: nat): State
    requires Bits.Located(u.ibits, j) && u.fdb <= pb && Bits.Located(u.bbits, pb - u.fdb)
  {
    u.(disk := u.disk.(live := u.disk.live - {j}), ibits := Bits.Give(u.ibits, j),
       bbits := Bits.Give(u.bbits, pb - u.fdb), owner := u.owner - {pb})
  }

  /** Nothing is left of a directory whose name could not be added. */
  lemma UnmakeValid(s: State, u: State, j: nat, k: nat, pb: nat)
    requires Valid(u) && j in u.disk.live && OwnedBy(u.owner, j) == {pb} && j != k && DirOk(u.disk, k)
    requires forall l: nat | l != j && l != k :: Untouched(s, u, l)
    requires u.disk.live == s.disk.live + {j} && j !in s.disk.live && j !in u.disk.loose
    ensures Bits.Located(u.ibits, j) && u.fdb <= pb && Bits.Located(u.bbits, pb - u.fdb)
    ensures Bits.Counted(u.ibits) && Bits.IsSet(u.ibits, j) && Bits.Counted(u.bbits) && Bits.IsSet(u.bbits, pb - u.fdb)
    ensures Valid(Unmade(u, j, pb)) && DirOk(Unmade(u, j, pb).disk, k)
    ensures Entries(Unmade(u, j, pb).disk, k) == Entries(u.disk, k) && Unmade(u, j, pb).disk.live == s.disk.live
    ensures NoHoles(u.disk, k) ==> NoHoles(Unmade(u, j, pb).disk, k)
    ensures Unmade(u, j, pb).bbits.sb == u.bbits.sb + 1
    ensures forall l: nat | l != k && l in s.disk.live :: Untouched(s, Unmade(u, j, pb), l)
  {
    hide Core, Sized, Tails, DirOk, Entries, OthersSame, Untouched, Without, Bits.Located, Bits.Give, Bits.Counted,
      OwnedBy, NoHoles;
    OwnedBit(u, j, pb);
    GiveOne(u.bbits, pb - u.fdb);
    CoreInode(u, j);
    CoreBits(u);
    WithoutNone(u.bbits, u.fdb);
    WithoutMore(u.bbits, u.bbits, u.fdb, {}, pb);
    assert {} + {pb} == {pb};
    var n, m := u.disk.inodes[j], Bits.Give(u.bbits, pb - u.fdb);
    EraseValid(u, j, m, n, {pb});
    var v := Unmade(u, j, pb);
    assert u.disk.inodes[j := n] == u.disk.inodes;
    assert v == Erase(u, j, m, n);
    DirOthers(u, v, j, k);
    forall l: nat | l != k && l in s.disk.live
      ensures Untouched(s, v, l)
    {
      OthersUntouched(u, v, j, l);
      UntouchedTransitive(s, u, v, l);
    }
  }

  lemma GiveOne(m: Bits.Bitmap, n: nat)
    ensures Bits.Located(m, n) ==> Bits.Give(m, n).sb == m.sb + 1
  {
  }

  /** One more link on a directory does not show in its entries. */
  lemma LinkedDir(s: State, k: nat, links: nat)
    requires Valid(s) && k in s.disk.live && k < |s.disk.inodes| && DirOk(s.disk, k)
    ensures var t := s.(disk := SetInode(s.disk, k, s.disk.inodes[k].(links := links)));
            && Valid(t) && OthersSame(s, t, k) && DirOk(t.disk, k) && Entries(t.disk, k) == Entries(s.disk, k)
            && NoHoles(t.disk, k) == NoHoles(s.disk, k)
  {
    hide Core, Sized, Tails, OthersSame, SameFile, Entries, DirOk, NoHoles;
    DirOkInode(s.disk, k);
    LinksValid(s, k, links);
    var t := s.(disk := SetInode(s.disk, k, s.disk.inodes[k].(links := links)));
    CoreBits(t);
    DirFrame(s, t, k);
  }

  lemma ValidInode(s: State, k: nat)
    requires Valid(s) && k in s.disk.live
    ensures Ptrs(s.disk) >= 256 && k < |s.disk.inodes|
  {
    CoreInode(s, k);
  }

  /** An inode that a step does not concern. */
  lemma OthersAt(s: State, t: State, k: nat, l: nat)
    requires OthersSame(s, t, k) && l != k && l < |s.disk.inodes|
    ensures |t.disk.inodes| == |s.disk.inodes| && t.disk.inodes[l] == s.disk.inodes[l]
    ensures t.disk.bs == s.disk.bs
    ensures (l in t.disk.live <==> l in s.disk.live) && (l in t.disk.loose <==> l in s.disk.loose)
    ensures Ptrs(s.disk) > 0 ==> DirBlocks(t.disk, l) == DirBlocks(s.disk, l) && Reach(t.disk) == Reach(s.disk)
  {
  }

  lemma OneBlockOwnedIn(s: State, j: nat, pb: nat)
    requires Valid(s) && j in s.disk.live && j < |s.disk.inodes| && OneBlock(s.disk.inodes[j], pb)
    ensures OwnedBy(s.owner, j) == {pb}
  {
    OneBlockOwned(s, j, pb);
  }

  lemma NotFirst(n: Inode, pb: nat)
    requires OneBlock(n, pb)
    ensures pb != 0
  {
  }
}
