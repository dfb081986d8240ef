/** Giving back the blocks of a deleted file: which blocks the loops of
ext2_unlink_op visit, and what is left when they are done. */
module Ext2Release {
  import opened Arith
  import opened Bytes
  import opened Ext2Map
  import opened Ext2State
  import Bits = Ext2Bitmap

  /** `m` is `m0` with the bits of the blocks in `freed` cleared, each once. */
  ghost predicate Without(m0: Bits.Bitmap, m: Bits.Bitmap, fdb: nat, freed: set<nat>) {
    && Bits.Counted(m) && Bits.Size(m) == Bits.Size(m0)
    && m.sb == m0.sb + |freed|
    && forall n: nat {:trigger Bits.IsSet(m, n)} :: Bits.IsSet(m, n) <==> Bits.IsSet(m0, n) && fdb + n !in freed
  }

  lemma WithoutNone(m: Bits.Bitmap, fdb: nat)
    requires Bits.Counted(m)
    ensures Without(m, m, fdb, {})
  {
  }

  lemma WithoutOne(m: Bits.Bitmap, fdb: nat, b: nat)
    requires Bits.Counted(m) && b >= fdb && Bits.IsSet(m, b - fdb)
    ensures Bits.Located(m, b - fdb) && Without(m, Bits.Give(m, b - fdb), fdb, {b})
  {
    WithoutNone(m, fdb);
    WithoutMore(m, m, fdb, {}, b);
    assert {} + {b} == {b};
  }

  lemma WithoutMore(m0: Bits.Bitmap, m: Bits.Bitmap, fdb: nat, freed: set<nat>, b: nat)
    requires Without(m0, m, fdb, freed) && b !in freed && b >= fdb && Bits.IsSet(m0, b - fdb)
    ensures Bits.Counted(m) && Bits.IsSet(m, b - fdb) && Bits.Located(m, b - fdb)
    ensures Without(m0, Bits.Give(m, b - fdb), fdb, freed + {b})
  {
    Bits.GiveCounted(m, b - fdb);
    hide Bits.Counted, Bits.IsSet, Bits.Give, Bits.Located;
  }

  /** The blocks mapped by the first `n` logical blocks of inode `k`. */
  function DataBlocks(d: Disk, k: nat, n: nat): set<nat>
    requires Ptrs(d) > 0
  {
    set lb: nat | lb < n && PhysOf(d, k, lb) != 0 :: PhysOf(d, k, lb)
  }

  /** The tables named by the first `n` entries of the double-indirect table. */
  function InnerTables(d: Disk, k: nat, n: nat): set<nat> {
    set i: nat | i < n && Ref(d, k, DoubleAt(i)) != 0 :: Ref(d, k, DoubleAt(i))
  }

  function NonZero(b: nat): set<nat> {
    if b == 0 then {} else {b}
  }

  lemma DataBlocksNext(s: State, k: nat, n: nat)
    requires Core(s) && Ptrs(s.disk) > 0
    ensures var b := PhysOf(s.disk, k, n);
            && DataBlocks(s.disk, k, n + 1) == DataBlocks(s.disk, k, n) + NonZero(b)
            && (b != 0 ==> b !in DataBlocks(s.disk, k, n) && Used(s, b) && b in s.owner)
  {
    var b := PhysOf(s.disk, k, n);
    hide PhysOf, Bits.IsSet, Bits.Counted, Owns;
    if b != 0 {
      MappedOwned(s.disk, s.owner, k, n);
      forall lb: nat | lb < n && PhysOf(s.disk, k, lb) == b
        ensures false
      {
        MappedOwned(s.disk, s.owner, k, lb);
        LeafInjective(s.disk, lb, n);
      }
    }
  }

  /** A data block is not a table. */
  lemma DataNotTable(s: State, k: nat, n: nat, p: Place)
    requires Core(s) && Ptrs(s.disk) > 0 && IsTable(p) && Ref(s.disk, k, p) != 0
    ensures Ref(s.disk, k, p) !in DataBlocks(s.disk, k, n)
  {
    TableOwned(s, k, p);
    var t := Ref(s.disk, k, p);
    hide PhysOf, Ref, Bits.IsSet, Bits.Counted, Owns, Leaf;
    forall lb: nat | lb < n && PhysOf(s.disk, k, lb) == t
      ensures false
    {
      MappedOwned(s.disk, s.owner, k, lb);
    }
  }

  lemma InnerTablesNext(s: State, k: nat, n: nat)
    requires Core(s)
    ensures var b := Ref(s.disk, k, DoubleAt(n));
            && InnerTables(s.disk, k, n + 1) == InnerTables(s.disk, k, n) + NonZero(b)
            && (b != 0 ==> b !in InnerTables(s.disk, k, n) && Used(s, b))
  {
    var b := Ref(s.disk, k, DoubleAt(n));
    hide Ref, Bits.IsSet, Bits.Counted;
    if b != 0 {
      TableOwned(s, k, DoubleAt(n));
      forall i: nat | i < n && Ref(s.disk, k, DoubleAt(i)) == b
        ensures false
      {
        OwnsNoSharing(s.disk, s.owner, k, DoubleAt(i), k, DoubleAt(n));
      }
    }
  }

  lemma InnerNotOuter(s: State, k: nat, n: nat, p: Place)
    requires Core(s) && Ref(s.disk, k, p) != 0 && (p.Single? || p.Double?)
    ensures Ref(s.disk, k, p) !in InnerTables(s.disk, k, n)
  {
    hide Ref, Bits.IsSet, Bits.Counted;
    forall i: nat | i < n && Ref(s.disk, k, DoubleAt(i)) == Ref(s.disk, k, p)
      ensures false
    {
      OwnsNoSharing(s.disk, s.owner, k, DoubleAt(i), k, p);
    }
  }

  /** Blocks that ext2_unlink_op frees for inode `k`. */
  function Visited(d: Disk, k: nat, n: nat): set<nat>
    requires Ptrs(d) > 0
  {
    DataBlocks(d, k, n) + NonZero(Ref(d, k, Single)) + InnerTables(d, k, Ptrs(d)) + NonZero(Ref(d, k, Double))
  }

  /** Places outside the geometry hold no pointer. */
  lemma PlaceInside(d: Disk, k: nat, p: Place)
    requires Shaped(d) && Ref(d, k, p) != 0
    ensures p.Direct? ==> p.i < NDIR
    ensures p.SingleAt? ==> p.i < Ptrs(d)
    ensures p.DoubleAt? ==> p.i < Ptrs(d)
    ensures p.DoubleAtAt? ==> p.i < Ptrs(d) && p.j < Ptrs(d)
  {
    hide Word;
  }

  /** The logical block that a data place maps. */
  function LogicalOf(d: Disk, p: Place): nat {
    match p
    case Direct(i) => i
    case SingleAt(i) => NDIR + i
    case DoubleAtAt(i, j) => NDIR + Ptrs(d) + i * Ptrs(d) + j
    case _ => 0
  }

  lemma LogicalOfLeaf(d: Disk, k: nat, p: Place)
    requires Shaped(d) && Ref(d, k, p) != 0 && !IsTable(p)
    ensures var lb := LogicalOf(d, p); lb < Reach(d) && Leaf(d, lb) == p && PhysOf(d, k, lb) == Ref(d, k, p)
  {
    PlaceInside(d, k, p);
    if p.DoubleAtAt? {
      LeafOnto(d, p.i, p.j);
    }
    hide Ref;
    PhysOfRef(d, k, LogicalOf(d, p));
  }

  /** The pointer tables of inode `k`. */
  function Tables(d: Disk, k: nat): set<nat>
    requires Ptrs(d) > 0
  {
    NonZero(Ref(d, k, Single)) + InnerTables(d, k, Ptrs(d)) + NonZero(Ref(d, k, Double))
  }

  /** The visited blocks are exactly the blocks the inode owns, provided no data
      block lies at or past logical block `n`. */
  lemma VisitedIsOwned(s: State, k: nat, n: nat)
    requires Core(s) && Ptrs(s.disk) > 0
    requires forall lb: nat | PhysOf(s.disk, k, lb) != 0 :: lb < n
    ensures Visited(s.disk, k, n) == OwnedBy(s.owner, k)
  {
    hide Bits.IsSet, Bits.Counted;
    forall b | b in Visited(s.disk, k, n)
      ensures b in OwnedBy(s.owner, k)
    {
      VisitedOwned(s, k, n, b);
    }
    forall b | b in OwnedBy(s.owner, k)
      ensures b in Visited(s.disk, k, n)
    {
      OwnedVisited(s, k, n, b);
    }
  }

  lemma VisitedOwned(s: State, k: nat, n: nat, b: nat)
    requires Core(s) && Ptrs(s.disk) > 0 && b in Visited(s.disk, k, n)
    ensures b in OwnedBy(s.owner, k)
  {
    hide Bits.IsSet, Bits.Counted, Ref, PhysOf, Leaf;
    if b in DataBlocks(s.disk, k, n) {
      var lb: nat :| lb < n && PhysOf(s.disk, k, lb) == b && b != 0;
      MappedOwned(s.disk, s.owner, k, lb);
    }
  }

  lemma OwnedVisited(s: State, k: nat, n: nat, b: nat)
    requires Core(s) && Ptrs(s.disk) > 0 && b in OwnedBy(s.owner, k)
    requires forall lb: nat | PhysOf(s.disk, k, lb) != 0 :: lb < n
    ensures b in Visited(s.disk, k, n)
  {
    hide Bits.IsSet, Bits.Counted, Ref, PhysOf, Leaf;
    var p := s.owner[b].1;
    assert Ref(s.disk, k, p) == b != 0;
    PlaceInside(s.disk, k, p);
    if !IsTable(p) {
      LogicalOfLeaf(s.disk, k, p);
    }
  }

  // ---------------------------------------------------------------------
  // Inodes come and go
  // ---------------------------------------------------------------------

  function ZeroInode(): Inode {
    Inode(0, 0, 0, 0, seq(N_BLOCKS, _ => 0))
  }

  /** The state with inode `k` gone: its slot holds `n`, its blocks are those
      the bitmap `m` has cleared. */
  function Erase(s: State, k: nat, m: Bits.Bitmap, n: Inode): State
    requires k < |s.disk.inodes| && Bits.Located(s.ibits, k)
  {
    s.(disk := s.disk.(inodes := s.disk.inodes[k := n], live := s.disk.live - {k}, loose := s.disk.loose - {k}),
       bbits := m, ibits := Bits.Give(s.ibits, k), owner := s.owner - OwnedBy(s.owner, k))
  }

  lemma EraseOwns(s: State, k: nat, e: Disk)
    requires Core(s) && k < |s.disk.inodes| && e.blocks == s.disk.blocks && |e.inodes| == |s.disk.inodes|
    requires e.live == s.disk.live - {k}
    requires forall l: nat | l < |e.inodes| && l != k :: e.inodes[l] == s.disk.inodes[l]
    ensures Owns(e, s.owner - OwnedBy(s.owner, k))
  {
    hide Bits.IsSet, Bits.Counted, At;
    var o := s.owner - OwnedBy(s.owner, k);
    forall l: nat, p
      ensures Ref(e, l, p) == if l == k then 0 else Ref(s.disk, l, p)
    {
    }
  }

  lemma EraseSized(s: State, k: nat, m: Bits.Bitmap, n: Inode)
    requires Sized(s, 0, 0) && k < |s.disk.inodes| && Bits.Located(s.ibits, k)
    ensures Sized(Erase(s, k, m, n), 0, 0)
  {
    hide Bits.IsSet, Bits.Give, Bits.Located;
    var t := Erase(s, k, m, n);
    forall l: nat
      ensures SizedAt(t, l, 0, 0)
    {
      assert SizedAt(s, l, 0, 0);
      if l != k {
        assert OwnedBy(t.owner, l) == OwnedBy(s.owner, l);
      }
    }
  }

  lemma EraseOthers(s: State, k: nat, m: Bits.Bitmap, n: Inode)
    requires Core(s) && k < |s.disk.inodes| && Bits.Located(s.ibits, k) && |n.block| == N_BLOCKS
    ensures OthersSame(s, Erase(s, k, m, n), k)
  {
    hide Bits.IsSet, Bits.Counted, Bits.Give, Bits.Located, Owns, Phys;
    var t := Erase(s, k, m, n);
    forall l: nat | l != k
      ensures SameFile(s.disk, t.disk, l)
    {
      forall lb: nat
        ensures PhysOf(t.disk, l, lb) == PhysOf(s.disk, l, lb)
      {
        if l in s.disk.live && l < |s.disk.inodes| {
          PhysSameBlocks(s.disk, t.disk, s.disk.inodes[l], lb);
        }
      }
      hide PhysOf;
      forall x: nat
        ensures ByteAt(t.disk, l, x) == ByteAt(s.disk, l, x)
      {
        CellSplit(s.disk, t.disk, x);
      }
    }
  }

  lemma PhysSameBlocks(d: Disk, e: Disk, n: Inode, lb: nat)
    requires d.blocks == e.blocks && d.bs == e.bs && Ptrs(d) > 0 && |n.block| == N_BLOCKS
    ensures Phys(e, n, lb) == Phys(d, n, lb)
  {
  }

  lemma EraseCore(s: State, k: nat, m: Bits.Bitmap, n: Inode, freed: set<nat>)
    requires Core(s) && k in s.disk.live && |n.block| == N_BLOCKS
    requires Without(s.bbits, m, s.fdb, freed) && freed <= OwnedBy(s.owner, k)
    ensures k < |s.disk.inodes| && Bits.Located(s.ibits, k) && Bits.Counted(s.ibits) && Bits.IsSet(s.ibits, k)
    ensures Core(Erase(s, k, m, n))
  {
    hide Bits.IsSet, Bits.Counted, Bits.Give, Bits.Located, Owns;
    Bits.GiveCounted(s.ibits, k);
    var t := Erase(s, k, m, n);
    EraseOwns(s, k, t.disk);
    EraseOwnedUsed(s, k, m, freed);
    EraseClearInside(s, k, m, freed);
    hide OwnedBy, Without;
    assert LiveUsed(t);
    assert OwnedUsed(t);
    assert ClearInside(t);
  }

  lemma EraseOwnedUsed(s: State, k: nat, m: Bits.Bitmap, freed: set<nat>)
    requires Core(s) && Without(s.bbits, m, s.fdb, freed) && freed <= OwnedBy(s.owner, k)
    ensures forall b | b in s.owner - OwnedBy(s.owner, k) :: b >= s.fdb && Bits.IsSet(m, b - s.fdb)
  {
    hide Bits.IsSet, Bits.Counted, Owns, Shaped, LiveUsed, ClearInside;
    forall b | b in s.owner - OwnedBy(s.owner, k)
      ensures b >= s.fdb && Bits.IsSet(m, b - s.fdb)
    {
      assert Used(s, b);
      assert s.fdb + (b - s.fdb) == b;
    }
  }

  lemma EraseClearInside(s: State, k: nat, m: Bits.Bitmap, freed: set<nat>)
    requires Core(s) && Without(s.bbits, m, s.fdb, freed) && freed <= OwnedBy(s.owner, k)
    ensures forall x: nat | x < Bits.Size(m) && !Bits.IsSet(m, x) :: 0 < s.fdb + x < |s.disk.blocks|
  {
    hide Bits.IsSet, Bits.Counted, Owns, Shaped, LiveUsed, OwnedUsed;
    forall x: nat | x < Bits.Size(m) && !Bits.IsSet(m, x)
      ensures 0 < s.fdb + x < |s.disk.blocks|
    {
      if Bits.IsSet(s.bbits, x) {
        OwnedInside(s, s.fdb + x);
      }
    }
  }

  lemma OwnedInside(s: State, b: nat)
    requires Core(s) && b in s.owner
    ensures 0 < b < |s.disk.blocks|
  {
  }

  /** Deleting an inode and clearing blocks it owned. What is not cleared stays set
      aside, with nothing that points to it. */
  lemma EraseValid(s: State, k: nat, m: Bits.Bitmap, n: Inode, freed: set<nat>)
    requires Valid(s) && k in s.disk.live && |n.block| == N_BLOCKS
    requires Without(s.bbits, m, s.fdb, freed) && freed <= OwnedBy(s.owner, k)
    ensures k < |s.disk.inodes| && Bits.Located(s.ibits, k) && Bits.Counted(s.ibits) && Bits.IsSet(s.ibits, k)
    ensures Valid(Erase(s, k, m, n)) && OthersSame(s, Erase(s, k, m, n), k)
  {
    hide Core, Sized, Tails, TailsExcept, OthersSame, Without, Bits.Located, Bits.Give;
    EraseCore(s, k, m, n, freed);
    EraseSized(s, k, m, n);
    EraseOthers(s, k, m, n);
    var t := Erase(s, k, m, n);
    TailsPart(s.disk, k);
    OthersTails(s, t, k);
    TailsJoin(t.disk, k);
  }

  /** The state with a new inode `k` that owns nothing. */
  function Born(s: State, k: nat, n: Inode): State
    requires k < |s.disk.inodes| && Bits.Located(s.ibits, k) && s.ibits.free[Bits.GroupOf(s.ibits, k)] > 0
  {
    s.(disk := s.disk.(inodes := s.disk.inodes[k := n], live := s.disk.live + {k}), ibits := Bits.Take(s.ibits, k))
  }

  ghost predicate Empty(n: Inode) {
    |n.block| == N_BLOCKS && n.size == 0 && n.sectors == 0 && forall i | 0 <= i < N_BLOCKS :: n.block[i] == 0
  }

  lemma BornRefs(d: Disk, k: nat, n: Inode)
    requires Shaped(d) && k < |d.inodes| && k !in d.live && Empty(n)
    ensures SameRefs(d, d.(inodes := d.inodes[k := n], live := d.live + {k}))
  {
    var e := d.(inodes := d.inodes[k := n], live := d.live + {k});
    forall l: nat, p
      ensures Ref(e, l, p) == Ref(d, l, p)
    {
    }
  }

  lemma BornSized(s: State, k: nat, n: Inode)
    requires Core(s) && Sized(s, 0, 0) && k < |s.disk.inodes| && k !in s.disk.live && n.sectors == 0
    requires Bits.Located(s.ibits, k) && s.ibits.free[Bits.GroupOf(s.ibits, k)] > 0
    ensures Sized(Born(s, k, n), 0, 0)
  {
    hide Bits.IsSet, Bits.Counted, Bits.Take, Bits.Located;
    var t := Born(s, k, n);
    forall l: nat
      ensures SizedAt(t, l, 0, 0)
    {
      assert SizedAt(s, l, 0, 0);
      if l == k {
        assert OwnedBy(s.owner, k) == {};
      }
    }
  }

  /** A freshly allocated, zeroed inode is an empty file. */
  lemma BornValid(s: State, k: nat, n: Inode)
    requires Valid(s) && k < Bits.Size(s.ibits) && !Bits.IsSet(s.ibits, k) && Empty(n)
    ensures k < |s.disk.inodes| && k !in s.disk.live && k !in s.disk.loose
    ensures Bits.Located(s.ibits, k) && s.ibits.free[Bits.GroupOf(s.ibits, k)] > 0
    ensures var t := Born(s, k, n);
            && Valid(t) && OthersSame(s, t, k) && t.owner == s.owner && t.bbits == s.bbits
            && OwnedBy(t.owner, k) == {}
  {
    hide Bits.IsSet, Bits.Counted, Bits.Take, Bits.Located, PhysOf, CellAt, Sized, Tails;
    Bits.TakeCounted(s.ibits, k);
    assert k !in s.disk.live;
    var t := Born(s, k, n);
    BornRefs(s.disk, k, n);
    BornSized(s, k, n);
    assert OwnedBy(s.owner, k) == {} by {
      BornOwnsNothing(s, k);
    }
    OwnsSame(s.disk, t.disk, s.owner);
    assert Shaped(t.disk);
    hide Ref, Owns;
    MapSame(s.disk, t.disk);
    ViewFrame(s.disk, t.disk, s.owner);
    hide Shaped;
    assert Core(t) by {
      assert LiveUsed(t) && OwnedUsed(t) && ClearInside(t);
    }
    forall l: nat | l != k
      ensures SameFile(s.disk, t.disk, l)
    {
      SameFiles(s.disk, t.disk, l);
    }
    BornTails(s, t, k);
  }

  lemma BornOwnsNothing(s: State, k: nat)
    requires Core(s) && k !in s.disk.live
    ensures OwnedBy(s.owner, k) == {}
  {
    hide Bits.IsSet, Bits.Counted;
    assert forall b | b in s.owner :: Ref(s.disk, s.owner[b].0, s.owner[b].1) == b != 0;
  }

  lemma BornTails(s: State, t: State, k: nat)
    requires Ptrs(s.disk) > 0 && OthersSame(s, t, k) && Tails(s.disk) && k !in s.disk.live
    requires k < |t.disk.inodes| && SameMap(s.disk, t.disk) && SameView(s.disk, t.disk)
    ensures Tails(t.disk)
  {
    TailsPart(s.disk, k);
    OthersTails(s, t, k);
    forall lb: nat
      ensures PhysOf(t.disk, k, lb) == 0
    {
      assert PhysOf(s.disk, k, lb) == 0;
    }
    forall x: nat
      ensures ByteAt(t.disk, k, x) == 0
    {
      assert ByteAt(s.disk, k, x) == 0;
    }
    hide PhysOf, ByteAt;
    TailsJoin(t.disk, k);
  }

  /** A block that nobody points to can be given back. */
  lemma GiveBackCore(s: State, b: nat)
    requires Core(s) && Reserved(s, b)
    ensures Bits.Located(s.bbits, b - s.fdb)
    ensures Core(s.(bbits := Bits.Give(s.bbits, b - s.fdb)))
  {
    hide Bits.IsSet, Bits.Counted, Bits.Give, Bits.Located, Owns, Shaped;
    Bits.GiveCounted(s.bbits, b - s.fdb);
    var t := s.(bbits := Bits.Give(s.bbits, b - s.fdb));
    assert OwnedUsed(t);
    assert ClearInside(t);
    assert LiveUsed(t);
  }

  lemma GiveBackSized(s: State, m: Bits.Bitmap, k: nat)
    requires Sized(s, k, 0)
    ensures Sized(s.(bbits := m), k, 0)
  {
    var t := s.(bbits := m);
    forall l: nat
      ensures SizedAt(t, l, k, 0)
    {
      assert SizedAt(s, l, k, 0);
    }
  }

  /** Everything is shown as before, so the whole invariant is kept. */
  lemma QuietValid(s: State, t: State, k: nat)
    requires Valid(s) && Core(t) && Sized(t, k, 0) && Quiet(s, t, k, 0)
    ensures Valid(t) && OthersSame(s, t, k) && SameFile(s.disk, t.disk, k)
    ensures k < |s.disk.inodes| == |t.disk.inodes| ==> SameHeader(s.disk.inodes[k], t.disk.inodes[k])
    ensures t.disk.live == s.disk.live && t.disk.bs == s.disk.bs && |t.disk.inodes| == |s.disk.inodes|
  {
    hide Core, Sized, PhysOf, ByteAt, Tails, TailsExcept, Reserved;
    SizedAny(t, k, 0);
    forall l: nat
      ensures SameFile(s.disk, t.disk, l)
    {
      SameFiles(s.disk, t.disk, l);
    }
    hide SameMap, SameView;
    TailsPart(s.disk, k);
    OthersTails(s, t, k);
    hide SameFile, Tail;
    if k in s.disk.live && k !in s.disk.loose && k < |s.disk.inodes| {
      TailFrame(s.disk, t.disk, k, s.disk.inodes[k].size);
    }
    TailsJoin(t.disk, k);
  }

  // ---------------------------------------------------------------------
  // Steps of the freeing loops
  // ---------------------------------------------------------------------

  lemma NonZeroIs(b: nat)
    ensures NonZero(b) == if b == 0 then {} else {b}
  {
  }

  lemma NoDataYet(d: Disk, k: nat)
    requires Ptrs(d) > 0
    ensures DataBlocks(d, k, 0) == {}
  {
  }

  lemma NoInnerYet(d: Disk, k: nat)
    ensures InnerTables(d, k, 0) == {}
  {
  }

  /** Without a double-indirect table there are no inner tables. */
  lemma NoInner(d: Disk, k: nat)
    requires Ref(d, k, Double) == 0
    ensures InnerTables(d, k, Ptrs(d)) == {}
  {
    assert forall i: nat :: Ref(d, k, DoubleAt(i)) == 0;
  }

  lemma SlotRefs(d: Disk, k: nat)
    requires k in d.live && k < |d.inodes| && |d.inodes[k].block| == N_BLOCKS
    ensures Ref(d, k, Single) == d.inodes[k].block[IND] && Ref(d, k, Double) == d.inodes[k].block[DIND]
  {
  }

  lemma TableUsed(s: State, k: nat, p: Place)
    requires Core(s) && Ref(s.disk, k, p) != 0
    ensures var t := Ref(s.disk, k, p);
            && t >= s.fdb && Bits.IsSet(s.bbits, t - s.fdb) && 0 < t < |s.disk.blocks|
            && |s.disk.blocks[t]| == s.disk.bs && 4 * Ptrs(s.disk) == s.disk.bs
  {
    hide Ref, Bits.IsSet, Bits.Counted;
    TableOwned(s, k, p);
  }

  lemma InnerRef(s: State, k: nat, i: nat)
    requires Core(s) && k in s.disk.live && Ref(s.disk, k, Double) != 0 && i < Ptrs(s.disk)
    ensures var l1 := Ref(s.disk, k, Double);
            && l1 < |s.disk.blocks| && 4 * i + 4 <= |s.disk.blocks[l1]|
            && Ref(s.disk, k, DoubleAt(i)) == Word(s.disk.blocks[l1], i)
  {
    hide Word, Bits.IsSet, Bits.Counted;
    TableUsed(s, k, Double);
  }

  /** An inner table is none of the blocks freed before it. */
  lemma InnerFresh(s: State, k: nat, n: nat, i: nat)
    requires Core(s) && Ptrs(s.disk) > 0 && Ref(s.disk, k, DoubleAt(i)) != 0
    ensures var b := Ref(s.disk, k, DoubleAt(i));
            && b !in DataBlocks(s.disk, k, n) + NonZero(Ref(s.disk, k, Single)) + InnerTables(s.disk, k, i)
            && b >= s.fdb && Bits.IsSet(s.bbits, b - s.fdb)
  {
    hide Core, Ref, DataBlocks, InnerTables, Bits.IsSet;
    DataNotTable(s, k, n, DoubleAt(i));
    TableUsed(s, k, DoubleAt(i));
    InnerTablesNext(s, k, i);
    if Ref(s.disk, k, DoubleAt(i)) == Ref(s.disk, k, Single) {
      CoreOwns(s);
      OwnsNoSharing(s.disk, s.owner, k, DoubleAt(i), k, Single);
    }
  }

  lemma CoreOwns(s: State)
    requires Core(s)
    ensures Owns(s.disk, s.owner)
  {
  }

  /** The outer table is none of the blocks freed before it. */
  lemma OuterLast(s: State, k: nat, n: nat, ind: nat)
    requires Core(s) && Ptrs(s.disk) > 0 && Ref(s.disk, k, Double) != 0 && ind == Ref(s.disk, k, Single)
    ensures Ref(s.disk, k, Double) !in
            DataBlocks(s.disk, k, n) + NonZero(ind) + InnerTables(s.disk, k, Ptrs(s.disk))
  {
    hide Core, Ref, DataBlocks, InnerTables;
    DataNotTable(s, k, n, Double);
    InnerNotOuter(s, k, Ptrs(s.disk), Double);
    if Ref(s.disk, k, Double) == Ref(s.disk, k, Single) {
      CoreOwns(s);
      OwnsNoSharing(s.disk, s.owner, k, Double, k, Single);
    }
  }

  /** How many logical blocks ext2_unlink_op goes through, counted in 32 bits. */
  function LoopBlocks(size: nat, bs: nat): (n: nat)
    requires bs > 0
  {
    (size + bs - 1) % WORD / bs
  }

  /** The blocks that ext2_unlink_op clears for inode `k`. */
  function Released(d: Disk, k: nat): set<nat>
    requires Ptrs(d) > 0 && k < |d.inodes|
  {
    Visited(d, k, LoopBlocks(d.inodes[k].size, d.bs))
  }

  /** Rounding the size up to blocks does not leave 32 bits. */
  predicate RoundsUp(d: Disk, k: nat)
    requires k < |d.inodes|
  {
    d.inodes[k].size + d.bs - 1 < WORD
  }

  ghost predicate NoData(d: Disk, k: nat)
    requires Ptrs(d) > 0
  {
    forall lb: nat :: PhysOf(d, k, lb) == 0
  }

  lemma LoopBlocksWrap(size: nat, bs: nat)
    requires bs > 0
    ensures size + bs - 1 < WORD ==> LoopBlocks(size, bs) == (size + bs - 1) / bs
    ensures size < WORD <= size + bs - 1 ==> LoopBlocks(size, bs) == 0
  {
    var sum := size + bs - 1;
    var r := sum % WORD;
    if sum < WORD {
      DivUnique(sum, WORD, 0, sum);
    } else if size < WORD {
      if bs <= WORD {
        DivUnique(sum, WORD, 1, sum - WORD);
      }
      DivUnique(r, bs, 0, r);
    }
  }

  /** What is cleared are blocks of the file. */
  lemma ReleasedOwned(s: State, k: nat)
    requires Core(s) && k in s.disk.live
    ensures Ptrs(s.disk) > 0 && k < |s.disk.inodes| && Released(s.disk, k) <= OwnedBy(s.owner, k)
  {
    hide Core, Visited, OwnedBy, LoopBlocks;
    CoreInode(s, k);
    forall b | b in Released(s.disk, k)
      ensures b in OwnedBy(s.owner, k)
    {
      VisitedOwned(s, k, LoopBlocks(s.disk.inodes[k].size, s.disk.bs), b);
    }
  }

  /** Every data block of `k` is one that the loop gets to. */
  ghost predicate Covered(d: Disk, k: nat)
    requires Ptrs(d) > 0 && k < |d.inodes|
  {
    forall lb: nat | PhysOf(d, k, lb) != 0 :: lb < LoopBlocks(d.inodes[k].size, d.bs)
  }

  /** Data blocks behind the first `n` are none of those. */
  lemma DataBehind(s: State, k: nat, lb: nat, n: nat)
    requires Core(s) && Ptrs(s.disk) > 0 && PhysOf(s.disk, k, lb) != 0 && n <= lb
    ensures PhysOf(s.disk, k, lb) in OwnedBy(s.owner, k) && PhysOf(s.disk, k, lb) !in Visited(s.disk, k, n)
  {
    hide PhysOf, Ref, OwnedBy, InnerTables, NonZero, Bits.IsSet, Bits.Counted, Owns;
    DataNoTable(s, k, lb);
    MappedOwned(s.disk, s.owner, k, lb);
    forall x: nat | x < n && PhysOf(s.disk, k, x) == PhysOf(s.disk, k, lb)
      ensures false
    {
      MappedOwned(s.disk, s.owner, k, x);
      LeafInjective(s.disk, x, lb);
    }
  }

  /** The last unlink clears all blocks of a file if and only if the loop gets to each
      of its data blocks. For a file that was never cut off that is: its size can be
      rounded up in 32 bits, or it has no data block; otherwise it clears exactly the
      tables, and the data blocks are lost. */
  lemma ReleasedExact(s: State, k: nat)
    requires Valid(s) && k in s.disk.live && k < |s.disk.inodes|
    ensures Ptrs(s.disk) > 0
    ensures Released(s.disk, k) == OwnedBy(s.owner, k) <==> Covered(s.disk, k)
    ensures k !in s.disk.loose && s.disk.inodes[k].size < WORD ==>
              && (Covered(s.disk, k) <==> RoundsUp(s.disk, k) || NoData(s.disk, k))
              && (!RoundsUp(s.disk, k) ==> Released(s.disk, k) == Tables(s.disk, k))
  {
    hide Core, Sized, Tails, PhysOf, Ref, OwnedBy, InnerTables, NonZero, LoopBlocks, Visited;
    CoreInode(s, k);
    CoreBits(s);
    LoopBlocksWrap(s.disk.inodes[k].size, s.disk.bs);
    var n := LoopBlocks(s.disk.inodes[k].size, s.disk.bs);
    if Covered(s.disk, k) {
      VisitedIsOwned(s, k, n);
    } else {
      var lb: nat :| PhysOf(s.disk, k, lb) != 0 && lb >= n;
      DataBehind(s, k, lb, n);
    }
    if k !in s.disk.loose && RoundsUp(s.disk, k) {
      AllBelow(s, k);
    }
    VisitedNone(s.disk, k);
  }

  lemma VisitedNone(d: Disk, k: nat)
    requires Ptrs(d) > 0
    ensures Visited(d, k, 0) == Tables(d, k)
  {
    hide PhysOf, Ref, InnerTables;
    NoDataYet(d, k);
  }

  /** The bitmap after the last unlink of `k` is the one without its blocks exactly if
      the loop gets to each of its data blocks. */
  lemma ReleasedClears(s: State, m: Bits.Bitmap, k: nat)
    requires Valid(s) && k in s.disk.live && k < |s.disk.inodes|
    requires Ptrs(s.disk) > 0 && Without(s.bbits, m, s.fdb, Released(s.disk, k))
    ensures Without(s.bbits, m, s.fdb, OwnedBy(s.owner, k)) <==> Covered(s.disk, k)
  {
    hide Core, Sized, Tails, PhysOf, OwnedBy, Released, Covered, Bits.IsSet, Bits.Counted;
    ReleasedExact(s, k);
    ReleasedOwned(s, k);
    if Without(s.bbits, m, s.fdb, OwnedBy(s.owner, k)) {
      forall b | b in OwnedBy(s.owner, k)
        ensures b in Released(s.disk, k)
      {
        OwnedBit(s, k, b);
        assert !Bits.IsSet(m, b - s.fdb);
      }
    }
  }

  lemma OwnedBit(s: State, k: nat, b: nat)
    requires Core(s) && b in OwnedBy(s.owner, k)
    ensures s.fdb <= b && Bits.IsSet(s.bbits, b - s.fdb)
  {
    assert Used(s, b);
  }

  /** The link count has no part in what is cleared. */
  lemma LinksReleased(d: Disk, k: nat, links: nat)
    requires Ptrs(d) > 0 && k in d.live && k < |d.inodes| && |d.inodes[k].block| == N_BLOCKS
    ensures var e := SetInode(d, k, d.inodes[k].(links := links));
            Ptrs(e) > 0 && Released(e, k) == Released(d, k)
  {
    var e := SetInode(d, k, d.inodes[k].(links := links));
    assert forall p :: Ref(e, k, p) == Ref(d, k, p);
    forall lb: nat
      ensures PhysOf(e, k, lb) == PhysOf(d, k, lb)
    {
      PhysSameBlocks(d, e, d.inodes[k], lb);
    }
  }

  lemma ReleasedSame(d: Disk, e: Disk, k: nat)
    requires Ptrs(d) > 0 && Ptrs(e) > 0 && d.bs == e.bs && d.inodes == e.inodes && k < |d.inodes|
    requires SameRefs(d, e) && SameMap(d, e)
    ensures Released(e, k) == Released(d, k)
  {
    hide PhysOf, Ref;
  }

  /** A data block is none of the tables. */
  lemma DataNoTable(s: State, k: nat, lb: nat)
    requires Core(s) && Ptrs(s.disk) > 0 && PhysOf(s.disk, k, lb) != 0
    ensures PhysOf(s.disk, k, lb) in OwnedBy(s.owner, k) && PhysOf(s.disk, k, lb) !in Tables(s.disk, k)
  {
    hide Ref, Bits.IsSet, Bits.Counted;
    var b := PhysOf(s.disk, k, lb);
    assert b in DataBlocks(s.disk, k, lb + 1);
    hide PhysOf;
    VisitedOwned(s, k, lb + 1, b);
    hide DataBlocks;
    if Ref(s.disk, k, Single) == b {
      DataNotTable(s, k, lb + 1, Single);
    }
    if Ref(s.disk, k, Double) == b {
      DataNotTable(s, k, lb + 1, Double);
    }
    forall i: nat | i < Ptrs(s.disk) && Ref(s.disk, k, DoubleAt(i)) == b
      ensures false
    {
      DataNotTable(s, k, lb + 1, DoubleAt(i));
    }
  }

  /** A file of 4 KiB blocks whose last byte is the last that a 32-bit size allows:
      no data block is cleared. */
  lemma LastBlockLost(s: State, k: nat, lb: nat)
    requires Valid(s) && k in s.disk.live && k < |s.disk.inodes| && s.disk.bs == 4096
    requires s.disk.inodes[k].size == 0xFFFF_FFFF && PhysOf(s.disk, k, lb) != 0
    ensures Ptrs(s.disk) > 0
    ensures PhysOf(s.disk, k, lb) in OwnedBy(s.owner, k) && PhysOf(s.disk, k, lb) !in Released(s.disk, k)
  {
    hide Core, Sized, Tails, PhysOf, OwnedBy, Visited;
    CoreInode(s, k);
    LoopBlocksWrap(s.disk.inodes[k].size, s.disk.bs);
    DataBehind(s, k, lb, 0);
  }

  const LAST: nat := 0xFFFF_FFFE

  lemma LastByte(d: Disk, k: nat, x: Byte)
    requires Ptrs(d) > 0 && k < |d.inodes| && d.inodes[k].size == LAST + 1 && Slice(Contents(d, k), LAST, 1) == [x]
    ensures ByteAt(d, k, LAST) == x
  {
    hide ByteAt;
    assert Contents(d, k)[LAST] == [x][0];
  }

  /** A byte that is not zero lies in a mapped block. */
  lemma ByteMapped(d: Disk, k: nat, x: nat)
    requires Ptrs(d) > 0 && ByteAt(d, k, x) != 0
    ensures PhysOf(d, k, BlockOf(d, x)) != 0
  {
  }

  /** A block of `k` that is not cleared stays set aside when `k` is gone. */
  lemma KeptReserved(s: State, t: State, k: nat, b: nat)
    requires Valid(s) && Ptrs(s.disk) > 0 && k < |s.disk.inodes| && OthersSame(s, t, k)
    requires b in OwnedBy(s.owner, k) && b !in Released(s.disk, k)
    requires Without(s.bbits, t.bbits, s.fdb, Released(s.disk, k)) && t.owner == s.owner - OwnedBy(s.owner, k)
    ensures Reserved(t, b)
  {
    hide Core, Bits.IsSet, Bits.Counted, Released;
    OwnedBit(s, k, b);
    OwnedInside(s, b);
  }

  /** Rounded up, the size of a file that was never cut off covers every mapped block. */
  lemma AllBelow(s: State, k: nat)
    requires Valid(s) && k in s.disk.live && k !in s.disk.loose
    ensures k < |s.disk.inodes| && s.disk.bs > 0
    ensures var n := (s.disk.inodes[k].size + s.disk.bs - 1) / s.disk.bs;
            n >= 0 && Ptrs(s.disk) > 0 && forall lb: nat | PhysOf(s.disk, k, lb) != 0 :: lb < n
  {
    hide Core, Sized, PhysOf, ByteAt;
    CoreInode(s, k);
    CoreBits(s);
    TailsPart(s.disk, k);
    var bs, size := s.disk.bs, s.disk.inodes[k].size;
    var n := (size + bs - 1) / bs;
    forall lb: nat | PhysOf(s.disk, k, lb) != 0
      ensures lb < n
    {
      assert StartOf(s.disk, lb) < size;
      CeilBound(size, bs, lb);
    }
  }

  lemma CeilBound(size: nat, bs: nat, lb: nat)
    requires bs > 0 && lb * bs < size
    ensures lb < (size + bs - 1) / bs
  {
    var n := (size + bs - 1) / bs;
    assert size + bs - 1 == n * bs + (size + bs - 1) % bs;
    MulSign(lb - n + 1, bs);
    assert (lb - n + 1) * bs == lb * bs - n * bs + bs;
  }

  /** A new link count changes nothing else. */
  lemma LinksValid(s: State, j: nat, links: nat)
    requires Valid(s) && j in s.disk.live && j < |s.disk.inodes|
    ensures var t := s.(disk := SetInode(s.disk, j, s.disk.inodes[j].(links := links)));
            Valid(t) && OthersSame(s, t, j) && SameFile(s.disk, t.disk, j)
  {
    hide Core, Sized, PhysOf, ByteAt, Tails, TailsExcept;
    var n := s.disk.inodes[j].(links := links);
    var t := s.(disk := SetInode(s.disk, j, n));
    SizedAny(s, 0, j);
    SetInodeFrame(s, j, n);
    SizedAny(t, j, 0);
    forall l: nat
      ensures SameFile(s.disk, t.disk, l)
    {
      SameFiles(s.disk, t.disk, l);
    }
    hide SameMap, SameView, SameFile, Tail;
    TailsPart(s.disk, j);
    OthersTails(s, t, j);
    if j !in s.disk.loose {
      TailFrame(s.disk, t.disk, j, s.disk.inodes[j].size);
    }
    TailsJoin(t.disk, j);
  }

  /** An image without files: one group, `n` free blocks behind block 0, `m` inodes. */
  function FreshImage(bs: nat, n: nat, m: nat): State {
    State(Disk(bs, seq(n + 1, _ => Zeros(bs)), seq(m, _ => ZeroInode()), {}, {}), Bits.AllFree(n), Bits.AllFree(m), 1,
      map[])
  }

  /** The invariant holds of an image to start with. */
  lemma FreshValid(bs: nat, n: nat, m: nat)
    requires 1024 <= bs < 0x4_0000 && bs % 1024 == 0 && 0 < n < 0x1_0000_0000 && 0 < m
    ensures Valid(FreshImage(bs, n, m))
  {
    hide Bits.AllFree, Bits.Counted, Bits.IsSet;
    Bits.AllFreeCounted(n);
    Bits.AllFreeCounted(m);
    var s := FreshImage(bs, n, m);
    assert Shaped(s.disk) && ClearInside(s) && LiveUsed(s) && OwnedUsed(s);
    assert Owns(s.disk, s.owner) by {
      assert forall k: nat, p :: Ref(s.disk, k, p) == 0;
    }
  }
}
