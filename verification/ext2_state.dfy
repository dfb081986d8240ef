/** The state of a mounted ext2 image and the steps that change it: taking a
block from the bitmap, hanging a fresh pointer table into an inode, mapping a
block, writing bytes. Each step is a function on states with the lemmas that say
what it keeps; the driver in `Ext2` performs them in the order of the source. */
module Ext2State {
  import opened Arith
  import opened Bytes
  import opened Ext2Map
  import Bits = Ext2Bitmap

  /** `fdb` is the block number of bit 0 of the block bitmap. */
  datatype State = State(disk: Disk, bbits: Bits.Bitmap, ibits: Bits.Bitmap, fdb: nat, owner: Owner)

  predicate Used(s: State, b: nat) {
    b >= s.fdb && Bits.IsSet(s.bbits, b - s.fdb)
  }

  /** Allocated, but no inode points to it. */
  predicate Reserved(s: State, b: nat) {
    0 < b < |s.disk.blocks| && Used(s, b) && b !in s.owner
  }

  /** Clear bits of the block bitmap name blocks of the image other than 0. */
  ghost predicate ClearInside(s: State) {
    forall n: nat | n < Bits.Size(s.bbits) && !Bits.IsSet(s.bbits, n) :: 0 < s.fdb + n < |s.disk.blocks|
  }

  ghost predicate OwnedUsed(s: State) {
    forall b | b in s.owner :: Used(s, b)
  }

  ghost predicate LiveUsed(s: State) {
    && Bits.Size(s.ibits) == |s.disk.inodes|
    && forall k | k in s.disk.live :: Bits.IsSet(s.ibits, k)
  }

  ghost predicate Core(s: State) {
    && Shaped(s.disk) && Bits.Counted(s.bbits) && Bits.Counted(s.ibits)
    && ClearInside(s) && LiveUsed(s) && Owns(s.disk, s.owner) && OwnedUsed(s)
  }

  // ---------------------------------------------------------------------
  // i_blocks
  // ---------------------------------------------------------------------

  function OwnedBy(owner: Owner, k: nat): set<nat> {
    set b | b in owner && owner[b].0 == k
  }

  /** 512-byte units in `n` blocks. */
  function Units(d: Disk, n: int): int {
    d.bs / 512 * n
  }

  lemma UnitsAdd(d: Disk, n: int)
    ensures Units(d, n + 1) == Units(d, n) + d.bs / 512
  {
  }

  /** i_blocks counts the blocks the inode owns; for inode `k` the last `due` of
      them are not counted yet. */
  ghost predicate SizedAt(s: State, l: nat, k: nat, due: int) {
    l in s.disk.live && l < |s.disk.inodes| ==>
      s.disk.inodes[l].sectors == Units(s.disk, |OwnedBy(s.owner, l)| - (if l == k then due else 0))
  }

  ghost predicate Sized(s: State, k: nat, due: int) {
    forall l: nat {:trigger SizedAt(s, l, k, due)} :: SizedAt(s, l, k, due)
  }

  // ---------------------------------------------------------------------
  // Steps that leave every file as it is
  // ---------------------------------------------------------------------

  /** `t` shows the same files as `s`: only pointers, counts and i_blocks of
      inode `k` may differ, and reserved blocks other than `b` are as they were. */
  ghost predicate Quiet(s: State, t: State, k: nat, b: nat) {
    && t.fdb == s.fdb && t.ibits == s.ibits && SameUse(s.disk, t.disk) && t.disk.bs == s.disk.bs
    && |t.disk.blocks| == |s.disk.blocks| && |t.disk.inodes| == |s.disk.inodes|
    && Ptrs(s.disk) > 0
    && SameMap(s.disk, t.disk) && SameView(s.disk, t.disk)
    && SameInodes(s.disk, t.disk, k)
    && (forall x: nat | Reserved(s, x) && x != b :: Reserved(t, x) && t.disk.blocks[x] == s.disk.blocks[x])
  }

  /** Inodes other than `k` are equal, and `k` differs in pointers and i_blocks only. */
  ghost predicate SameInodes(d: Disk, e: Disk, k: nat) {
    && |d.inodes| == |e.inodes|
    && (forall l | 0 <= l < |d.inodes| && l != k :: e.inodes[l] == d.inodes[l])
    && (k < |d.inodes| ==> SameHeader(d.inodes[k], e.inodes[k]))
  }

  predicate SameHeader(m: Inode, n: Inode) {
    m.mode == n.mode && m.links == n.links && m.size == n.size
  }

  lemma QuietTransitive(s: State, t: State, u: State, k: nat, b: nat)
    requires Quiet(s, t, k, 0) && Quiet(t, u, k, b) && (b == 0 || !Reserved(s, b))
    ensures Quiet(s, u, k, 0)
  {
    hide PhysOf, CellAt, ByteAt, Used;
    forall l: nat, lb: nat
      ensures PhysOf(u.disk, l, lb) == PhysOf(s.disk, l, lb)
    {
      assert PhysOf(t.disk, l, lb) == PhysOf(s.disk, l, lb);
    }
    forall l: nat, x: nat
      ensures ByteAt(u.disk, l, x) == ByteAt(s.disk, l, x)
    {
      assert ByteAt(t.disk, l, x) == ByteAt(s.disk, l, x);
    }
  }

  lemma QuietSame(s: State, k: nat)
    requires Ptrs(s.disk) > 0
    ensures Quiet(s, s, k, 0)
  {
  }

  // ---------------------------------------------------------------------
  // ext2_alloc_block
  // ---------------------------------------------------------------------

  predicate Grabbable(s: State, b: nat) {
    && s.fdb <= b < |s.disk.blocks| && Bits.Located(s.bbits, b - s.fdb)
    && s.bbits.free[Bits.GroupOf(s.bbits, b - s.fdb)] > 0
  }

  function Grab(s: State, b: nat): State
    requires Grabbable(s, b)
  {
    s.(disk := SetBlockBytes(s.disk, b, Zeros(s.disk.bs)), bbits := Bits.Take(s.bbits, b - s.fdb))
  }

  /** Nobody points to a clear block, so filling it with zeros changes no file. */
  lemma BlankFrame(d: Disk, owner: Owner, b: nat)
    requires Shaped(d) && Owns(d, owner) && b < |d.blocks| && b !in owner
    ensures var e := SetBlockBytes(d, b, Zeros(d.bs));
            && Shaped(e) && Owns(e, owner) && SameMap(d, e) && SameView(d, e) && Blank(e, b)
  {
    var e := SetBlockBytes(d, b, Zeros(d.bs));
    FrameBlock(d, owner, b, Zeros(d.bs));
    hide Ref, PhysOf, CellAt;
    OwnsSame(d, e, owner);
    MapSame(d, e);
    ViewFrame(d, e, owner);
  }

  /** A clear block can be taken. */
  lemma GrabCore(s: State, n: nat, k: nat)
    requires Core(s) && n < Bits.Size(s.bbits) && !Bits.IsSet(s.bbits, n)
    ensures Grabbable(s, s.fdb + n)
    ensures var t := Grab(s, s.fdb + n);
            && Core(t) && Quiet(s, t, k, 0) && !Reserved(s, s.fdb + n) && Reserved(t, s.fdb + n)
            && Blank(t.disk, s.fdb + n)
            && t.owner == s.owner && t.disk.inodes == s.disk.inodes
            && t.bbits.sb == s.bbits.sb - 1
  {
    hide Bits.IsSet, Bits.Counted, Bits.Located, Bits.Full, Owns, SameMap, SameView;
    Bits.TakeCounted(s.bbits, n);
    var b := s.fdb + n;
    assert b !in s.owner;
    assert b < |s.disk.blocks|;
    BlankFrame(s.disk, s.owner, b);
    var t := Grab(s, b);
    hide Bits.Take;
    hide Shaped;
  }

  lemma CoreBits(s: State)
    requires Core(s)
    ensures Bits.Counted(s.bbits) && Bits.Counted(s.ibits) && Shaped(s.disk) && Ptrs(s.disk) >= 256
  {
  }

  lemma CoreInode(s: State, k: nat)
    requires Core(s) && k in s.disk.live
    ensures Ptrs(s.disk) >= 256 && k < |s.disk.inodes| && |s.disk.inodes[k].block| == N_BLOCKS
  {
  }

  lemma GrabSized(s: State, b: nat, k: nat, due: int)
    requires Sized(s, k, due) && Grabbable(s, b)
    ensures Sized(Grab(s, b), k, due)
  {
    var t := Grab(s, b);
    forall l: nat
      ensures SizedAt(t, l, k, due)
    {
      assert SizedAt(s, l, k, due);
    }
  }

  // ---------------------------------------------------------------------
  // Fresh tables
  // ---------------------------------------------------------------------

  /** i_blocks of inode `k` grows by one block. */
  function Charge(d: Disk, k: nat): Disk
    requires k < |d.inodes|
  {
    d.(inodes := d.inodes[k := d.inodes[k].(sectors := d.inodes[k].sectors + d.bs / 512)])
  }

  lemma ChargeFrame(d: Disk, k: nat)
    requires k < |d.inodes|
    ensures SameRefs(d, Charge(d, k))
  {
  }

  lemma RefPutSame(d: Disk, e: Disk, f: Disk, k: nat, c: Place, v: nat)
    requires RefPut(d, e, k, c, v) && SameRefs(e, f)
    ensures RefPut(d, f, k, c, v)
  {
    hide Ref;
    forall l: nat, p
      ensures Ref(f, l, p) == if l == k && p == c then v else Ref(d, l, p)
    {
      assert Ref(f, l, p) == Ref(e, l, p);
    }
  }

  /** A fresh table at place `c` shows the same files. */
  lemma TableHung(d: Disk, e: Disk, owner: Owner, k: nat, c: Place, b: nat)
    requires Shaped(d) && Shaped(e) && d.bs == e.bs && Owns(d, owner) && SameData(d, e, owner)
    requires RefPut(d, e, k, c, b) && IsTable(c) && Ref(d, k, c) == 0
    requires b !in owner && 0 < b < |d.blocks|
    ensures Owns(e, owner[b := (k, c)]) && SameMap(d, e) && SameView(d, e)
  {
    hide Ref, PhysOf, CellAt, Leaf;
    OwnsPut(d, e, owner, k, c, b);
    assert Reown(owner, 0, k, c, b) == owner[b := (k, c)];
    MapSame(d, e);
    ViewFrame(d, e, owner);
  }

  /** `s` with disk `e` and block `b` owned by place `c` of inode `k`. */
  function Acquire(s: State, e: Disk, k: nat, c: Place, b: nat): State {
    s.(disk := e, owner := s.owner[b := (k, c)])
  }

  lemma AcquireSized(s: State, e: Disk, k: nat, c: Place, b: nat, m: nat, due: int)
    requires Sized(s, m, due) && b !in s.owner && k < |s.disk.inodes|
    requires e.bs == s.disk.bs && SameUse(s.disk, e) && SameInodes(s.disk, e, k)
    requires e.inodes[k].sectors == s.disk.inodes[k].sectors + s.disk.bs / 512
    ensures Sized(Acquire(s, e, k, c, b), m, due)
  {
    var t := Acquire(s, e, k, c, b);
    forall l: nat
      ensures SizedAt(t, l, m, due)
    {
      assert SizedAt(s, l, m, due);
      assert OwnedBy(t.owner, l) == OwnedBy(s.owner, l) + (if l == k then {b} else {});
      UnitsAdd(s.disk, |OwnedBy(s.owner, l)| - (if l == m then due else 0));
    }
  }

  /** Facts about `e` that make acquiring a table a quiet step. */
  lemma AcquireCore(s: State, e: Disk, k: nat, c: Place, b: nat)
    requires Core(s) && Reserved(s, b) && Shaped(e)
    requires e.bs == s.disk.bs && SameUse(s.disk, e) && |e.blocks| == |s.disk.blocks|
    requires SameInodes(s.disk, e, k)
    requires Owns(e, s.owner[b := (k, c)]) && SameMap(s.disk, e) && SameView(s.disk, e)
    requires forall x: nat | Reserved(s, x) :: e.blocks[x] == s.disk.blocks[x]
    ensures Core(Acquire(s, e, k, c, b)) && Quiet(s, Acquire(s, e, k, c, b), k, b)
  {
    hide Bits.IsSet, Bits.Counted, Owns, SameMap, SameView;
    var t := Acquire(s, e, k, c, b);
    assert OwnedUsed(t);
    assert ClearInside(t);
    assert LiveUsed(t);
    hide Shaped;
  }

  /** A fresh table in slot IND or DIND of inode `k`. */
  lemma HangSlot(s: State, k: nat, slot: nat, b: nat, m: nat, due: int)
    requires Core(s) && Sized(s, m, due) && k in s.disk.live && (slot == IND || slot == DIND)
    requires k < |s.disk.inodes| && |s.disk.inodes[k].block| == N_BLOCKS && s.disk.inodes[k].block[slot] == 0
    requires Reserved(s, b) && Blank(s.disk, b)
    ensures var t := Acquire(s, Charge(SetSlot(s.disk, k, slot, b), k), k, SlotPlace(slot), b);
            Core(t) && Sized(t, m, due) && Quiet(s, t, k, b)
  {
    var d1 := SetSlot(s.disk, k, slot, b);
    var e := Charge(d1, k);
    SlotPut(s.disk, k, slot, b);
    ChargeFrame(d1, k);
    RefPutSame(s.disk, d1, e, k, SlotPlace(slot), b);
    assert Ref(s.disk, k, SlotPlace(slot)) == 0;
    hide Bits.IsSet, Bits.Counted, Ref, RefPut, Owns, Sized, SameRefs;
    assert Shaped(e);
    TableHung(s.disk, e, s.owner, k, SlotPlace(slot), b);
    AcquireSized(s, e, k, SlotPlace(slot), b, m, due);
    AcquireCore(s, e, k, SlotPlace(slot), b);
  }

  lemma HungRef(s: State, k: nat, slot: nat, b: nat)
    requires k in s.disk.live && k < |s.disk.inodes| && |s.disk.inodes[k].block| == N_BLOCKS
    requires slot == IND || slot == DIND
    ensures Ref(Charge(SetSlot(s.disk, k, slot, b), k), k, SlotPlace(slot)) == b
  {
  }

  /** A fresh table in entry `i` of the double-indirect table `t` of inode `k`. */
  lemma HangEntry(s: State, k: nat, t: nat, i: nat, b: nat, m: nat, due: int)
    requires Core(s) && Sized(s, m, due) && k in s.disk.live && k < |s.disk.inodes|
    requires t in s.owner && s.owner[t] == (k, Double) && i < Ptrs(s.disk) && Ref(s.disk, k, DoubleAt(i)) == 0
    requires Reserved(s, b) && Blank(s.disk, b)
    ensures t < |s.disk.blocks| && 4 * i + 4 <= |s.disk.blocks[t]|
    ensures var u := Acquire(s, Charge(SetTable(s.disk, t, i, b), k), k, DoubleAt(i), b);
            Core(u) && Sized(u, m, due) && Quiet(s, u, k, b)
  {
    hide Bits.IsSet, Bits.Counted, Ref, RefPut, Sized, SameRefs, PutWord;
    assert 0 < t < |s.disk.blocks|;
    var d1 := SetTable(s.disk, t, i, b);
    var e := Charge(d1, k);
    TablePut(s.disk, s.owner, t, i, b);
    ChargeFrame(d1, k);
    RefPutSame(s.disk, d1, e, k, DoubleAt(i), b);
    assert Shaped(e);
    TableHung(s.disk, e, s.owner, k, DoubleAt(i), b);
    AcquireSized(s, e, k, DoubleAt(i), b, m, due);
    AcquireCore(s, e, k, DoubleAt(i), b);
  }

  // ---------------------------------------------------------------------
  // Mapping a block
  // ---------------------------------------------------------------------

  function MapTo(s: State, e: Disk, k: nat, lb: nat, b: nat): State
    requires Ptrs(s.disk) > 0
  {
    s.(disk := e, owner := Reown(s.owner, PhysOf(s.disk, k, lb), k, Leaf(s.disk, lb), b))
  }

  /** `t` maps block `lb` of inode `k` to `b` and every other block as `s` does. */
  ghost predicate Mapped(s: State, t: State, k: nat, lb: nat, b: nat) {
    && t.fdb == s.fdb && t.ibits == s.ibits && SameUse(s.disk, t.disk) && t.disk.bs == s.disk.bs
    && |t.disk.blocks| == |s.disk.blocks| && |t.disk.inodes| == |s.disk.inodes|
    && Ptrs(s.disk) > 0 && b < |s.disk.blocks|
    && MapPut(s.disk, t.disk, k, lb, b)
    && SameInodes(s.disk, t.disk, k)
    && t.disk.blocks[b] == s.disk.blocks[b]
    && (PhysOf(s.disk, k, lb) == 0 && Blank(s.disk, b) ==> SameView(s.disk, t.disk))
  }

  lemma MappedAfterQuiet(s: State, t: State, u: State, k: nat, lb: nat, b: nat)
    requires Quiet(s, t, k, 0) && Mapped(t, u, k, lb, b) && Reserved(s, b)
    ensures Mapped(s, u, k, lb, b)
  {
    hide PhysOf, ByteAt, Used;
    assert t.disk.blocks[b] == s.disk.blocks[b];
    forall l: nat, x: nat
      ensures PhysOf(u.disk, l, x) == if l == k && x == lb then b else PhysOf(s.disk, l, x)
    {
      assert PhysOf(t.disk, l, x) == PhysOf(s.disk, l, x);
    }
    if PhysOf(s.disk, k, lb) == 0 && Blank(s.disk, b) {
      assert PhysOf(t.disk, k, lb) == PhysOf(s.disk, k, lb);
      forall l: nat, x: nat
        ensures ByteAt(u.disk, l, x) == ByteAt(s.disk, l, x)
      {
        assert ByteAt(t.disk, l, x) == ByteAt(s.disk, l, x);
      }
    }
  }

  lemma MapToSized(s: State, e: Disk, k: nat, lb: nat, b: nat)
    requires Core(s) && Sized(s, k, 0) && b !in s.owner && k < |s.disk.inodes|
    requires e.bs == s.disk.bs && SameUse(s.disk, e) && SameInodes(s.disk, e, k)
    requires e.inodes[k].sectors == s.disk.inodes[k].sectors
    ensures Sized(MapTo(s, e, k, lb, b), k, if PhysOf(s.disk, k, lb) == 0 then 1 else 0)
  {
    var t := MapTo(s, e, k, lb, b);
    var was := PhysOf(s.disk, k, lb);
    var due := if was == 0 then 1 else 0;
    if was != 0 {
      MappedOwned(s.disk, s.owner, k, lb);
    }
    assert was == 0 ==> was !in s.owner;
    hide Core, Bits.IsSet, Bits.Counted, PhysOf, Leaf, Reown, OwnedBy;
    forall l: nat
      ensures SizedAt(t, l, k, due)
    {
      assert SizedAt(s, l, k, 0);
      ReownCount(s.owner, was, k, Leaf(s.disk, lb), b, l);
    }
  }

  /** Replacing one owned block by another, or adding one. */
  lemma ReownCount(owner: Owner, was: nat, k: nat, c: Place, b: nat, l: nat)
    requires b !in owner && (was in owner ==> owner[was].0 == k)
    ensures |OwnedBy(Reown(owner, was, k, c, b), l)|
         == |OwnedBy(owner, l)| + if l == k && was !in owner then 1 else 0
  {
    var next := Reown(owner, was, k, c, b);
    var x, y := OwnedBy(owner, l), OwnedBy(next, l);
    assert forall z :: z in next <==> z == b || (z in owner && z != was);
    assert b !in x;
    if l != k {
      assert y == x;
    } else if was in owner {
      assert was in x;
      assert y == (x - {was}) + {b};
      assert |x - {was}| == |x| - 1;
    } else {
      assert y == x + {b};
    }
  }

  lemma LeafMapped(s: State, e: Disk, k: nat, lb: nat, b: nat)
    requires Core(s) && Sized(s, k, 0) && Reserved(s, b) && lb < Reach(s.disk) && k < |s.disk.inodes|
    requires Shaped(e) && e.bs == s.disk.bs && SameUse(s.disk, e) && |e.blocks| == |s.disk.blocks|
    requires SameInodes(s.disk, e, k) && e.inodes[k].sectors == s.disk.inodes[k].sectors
    requires RefPut(s.disk, e, k, Leaf(s.disk, lb), b) && SameData(s.disk, e, s.owner)
    requires e.blocks[b] == s.disk.blocks[b]
    ensures var t := MapTo(s, e, k, lb, b);
            && Core(t) && Mapped(s, t, k, lb, b)
            && Sized(t, k, if PhysOf(s.disk, k, lb) == 0 then 1 else 0)
  {
    hide Bits.IsSet, Bits.Counted, Ref, PhysOf, CellAt, Sized;
    MapToSized(s, e, k, lb, b);
    PhysOfRef(s.disk, k, lb);
    var t := MapTo(s, e, k, lb, b);
    OwnsPut(s.disk, e, s.owner, k, Leaf(s.disk, lb), b);
    MapPutAtLeaf(s.disk, e, k, lb, b);
    hide Leaf;
    if PhysOf(s.disk, k, lb) == 0 && Blank(s.disk, b) {
      ViewBlank(s.disk, e, s.owner, k, lb, b);
    }
    hide Owns, MapPut, SameView, RefPut;
    assert OwnedUsed(t);
    assert ClearInside(t) && LiveUsed(t);
  }

  /** A table that is pointed to is owned by the place that points to it. */
  lemma TableOwned(s: State, k: nat, p: Place)
    requires Core(s) && Ref(s.disk, k, p) != 0
    ensures var t := Ref(s.disk, k, p);
            && t in s.owner && s.owner[t] == (k, p) && 0 < t < |s.disk.blocks| <= 0x1_0000_0000
            && |s.disk.blocks[t]| == s.disk.bs && 4 * Ptrs(s.disk) == s.disk.bs
  {
    PtrsFour(s.disk);
    hide Ref, Bits.IsSet, Bits.Counted, Ptrs;
  }

  lemma PtrsFour(d: Disk)
    requires Shaped(d)
    ensures 4 * Ptrs(d) == d.bs
  {
    FourDivides(d.bs);
  }

  lemma FourDivides(bs: nat)
    requires bs % 1024 == 0
    ensures 4 * (bs / 4) == bs
  {
    var q := bs / 1024;
    DivUnique(bs, 4, 256 * q, 0);
  }

  lemma MapDirect(s: State, k: nat, lb: nat, b: nat)
    requires Core(s) && Sized(s, k, 0) && Reserved(s, b) && k in s.disk.live && lb < NDIR
    ensures k < |s.disk.inodes| && lb < |s.disk.inodes[k].block| && Ptrs(s.disk) > 0
    ensures var t := MapTo(s, SetSlot(s.disk, k, lb, b), k, lb, b);
            && Core(t) && Mapped(s, t, k, lb, b)
            && Sized(t, k, if PhysOf(s.disk, k, lb) == 0 then 1 else 0)
  {
    SlotPut(s.disk, k, lb, b);
    hide Sized, RefPut, Owns, Ref, PhysOf, Bits.IsSet, Bits.Counted, Mapped;
    LeafMapped(s, SetSlot(s.disk, k, lb, b), k, lb, b);
  }

  /** Mapping through entry `i` of the table `t`. */
  lemma MapTable(s: State, k: nat, p: Place, i: nat, lb: nat, b: nat)
    requires Core(s) && Sized(s, k, 0) && Reserved(s, b) && k in s.disk.live && k < |s.disk.inodes|
    requires IsTable(p) && !p.Double? && Ref(s.disk, k, p) != 0 && i < Ptrs(s.disk)
    requires lb < Reach(s.disk) && Leaf(s.disk, lb) == Child(p, i)
    ensures var t := Ref(s.disk, k, p);
            t < |s.disk.blocks| && 4 * i + 4 <= |s.disk.blocks[t]| && b < 0x1_0000_0000
    ensures var u := MapTo(s, SetTable(s.disk, Ref(s.disk, k, p), i, b), k, lb, b);
            && Core(u) && Mapped(s, u, k, lb, b)
            && Sized(u, k, if PhysOf(s.disk, k, lb) == 0 then 1 else 0)
  {
    TableOwned(s, k, p);
    var t := Ref(s.disk, k, p);
    TablePut(s.disk, s.owner, t, i, b);
    hide Sized, RefPut, Owns, Ref, PhysOf, Bits.IsSet, Bits.Counted, Mapped, Leaf;
    var e := SetTable(s.disk, t, i, b);
    assert Shaped(e);
    LeafMapped(s, e, k, lb, b);
  }

  lemma LeafSingle(d: Disk, lb: nat)
    requires NDIR <= lb < NDIR + Ptrs(d)
    ensures lb < Reach(d) && Leaf(d, lb) == Child(Single, lb - NDIR)
  {
  }

  lemma LeafDouble(d: Disk, lb: nat)
    requires Ptrs(d) > 0 && NDIR + Ptrs(d) <= lb < Reach(d)
    ensures var r := lb - NDIR - Ptrs(d);
            && r / Ptrs(d) < Ptrs(d) && r % Ptrs(d) < Ptrs(d)
            && Leaf(d, lb) == Child(DoubleAt(r / Ptrs(d)), r % Ptrs(d))
  {
    var ptrs := Ptrs(d);
    var r := lb - NDIR - ptrs;
    assert r == r / ptrs * ptrs + r % ptrs;
    MulSign(r / ptrs - ptrs + 1, ptrs);
    assert (r / ptrs - ptrs + 1) * ptrs == r / ptrs * ptrs - ptrs * ptrs + ptrs;
  }

  /** Taking a block moves no pointer. */
  lemma GrabRef(s: State, b: nat, k: nat, p: Place)
    requires Core(s) && Grabbable(s, b) && b !in s.owner
    ensures Ref(Grab(s, b).disk, k, p) == Ref(s.disk, k, p)
  {
    FrameBlock(s.disk, s.owner, b, Zeros(s.disk.bs));
    hide Ref;
  }

  lemma HungEntryRef(s: State, k: nat, t: nat, i: nat, b: nat)
    requires k in s.disk.live && k < |s.disk.inodes| && |s.disk.inodes[k].block| == N_BLOCKS
    requires 0 < t == s.disk.inodes[k].block[DIND] && t < |s.disk.blocks| && 4 * i + 4 <= |s.disk.blocks[t]|
    requires b < 0x1_0000_0000
    ensures Ref(Charge(SetTable(s.disk, t, i, b), k), k, DoubleAt(i)) == b
  {
    EntryPut(s.disk, t, i, b, t, i);
  }

  /** What a quiet step keeps for the block that is being mapped. */
  lemma QuietKeeps(s: State, t: State, k: nat, lb: nat, b: nat)
    requires Quiet(s, t, k, 0) && Reserved(s, b)
    ensures Reserved(t, b) && SameUse(s.disk, t.disk)
    ensures Ptrs(t.disk) == Ptrs(s.disk) > 0 && Reach(t.disk) == Reach(s.disk)
    ensures PhysOf(t.disk, k, lb) == PhysOf(s.disk, k, lb) && Leaf(t.disk, lb) == Leaf(s.disk, lb)
  {
    hide PhysOf;
    assert b != 0;
  }

  // ---------------------------------------------------------------------
  // Sizes
  // ---------------------------------------------------------------------

  function StartOf(d: Disk, lb: nat): nat {
    lb * d.bs
  }

  /** Nothing of the file of inode `k` lies at or beyond `bound`: no block is
      mapped there and every byte reads as zero. */
  ghost predicate Tail(d: Disk, k: nat, bound: nat)
    requires Ptrs(d) > 0
  {
    && (forall lb: nat | PhysOf(d, k, lb) != 0 :: StartOf(d, lb) < bound)
    && (forall x: nat | bound <= x :: ByteAt(d, k, x) == 0)
  }

  ghost predicate TailAt(d: Disk, l: nat) {
    l in d.live && l !in d.loose && l < |d.inodes| && Ptrs(d) > 0 ==> Tail(d, l, d.inodes[l].size)
  }

  /** Every live inode other than `k` that is not loose ends at its size. */
  ghost predicate TailsExcept(d: Disk, k: nat) {
    forall l: nat {:trigger TailAt(d, l)} | l != k :: TailAt(d, l)
  }

  ghost predicate Tails(d: Disk) {
    forall l: nat {:trigger TailAt(d, l)} :: TailAt(d, l)
  }

  /** The invariant of every run. */
  ghost predicate Valid(s: State) {
    Core(s) && Sized(s, 0, 0) && Tails(s.disk)
  }

  ghost predicate Points(d: Disk, k: nat, b: nat) {
    b != 0 && exists p :: Ref(d, k, p) == b
  }

  /** The blocks that inode `k` leads to, data and tables. */
  ghost function Reachable(d: Disk, k: nat): set<nat> {
    set b: nat | b < |d.blocks| && Points(d, k, b)
  }

  lemma OwnedReachable(s: State, k: nat)
    requires Owns(s.disk, s.owner)
    ensures OwnedBy(s.owner, k) == Reachable(s.disk, k)
  {
    hide Ref;
    forall b: nat
      ensures b in OwnedBy(s.owner, k) <==> b in Reachable(s.disk, k)
    {
      if b in OwnedBy(s.owner, k) {
        assert Ref(s.disk, k, s.owner[b].1) == b;
        assert Points(s.disk, k, b);
      }
    }
  }

  /** In every valid state no block belongs to two files, every block of a file is
      marked used, and i_blocks counts the blocks of the file exactly. */
  lemma BlocksExact(s: State, k: nat, l: nat)
    requires Valid(s) && k in s.disk.live
    ensures k < |s.disk.inodes| && s.disk.inodes[k].sectors == Units(s.disk, |Reachable(s.disk, k)|)
    ensures forall b | b in Reachable(s.disk, k) :: Used(s, b)
    ensures k != l ==> Reachable(s.disk, k) !! Reachable(s.disk, l)
  {
    CoreInode(s, k);
    OwnedReachable(s, k);
    OwnedReachable(s, l);
    assert SizedAt(s, k, 0, 0);
  }

  lemma SizedAny(s: State, k: nat, l: nat)
    requires Sized(s, k, 0)
    ensures Sized(s, l, 0)
  {
    forall x: nat
      ensures SizedAt(s, x, l, 0)
    {
      assert SizedAt(s, x, k, 0);
    }
  }

  /** `e` shows file `l` as `d` does, with the same blocks mapped. */
  ghost predicate SameFile(d: Disk, e: Disk, l: nat)
    requires Ptrs(d) > 0 && Ptrs(e) > 0
  {
    && (forall lb: nat :: PhysOf(e, l, lb) == PhysOf(d, l, lb))
    && (forall x: nat :: ByteAt(e, l, x) == ByteAt(d, l, x))
  }

  ghost predicate OtherFiles(d: Disk, e: Disk, k: nat)
    requires Ptrs(d) > 0 && Ptrs(e) > 0
  {
    forall l: nat | l != k :: SameFile(d, e, l)
  }

  lemma OtherFilesMore(d: Disk, e: Disk, f: Disk, k: nat)
    requires Ptrs(d) > 0 && Ptrs(e) > 0 && Ptrs(f) > 0 && OtherFiles(d, e, k) && OtherFiles(e, f, k)
    ensures OtherFiles(d, f, k)
  {
    hide PhysOf, ByteAt;
    forall l: nat | l != k
      ensures SameFile(d, f, l)
    {
      assert SameFile(d, e, l) && SameFile(e, f, l);
    }
  }

  lemma TailFrame(d: Disk, e: Disk, l: nat, bound: nat)
    requires Ptrs(d) > 0 && Ptrs(e) > 0 && d.bs == e.bs && SameFile(d, e, l) && Tail(d, l, bound)
    ensures Tail(e, l, bound)
  {
    hide PhysOf, ByteAt;
  }

  // ---------------------------------------------------------------------
  // Making a block writable
  // ---------------------------------------------------------------------

  /** `t` shows the same files as `s`; block `lb` of inode `k` is `pb`, and no
      other mapping differs. With `pb` 0 nothing is mapped anew. */
  ghost predicate Prepared(s: State, t: State, k: nat, lb: nat, pb: nat) {
    && t.fdb == s.fdb && t.ibits == s.ibits && SameUse(s.disk, t.disk) && t.disk.bs == s.disk.bs
    && |t.disk.blocks| == |s.disk.blocks| && |t.disk.inodes| == |s.disk.inodes|
    && Ptrs(s.disk) > 0
    && SameView(s.disk, t.disk) && SameInodes(s.disk, t.disk, k)
    && (forall l: nat, x: nat | l != k || x != lb :: PhysOf(t.disk, l, x) == PhysOf(s.disk, l, x))
    && PhysOf(t.disk, k, lb) == pb
  }

  lemma PhysOfPhys(d: Disk, k: nat, lb: nat)
    requires Ptrs(d) > 0 && k in d.live && k < |d.inodes| && |d.inodes[k].block| == N_BLOCKS
    ensures PhysOf(d, k, lb) == Phys(d, d.inodes[k], lb)
  {
  }

  lemma PreparedSame(s: State, k: nat, lb: nat)
    requires Ptrs(s.disk) > 0
    ensures Prepared(s, s, k, lb, PhysOf(s.disk, k, lb))
  {
  }

  lemma PreparedQuiet(s: State, t: State, k: nat, lb: nat)
    requires Quiet(s, t, k, 0) && Ptrs(s.disk) > 0 && PhysOf(s.disk, k, lb) == 0
    ensures Prepared(s, t, k, lb, 0)
  {
    hide PhysOf, ByteAt;
  }

  lemma PreparedMapped(s: State, t: State, u: State, k: nat, lb: nat, pb: nat)
    requires Quiet(s, t, k, 0) && Mapped(t, u, k, lb, pb) && Ptrs(s.disk) > 0
    requires PhysOf(s.disk, k, lb) == 0 && Blank(t.disk, pb)
    ensures Prepared(s, u, k, lb, pb) && SameUse(s.disk, u.disk)
    ensures Ptrs(t.disk) > 0 && PhysOf(t.disk, k, lb) == 0
  {
    hide PhysOf, ByteAt;
    assert PhysOf(t.disk, k, lb) == 0;
    forall l: nat, x: nat
      ensures ByteAt(u.disk, l, x) == ByteAt(s.disk, l, x)
    {
      assert ByteAt(t.disk, l, x) == ByteAt(s.disk, l, x);
    }
    forall l: nat, x: nat | l != k || x != lb
      ensures PhysOf(u.disk, l, x) == PhysOf(s.disk, l, x)
    {
      assert PhysOf(t.disk, l, x) == PhysOf(s.disk, l, x);
    }
  }

  lemma ChargeSized(s: State, k: nat)
    requires Core(s) && Sized(s, k, 1) && k in s.disk.live
    ensures k < |s.disk.inodes| && Core(s.(disk := Charge(s.disk, k))) && Sized(s.(disk := Charge(s.disk, k)), k, 0)
  {
    var t := s.(disk := Charge(s.disk, k));
    ChargeFrame(s.disk, k);
    OwnsSame(s.disk, t.disk, s.owner);
    hide Bits.IsSet, Bits.Counted, Owns;
    forall l: nat
      ensures SizedAt(t, l, k, 0)
    {
      assert SizedAt(s, l, k, 1);
      UnitsAdd(s.disk, |OwnedBy(s.owner, l)| - 1);
    }
    assert ClearInside(t) && LiveUsed(t) && OwnedUsed(t);
  }

  lemma ChargePrepared(s: State, t: State, k: nat, lb: nat, pb: nat)
    requires Core(t) && Prepared(s, t, k, lb, pb) && k < |t.disk.inodes|
    ensures Prepared(s, t.(disk := Charge(t.disk, k)), k, lb, pb)
  {
    var e := Charge(t.disk, k);
    ChargeFrame(t.disk, k);
    hide Bits.IsSet, Bits.Counted, Ref, PhysOf, CellAt;
    assert Shaped(e);
    MapSame(t.disk, e);
    ViewFrame(t.disk, e, t.owner);
    hide ByteAt;
    forall l: nat, x: nat
      ensures ByteAt(e, l, x) == ByteAt(s.disk, l, x)
    {
      assert ByteAt(t.disk, l, x) == ByteAt(s.disk, l, x);
    }
  }

  // ---------------------------------------------------------------------
  // ext2_write
  // ---------------------------------------------------------------------

  lemma Split(d: Disk, x: nat)
    requires Ptrs(d) > 0
    ensures OffsetOf(d, x) < d.bs && StartOf(d, BlockOf(d, x)) + OffsetOf(d, x) == x
  {
    assert x == x / d.bs * d.bs + x % d.bs;
  }

  function Max(a: nat, b: nat): nat {
    if a > b then a else b
  }

  /** Blocks of inode `k` other than `lb` are mapped below `bound` only. */
  ghost predicate MappedBelow(d: Disk, k: nat, bound: nat, lb: nat)
    requires Ptrs(d) > 0
  {
    forall x: nat | x != lb && PhysOf(d, k, x) != 0 :: StartOf(d, x) < bound
  }

  /** Geometry, liveness and the inodes other than `k` are as in `s`. */
  ghost predicate SameFrame(s: State, t: State, k: nat) {
    && t.fdb == s.fdb && t.ibits == s.ibits && SameUse(s.disk, t.disk) && t.disk.bs == s.disk.bs
    && |t.disk.blocks| == |s.disk.blocks| && |t.disk.inodes| == |s.disk.inodes|
    && Ptrs(s.disk) > 0 && k < |s.disk.inodes| && SameInodes(s.disk, t.disk, k)
  }

  /** The file of `k` shows `done` at `off`, everything else is as in `s`, and
      apart from block `lb` nothing is mapped past the end of what is there. */
  ghost predicate WritingBut(s: State, t: State, k: nat, off: nat, done: seq<Byte>, lb: nat) {
    && SameFrame(s, t, k)
    && ViewPut(s.disk, t.disk, k, off, done)
    && OtherFiles(s.disk, t.disk, k)
    && (k !in s.disk.loose ==> MappedBelow(t.disk, k, Max(s.disk.inodes[k].size, off + |done|), lb))
  }

  ghost predicate Writing(s: State, t: State, k: nat, off: nat, done: seq<Byte>) {
    forall lb: nat :: WritingBut(s, t, k, off, done, lb)
  }

  lemma WritingStart(s: State, k: nat, off: nat)
    requires Valid(s) && k in s.disk.live
    ensures Writing(s, s, k, off, [])
  {
    hide PhysOf, ByteAt, Bits.IsSet, Bits.Counted;
    assert TailAt(s.disk, k);
    assert OtherFiles(s.disk, s.disk, k);
  }

  lemma WritingSame(s: State, t: State, k: nat, off: nat, done: seq<Byte>)
    requires Writing(s, t, k, off, done)
    ensures SameFrame(s, t, k)
  {
    assert WritingBut(s, t, k, off, done, 0);
  }

  lemma MappedBelowAll(d: Disk, k: nat, bound: nat, lb: nat)
    requires Ptrs(d) > 0 && MappedBelow(d, k, bound, lb)
    requires PhysOf(d, k, lb) != 0 ==> StartOf(d, lb) < bound
    ensures forall x: nat :: MappedBelow(d, k, bound, x)
  {
    hide PhysOf, StartOf;
  }

  lemma PreparedOthers(s: State, t: State, k: nat, lb: nat, pb: nat)
    requires Prepared(s, t, k, lb, pb)
    ensures OtherFiles(s.disk, t.disk, k)
  {
    hide PhysOf, ByteAt;
    forall l: nat | l != k
      ensures SameFile(s.disk, t.disk, l)
    {
      assert forall x: nat :: PhysOf(t.disk, l, x) == PhysOf(s.disk, l, x);
    }
  }

  /** Making a block writable keeps what has been written. */
  lemma WritingPrepared(s: State, t: State, u: State, k: nat, off: nat, done: seq<Byte>, lb: nat, pb: nat)
    requires Writing(s, t, k, off, done) && Prepared(t, u, k, lb, pb)
    ensures WritingBut(s, u, k, off, done, lb)
    ensures pb == 0 ==> Writing(s, u, k, off, done)
    ensures SameUse(s.disk, u.disk) && u.disk.bs == s.disk.bs && Ptrs(u.disk) > 0 && PhysOf(u.disk, k, lb) == pb
    ensures k < |s.disk.inodes| == |u.disk.inodes|
  {
    assert WritingBut(s, t, k, off, done, lb);
    PreparedOthers(t, u, k, lb, pb);
    OtherFilesMore(s.disk, t.disk, u.disk, k);
    hide PhysOf, ByteAt, StartOf, OtherFiles;
    ViewPutSame(s.disk, t.disk, u.disk, k, off, done);
    var bound := Max(s.disk.inodes[k].size, off + |done|);
    if k !in s.disk.loose {
      forall x: nat | x != lb && PhysOf(u.disk, k, x) != 0
        ensures StartOf(u.disk, x) < bound
      {
        StartSame(t.disk, u.disk, x);
      }
      if pb == 0 {
        MappedBelowAll(u.disk, k, bound, lb);
      }
    }
  }

  lemma StartSame(d: Disk, e: Disk, x: nat)
    requires d.bs == e.bs
    ensures StartOf(d, x) == StartOf(e, x)
  {
  }

  lemma ViewPutSame(d: Disk, e: Disk, f: Disk, k: nat, off: nat, done: seq<Byte>)
    requires Ptrs(d) > 0 && Ptrs(e) > 0 && Ptrs(f) > 0
    requires ViewPut(d, e, k, off, done) && SameView(e, f)
    ensures ViewPut(d, f, k, off, done)
  {
    hide ByteAt;
    forall l: nat, x: nat
      ensures ByteAt(f, l, x) == if l == k && off <= x < off + |done| then done[x - off] else ByteAt(d, l, x)
    {
      assert ByteAt(f, l, x) == ByteAt(e, l, x);
    }
  }

  lemma ViewPutMore(d: Disk, e: Disk, f: Disk, k: nat, off: nat, done: seq<Byte>, more: seq<Byte>)
    requires Ptrs(d) > 0 && Ptrs(e) > 0 && Ptrs(f) > 0
    requires ViewPut(d, e, k, off, done) && ViewPut(e, f, k, off + |done|, more)
    ensures ViewPut(d, f, k, off, done + more)
  {
    hide ByteAt;
    forall l: nat, x: nat
      ensures ByteAt(f, l, x) ==
              if l == k && off <= x < off + |done + more| then (done + more)[x - off] else ByteAt(d, l, x)
    {
      assert ByteAt(e, l, x) == if l == k && off <= x < off + |done| then done[x - off] else ByteAt(d, l, x);
    }
  }

  /** Copying one chunk into its block. */
  lemma WritingChunk(s: State, t: State, k: nat, off: nat, done: seq<Byte>, lb: nat, pb: nat, at: nat, more: seq<Byte>)
    requires Core(t) && Sized(t, k, 0) && WritingBut(s, t, k, off, done, lb) && k in t.disk.live
    requires Ptrs(t.disk) > 0 && PhysOf(t.disk, k, lb) == pb != 0
    requires at + |more| <= t.disk.bs && StartOf(t.disk, lb) + at == off + |done| && |more| > 0
    ensures pb < |t.disk.blocks| && |t.disk.blocks[pb]| == t.disk.bs
    ensures var u := t.(disk := WriteData(t.disk, pb, at, more));
            Core(u) && Sized(u, k, 0) && Writing(s, u, k, off, done + more)
  {
    hide Sized, PhysOf, ByteAt, Leaf, Owns, Ref, Splice, Bits.IsSet, Bits.Counted;
    MappedOwned(t.disk, t.owner, k, lb);
    ViewWrite(t.disk, t.owner, k, lb, pb, at, more);
    var u := t.(disk := WriteData(t.disk, pb, at, more));
    WriteCore(t, k, pb, at, more);
    MapSame(t.disk, u.disk);
    hide SameRefs, Shaped;
    ViewPutMore(s.disk, t.disk, u.disk, k, off, done, more);
    WriteOthers(t.disk, u.disk, k, StartOf(t.disk, lb) + at, more);
    OtherFilesMore(s.disk, t.disk, u.disk, k);
    hide ViewPut, OtherFiles;
    if k !in s.disk.loose {
      var size := s.disk.inodes[k].size;
      ChunkBelow(t.disk, u.disk, k, lb, Max(size, off + |done|), Max(size, off + |done + more|));
    }
  }

  lemma ChunkBelow(d: Disk, e: Disk, k: nat, lb: nat, was: nat, bound: nat)
    requires Ptrs(d) > 0 && Ptrs(e) > 0 && e.bs == d.bs && SameMap(d, e)
    requires MappedBelow(d, k, was, lb) && was <= bound && StartOf(d, lb) < bound
    ensures forall x: nat :: MappedBelow(e, k, bound, x)
  {
    hide PhysOf, StartOf;
    forall x: nat | x != lb && PhysOf(e, k, x) != 0
      ensures StartOf(e, x) < bound
    {
      assert PhysOf(e, k, x) == PhysOf(d, k, x);
      StartSame(d, e, x);
    }
    StartSame(d, e, lb);
    MappedBelowAll(e, k, bound, lb);
  }

  lemma WriteCore(t: State, k: nat, pb: nat, at: nat, more: seq<Byte>)
    requires Core(t) && Sized(t, k, 0)
    requires pb < |t.disk.blocks| && at + |more| <= |t.disk.blocks[pb]|
    requires SameRefs(t.disk, WriteData(t.disk, pb, at, more))
    ensures var u := t.(disk := WriteData(t.disk, pb, at, more));
            Core(u) && Sized(u, k, 0)
  {
    var u := t.(disk := WriteData(t.disk, pb, at, more));
    OwnsSame(t.disk, u.disk, t.owner);
    hide Bits.IsSet, Bits.Counted, Owns, SameRefs;
    forall l: nat
      ensures SizedAt(u, l, k, 0)
    {
      assert SizedAt(t, l, k, 0);
    }
    assert ClearInside(u) && LiveUsed(u) && OwnedUsed(u);
  }

  lemma WriteOthers(d: Disk, e: Disk, k: nat, off: nat, more: seq<Byte>)
    requires Ptrs(d) > 0 && Ptrs(e) > 0 && SameMap(d, e) && ViewPut(d, e, k, off, more)
    ensures OtherFiles(d, e, k)
  {
    hide PhysOf, ByteAt;
    forall l: nat | l != k
      ensures SameFile(d, e, l)
    {
      assert forall x: nat :: PhysOf(e, l, x) == PhysOf(d, l, x);
      assert forall x: nat :: ByteAt(e, l, x) == ByteAt(d, l, x);
    }
  }

  // ---------------------------------------------------------------------
  // Growing the size
  // ---------------------------------------------------------------------

  function Resize(d: Disk, k: nat, size: nat): Disk
    requires k < |d.inodes|
  {
    d.(inodes := d.inodes[k := d.inodes[k].(size := size)])
  }

  lemma ResizeSame(d: Disk, k: nat)
    requires k < |d.inodes|
    ensures Resize(d, k, d.inodes[k].size) == d
  {
  }

  const WORD: nat := 0x1_0000_0000

  /** The size after a write up to `end`, in 32 bits. */
  function SizeAfter(size: nat, end: nat): nat {
    Max(size, end % WORD)
  }

  /** How many positions 32-bit block numbers tell apart. */
  function Span(d: Disk): nat {
    WORD * d.bs
  }

  /** The position that an offset leads to when block numbers have 32 bits. */
  function Landing(d: Disk, off: nat): (at: nat)
    requires Ptrs(d) > 0
    ensures at < Span(d) && (off < Span(d) ==> at == off)
  {
    MulSign(d.bs, WORD);
    LandingIs(d, off);
    off % Span(d)
  }

  lemma LandingIs(d: Disk, off: nat)
    requires Ptrs(d) > 0
    ensures Span(d) >= WORD && (off < Span(d) ==> off % Span(d) == off)
  {
    MulSign(d.bs, WORD);
    if off < Span(d) {
      DivUnique(off, Span(d), 0, off);
    }
  }

  /** The block number in 32 bits, and the place in the block. */
  lemma LandingBlock(d: Disk, off: nat, w: nat)
    requires Ptrs(d) > 0 && Landing(d, off) + w < Span(d)
    ensures BlockOf(d, off + w) % WORD == BlockOf(d, Landing(d, off) + w)
    ensures OffsetOf(d, off + w) == OffsetOf(d, Landing(d, off) + w)
  {
    var at, q := Landing(d, off), off / Span(d);
    var n, r := BlockOf(d, at + w), OffsetOf(d, at + w);
    assert off == q * Span(d) + at;
    assert at + w == n * d.bs + r;
    Regroup(q, d.bs, n, r);
    DivUnique(off + w, d.bs, q * WORD + n, r);
    BlockSmall(d, at + w);
    DivUnique(q * WORD + n, WORD, q, n);
  }

  lemma LandingSame(d: Disk, e: Disk, off: nat)
    requires Ptrs(d) > 0 && d.bs == e.bs
    ensures Landing(e, off) == Landing(d, off) && Span(e) == Span(d) && Reach(e) == Reach(d)
  {
  }

  lemma Regroup(q: nat, bs: nat, n: nat, r: nat)
    ensures q * (WORD * bs) + (n * bs + r) == (q * WORD + n) * bs + r
  {
    assert q * (WORD * bs) == (q * WORD) * bs;
    assert (q * WORD + n) * bs == (q * WORD) * bs + n * bs;
  }

  lemma BlockSmall(d: Disk, x: nat)
    requires Ptrs(d) > 0 && x < Span(d)
    ensures BlockOf(d, x) < WORD
  {
    var n := BlockOf(d, x);
    assert x == n * d.bs + x % d.bs;
    MulSign(n - WORD, d.bs);
    assert (n - WORD) * d.bs == n * d.bs - WORD * d.bs;
  }

  /** Whatever a file can map lies below that. */
  lemma ReachSpan(d: Disk, lb: nat)
    requires Shaped(d) && lb < Reach(d)
    ensures StartOf(d, lb) + d.bs < Span(d)
  {
    var p := Ptrs(d);
    assert 4 * p <= d.bs <= 0x4_0000 - 1024;
    assert p <= 65280;
    MulSign(65281 - p, p);
    assert (65281 - p) * p == 65281 * p - p * p;
    assert p * p <= 65281 * p - p;
    assert lb + 1 < WORD;
    MulSign(WORD - (lb + 1), d.bs);
    assert (WORD - (lb + 1)) * d.bs == WORD * d.bs - lb * d.bs - d.bs;
  }

  lemma MappedReach(s: State, k: nat, lb: nat)
    requires Core(s) && Ptrs(s.disk) > 0 && PhysOf(s.disk, k, lb) != 0
    ensures lb < Reach(s.disk)
  {
    PhysOfRef(s.disk, k, lb);
  }

  /** A chunk that goes up to the end of its block leads into the next. */
  lemma NextBlock(d: Disk, x: nat, chunk: nat)
    requires Ptrs(d) > 0 && OffsetOf(d, x) + chunk == d.bs
    ensures BlockOf(d, x + chunk) == BlockOf(d, x) + 1
  {
    Split(d, x);
    assert x + chunk == (BlockOf(d, x) + 1) * d.bs;
    DivUnique(x + chunk, d.bs, BlockOf(d, x) + 1, 0);
  }

  /** Only inode `k` differs from `d`, in its pointers, i_blocks and size. */
  ghost predicate SizesAfterWrite(d: Disk, e: Disk, k: nat, size: nat) {
    && e.live == d.live && e.bs == d.bs && |e.inodes| == |d.inodes| && k < |d.inodes|
    && (forall l | 0 <= l < |d.inodes| && l != k :: e.inodes[l] == d.inodes[l])
    && e.inodes[k].mode == d.inodes[k].mode && e.inodes[k].links == d.inodes[k].links
    && e.inodes[k].size == size
  }

  function SetInode(d: Disk, k: nat, n: Inode): Disk
    requires k < |d.inodes|
  {
    d.(inodes := d.inodes[k := n])
  }

  /** Mode, link count and size do not enter the mapping or the bytes. */
  lemma SetInodeFrame(s: State, k: nat, n: Inode)
    requires Core(s) && Sized(s, k, 0) && k in s.disk.live && k < |s.disk.inodes|
    requires n.block == s.disk.inodes[k].block && n.sectors == s.disk.inodes[k].sectors
    ensures var t := s.(disk := SetInode(s.disk, k, n));
            && Core(t) && Sized(t, k, 0) && Ptrs(s.disk) == Ptrs(t.disk) > 0
            && SameMap(s.disk, t.disk) && SameView(s.disk, t.disk)
  {
    hide Bits.IsSet, Bits.Counted, PhysOf, CellAt;
    var t := s.(disk := SetInode(s.disk, k, n));
    assert SameRefs(s.disk, t.disk);
    OwnsSame(s.disk, t.disk, s.owner);
    hide Ref;
    MapSame(s.disk, t.disk);
    ViewFrame(s.disk, t.disk, s.owner);
    hide Owns, SameRefs, SameMap, SameView;
    forall l: nat
      ensures SizedAt(t, l, k, 0)
    {
      assert SizedAt(s, l, k, 0);
    }
    assert ClearInside(t) && LiveUsed(t) && OwnedUsed(t);
  }

  /** A new size for the file that was written to, whatever it is. */
  lemma WritingResized(s: State, t: State, k: nat, off: nat, done: seq<Byte>, size: nat)
    requires k in s.disk.live && Core(t) && Sized(t, k, 0) && Writing(s, t, k, off, done)
    ensures k < |t.disk.inodes|
    ensures var u := t.(disk := Resize(t.disk, k, size));
            && Core(u) && Sized(u, 0, 0) && Ptrs(s.disk) == Ptrs(t.disk) == Ptrs(u.disk) > 0 && OthersSame(s, u, k)
            && ViewPut(s.disk, u.disk, k, off, done) && SameMap(t.disk, u.disk)
            && SizesAfterWrite(s.disk, u.disk, k, size)
  {
    WritingSame(s, t, k, off, done);
    var u := t.(disk := Resize(t.disk, k, size));
    SetInodeFrame(t, k, t.disk.inodes[k].(size := size));
    SizedAny(u, k, 0);
    assert WritingBut(s, t, k, off, done, 0);
    hide Core, Sized, PhysOf, ByteAt, Writing;
    ViewPutSame(s.disk, t.disk, u.disk, k, off, done);
    hide SameFile, ViewPut, MappedBelow;
    forall l: nat | l != k
      ensures SameFile(t.disk, u.disk, l)
    {
      SameFiles(t.disk, u.disk, l);
    }
    hide SameMap, SameView;
    OtherFilesMore(s.disk, t.disk, u.disk, k);
  }

  /** With the size brought up to date the whole invariant holds again. */
  lemma WritingEnd(s: State, t: State, k: nat, off: nat, done: seq<Byte>)
    requires Valid(s) && k in s.disk.live && Core(t) && Sized(t, k, 0) && Writing(s, t, k, off, done)
    ensures k < |t.disk.inodes|
    ensures Valid(t.(disk := Resize(t.disk, k, Max(t.disk.inodes[k].size, off + |done|))))
  {
    WritingSame(s, t, k, off, done);
    var bound := Max(t.disk.inodes[k].size, off + |done|);
    var u := t.(disk := Resize(t.disk, k, bound));
    WritingResized(s, t, k, off, done, bound);
    assert WritingBut(s, t, k, off, done, 0) && WritingBut(s, t, k, off, done, 1);
    hide Core, Sized, PhysOf, ByteAt, Writing;
    TailsPart(s.disk, k);
    if k !in s.disk.loose {
      EndTail(s.disk, t.disk, u.disk, k, off, done, bound);
    }
    hide SameFile, ViewPut, MappedBelow, Tail, SameMap;
    OthersTails(s, u, k);
    TailsJoin(u.disk, k);
  }

  /** Inode `k` becomes loose. */
  function Loosened(d: Disk, k: nat): Disk {
    d.(loose := d.loose + {k})
  }

  /** A file that was cut off may have blocks behind its end; nothing else changes. */
  lemma WritingCut(s: State, u: State, k: nat)
    requires Valid(s) && Core(u) && Sized(u, 0, 0) && OthersSame(s, u, k) && k in u.disk.live
    ensures var v := u.(disk := Loosened(u.disk, k));
            && Valid(v) && OthersSame(s, v, k) && Ptrs(u.disk) > 0 && SameMap(u.disk, v.disk)
            && SameView(u.disk, v.disk)
  {
    hide Bits.IsSet, Bits.Counted, PhysOf, CellAt, Tails, TailsExcept, TailAt;
    var v := u.(disk := Loosened(u.disk, k));
    assert SameRefs(u.disk, v.disk);
    OwnsSame(u.disk, v.disk, u.owner);
    hide Ref;
    MapSame(u.disk, v.disk);
    ViewFrame(u.disk, v.disk, u.owner);
    hide Owns, SameRefs;
    forall l: nat
      ensures SizedAt(v, l, 0, 0)
    {
      assert SizedAt(u, l, 0, 0);
    }
    assert ClearInside(v) && LiveUsed(v) && OwnedUsed(v);
    hide Core, Sized, ByteAt;
    CutOthers(s, u, v, k);
    TailsPart(s.disk, k);
    OthersTails(s, v, k);
    LooseTail(v.disk, k);
    TailsJoin(v.disk, k);
  }

  lemma CutOthers(s: State, u: State, v: State, k: nat)
    requires OthersSame(s, u, k) && v == u.(disk := Loosened(u.disk, k)) && Ptrs(u.disk) > 0
    requires SameMap(u.disk, v.disk) && SameView(u.disk, v.disk)
    ensures OthersSame(s, v, k)
  {
    hide PhysOf, ByteAt;
    forall l: nat | l != k
      ensures SameFile(s.disk, v.disk, l)
    {
      assert SameFile(s.disk, u.disk, l);
    }
  }

  lemma LooseTail(d: Disk, k: nat)
    requires k in d.loose
    ensures TailAt(d, k)
  {
  }

  lemma EndTail(d: Disk, t: Disk, u: Disk, k: nat, off: nat, done: seq<Byte>, bound: nat)
    requires Ptrs(d) > 0 && Ptrs(t) > 0 && Ptrs(u) > 0 && t.bs == u.bs && k < |d.inodes|
    requires Tail(d, k, d.inodes[k].size) && ViewPut(d, u, k, off, done) && SameMap(t, u)
    requires MappedBelow(t, k, bound, 0) && MappedBelow(t, k, bound, 1)
    requires bound == Max(d.inodes[k].size, off + |done|)
    ensures Tail(u, k, bound)
  {
    hide PhysOf, ByteAt;
    forall lb: nat | PhysOf(u, k, lb) != 0
      ensures StartOf(u, lb) < bound
    {
      assert PhysOf(t, k, lb) != 0;
      StartSame(t, u, lb);
    }
  }

  // ---------------------------------------------------------------------
  // ext2_read
  // ---------------------------------------------------------------------

  /** The file of inode `k` as a flat array of bytes. */
  function Contents(d: Disk, k: nat): (c: seq<Byte>)
    requires Ptrs(d) > 0 && k < |d.inodes|
    ensures |c| == d.inodes[k].size
    ensures forall x | 0 <= x < |c| :: c[x] == ByteAt(d, k, x)
  {
    seq(d.inodes[k].size, x requires 0 <= x => ByteAt(d, k, x))
  }

  /** At most `n` bytes of `c` from `off` on. */
  function Slice(c: seq<Byte>, off: nat, n: nat): seq<Byte> {
    if off >= |c| then [] else if off + n > |c| then c[off..] else c[off..off + n]
  }

  /** `out` is what the file of `k` holds from `off` on. */
  ghost predicate Shows(d: Disk, k: nat, off: nat, out: seq<Byte>)
    requires Ptrs(d) > 0
  {
    forall i: nat | i < |out| :: out[i] == ByteAt(d, k, off + i)
  }

  lemma ReadChunk(s: State, k: nat, off: nat, out: seq<Byte>, lb: nat, pb: nat, boff: nat, n: nat)
    requires Core(s) && k in s.disk.live && k < |s.disk.inodes| && |s.disk.inodes[k].block| == N_BLOCKS
    requires Ptrs(s.disk) > 0 && Shows(s.disk, k, off, out) && pb == Phys(s.disk, s.disk.inodes[k], lb)
    requires boff + n <= s.disk.bs && StartOf(s.disk, lb) + boff == off + |out|
    ensures pb == 0 ==> Shows(s.disk, k, off, out + Zeros(n))
    ensures pb != 0 ==>
              && pb < |s.disk.blocks| && |s.disk.blocks[pb]| == s.disk.bs
              && Shows(s.disk, k, off, out + s.disk.blocks[pb][boff..boff + n])
  {
    var d := s.disk;
    PhysOfPhys(d, k, lb);
    hide PhysOf, Bits.IsSet, Bits.Counted;
    if pb != 0 {
      MappedOwned(d, s.owner, k, lb);
    }
    var more := if pb == 0 then Zeros(n) else d.blocks[pb][boff..boff + n];
    hide Core, BlockOf, OffsetOf, Shaped;
    forall i: nat | i < n
      ensures more[i] == ByteAt(d, k, off + |out| + i)
    {
      InChunk(d, lb, boff, n, off + |out| + i);
    }
    hide ByteAt;
    forall i: nat | i < |out + more|
      ensures (out + more)[i] == ByteAt(d, k, off + i)
    {
      if i >= |out| {
        assert more[i - |out|] == ByteAt(d, k, off + |out| + (i - |out|));
      }
    }
  }

  lemma ShowsAll(d: Disk, k: nat, off: nat, out: seq<Byte>)
    requires Ptrs(d) > 0 && k < |d.inodes| && Shows(d, k, off, out) && off + |out| <= d.inodes[k].size
    ensures out == Contents(d, k)[off..off + |out|]
  {
    hide ByteAt;
    var c := Contents(d, k);
    forall i: nat | i < |out|
      ensures out[i] == c[off + i]
    {
    }
  }

  // ---------------------------------------------------------------------
  // The refinement
  // ---------------------------------------------------------------------

  /** `data` written over `c` at `off`; a gap past the end is filled with zeros. */
  function Overlay(c: seq<Byte>, off: nat, data: seq<Byte>): (r: seq<Byte>)
    ensures |r| == Max(|c|, off + |data|)
    ensures forall x | 0 <= x < |r| :: r[x] ==
              if off <= x < off + |data| then data[x - off] else if x < |c| then c[x] else 0
  {
    var base := if |c| < off + |data| then c + Zeros(off + |data| - |c|) else c;
    base[..off] + data + base[off + |data|..]
  }

  /** A write refines the functional update of one flat array, and every other
      file is untouched. */
  lemma WriteRefines(d: Disk, e: Disk, k: nat, off: nat, data: seq<Byte>)
    requires Ptrs(d) > 0 && Ptrs(e) > 0 && k < |d.inodes| && k in d.live && k !in d.loose && Tails(d)
    requires ViewPut(d, e, k, off, data) && SizesAfterWrite(d, e, k, Max(d.inodes[k].size, off + |data|))
    ensures Contents(e, k) == Overlay(Contents(d, k), off, data)
    ensures forall l: nat | l < |d.inodes| && l != k :: Contents(e, l) == Contents(d, l)
  {
    hide ByteAt;
    assert TailAt(d, k);
    var c, r := Contents(e, k), Overlay(Contents(d, k), off, data);
    forall x: nat | x < |c|
      ensures c[x] == r[x]
    {
      assert c[x] == ByteAt(e, k, x);
    }
    forall l: nat | l < |d.inodes| && l != k
      ensures Contents(e, l) == Contents(d, l)
    {
      var p, q := Contents(e, l), Contents(d, l);
      forall x: nat | x < |p|
        ensures p[x] == q[x]
      {
        assert p[x] == ByteAt(e, l, x);
      }
    }
  }

  /** Past 32 bits it does not: the size is cut off and does not reach the end. */
  lemma WriteCut(d: Disk, e: Disk, k: nat, off: nat, data: seq<Byte>)
    requires Ptrs(d) > 0 && Ptrs(e) > 0 && k < |d.inodes| && d.inodes[k].size < WORD <= off + |data|
    requires SizesAfterWrite(d, e, k, SizeAfter(d.inodes[k].size, off + |data|))
    ensures Contents(e, k) != Overlay(Contents(d, k), off, data)
  {
    hide ByteAt;
    assert |Contents(e, k)| < WORD;
  }

  lemma OthersContents(s: State, t: State, k: nat)
    requires OthersSame(s, t, k)
    ensures forall l: nat | l < |s.disk.inodes| && l != k ::
              t.disk.inodes[l] == s.disk.inodes[l] && Contents(t.disk, l) == Contents(s.disk, l)
  {
    hide ByteAt, PhysOf;
    forall l: nat | l < |s.disk.inodes| && l != k
      ensures Contents(t.disk, l) == Contents(s.disk, l)
    {
      assert SameFile(s.disk, t.disk, l);
      var p, q := Contents(t.disk, l), Contents(s.disk, l);
      assert forall x: nat | x < |p| :: p[x] == ByteAt(t.disk, l, x) == q[x];
    }
  }

  lemma ViewPutNothing(d: Disk, k: nat, off: nat)
    requires Ptrs(d) > 0
    ensures ViewPut(d, d, k, off, [])
  {
  }

  lemma ValidCore(s: State)
    requires Valid(s)
    ensures Core(s)
  {
  }

  lemma SliceIs(c: seq<Byte>, off: nat, data: seq<Byte>)
    requires off + |data| <= |c| && forall i: nat | i < |data| :: c[off + i] == data[i]
    ensures Slice(c, off, |data|) == data
  {
  }

  /** The size does not shrink, and it reaches the end of the write exactly if that fits 32 bits. */
  lemma SizeAfterIs(size: nat, end: nat)
    requires size < WORD
    ensures size <= SizeAfter(size, end) < WORD && (end <= SizeAfter(size, end) <==> end < WORD)
    ensures end % WORD <= SizeAfter(size, end) && (SizeAfter(size, end) == size || SizeAfter(size, end) == end % WORD)
  {
    if end < WORD {
      DivUnique(end, WORD, 0, end);
    }
  }

  /** Reading where it was written gives the bytes back exactly if the end fits 32 bits. */
  lemma WrittenShows(d: Disk, e: Disk, k: nat, off: nat, data: seq<Byte>)
    requires Ptrs(d) > 0 && Ptrs(e) > 0 && k < |d.inodes| && d.inodes[k].size < WORD && data != []
    requires ViewPut(d, e, k, Landing(d, off), data)
    requires SizesAfterWrite(d, e, k, SizeAfter(d.inodes[k].size, off + |data|))
    ensures Slice(Contents(e, k), off, |data|) == data <==> off + |data| < WORD
  {
    hide ByteAt, Span, SizeAfter, Ptrs;
    LandingIs(d, off);
    SizeAfterIs(d.inodes[k].size, off + |data|);
    var c := Contents(e, k);
    if off + |data| < WORD {
      forall i: nat | i < |data|
        ensures c[off + i] == data[i]
      {
        assert c[off + i] == ByteAt(e, k, off + i);
      }
      SliceIs(c, off, data);
    } else {
      assert |Slice(c, off, |data|)| < |data|;
    }
  }

  lemma NothingWritten(d: Disk, e: Disk, k: nat, off: nat)
    requires Ptrs(d) > 0 && Ptrs(e) > 0 && ViewPut(d, e, k, off, [])
    requires k < |d.inodes| && SizesAfterWrite(d, e, k, d.inodes[k].size)
    ensures forall l: nat | l < |d.inodes| :: Contents(e, l) == Contents(d, l)
  {
    hide ByteAt;
    forall l: nat | l < |d.inodes|
      ensures Contents(e, l) == Contents(d, l)
    {
      var p, q := Contents(e, l), Contents(d, l);
      forall x: nat | x < |p|
        ensures p[x] == q[x]
      {
        assert p[x] == ByteAt(e, l, x);
      }
    }
  }

  /** Reading back what was written. */
  lemma ReadAfterWrite(c: seq<Byte>, off: nat, data: seq<Byte>)
    requires data != []
    ensures Slice(Overlay(c, off, data), off, |data|) == data
  {
  }

  // ---------------------------------------------------------------------
  // Operations on one file, seen from the others
  // ---------------------------------------------------------------------

  /** Every inode other than `k` is as in `s`, with the same bytes. */
  ghost predicate OthersSame(s: State, t: State, k: nat) {
    && t.fdb == s.fdb && t.disk.bs == s.disk.bs && Ptrs(s.disk) > 0
    && |t.disk.blocks| == |s.disk.blocks| && |t.disk.inodes| == |s.disk.inodes|
    && (forall l: nat | l != k :: l in t.disk.live <==> l in s.disk.live)
    && (forall l: nat | l != k :: l in t.disk.loose <==> l in s.disk.loose)
    && (forall l: nat | l != k && l < |s.disk.inodes| :: t.disk.inodes[l] == s.disk.inodes[l])
    && (forall l: nat | l != k :: SameFile(s.disk, t.disk, l))
  }

  lemma OthersTransitive(s: State, t: State, u: State, k: nat)
    requires OthersSame(s, t, k) && OthersSame(t, u, k)
    ensures OthersSame(s, u, k)
  {
    hide PhysOf, ByteAt;
    forall l: nat | l != k
      ensures SameFile(s.disk, u.disk, l)
    {
      assert SameFile(s.disk, t.disk, l) && SameFile(t.disk, u.disk, l);
    }
  }

  /** No file but `k` can have lost its end. */
  lemma OthersTails(s: State, t: State, k: nat)
    requires OthersSame(s, t, k) && TailsExcept(s.disk, k)
    ensures TailsExcept(t.disk, k)
  {
    hide SameFile, Tail;
    forall l: nat | l != k
      ensures TailAt(t.disk, l)
    {
      assert TailAt(s.disk, l);
      if l in s.disk.live && l !in s.disk.loose && l < |s.disk.inodes| {
        TailFrame(s.disk, t.disk, l, s.disk.inodes[l].size);
      }
    }
  }

  lemma SameFiles(d: Disk, e: Disk, l: nat)
    requires Ptrs(d) > 0 && Ptrs(e) > 0 && SameMap(d, e) && SameView(d, e)
    ensures SameFile(d, e, l)
  {
    hide PhysOf, ByteAt;
  }

  lemma TailsJoin(d: Disk, k: nat)
    requires TailsExcept(d, k) && TailAt(d, k)
    ensures Tails(d)
  {
  }

  lemma TailsPart(d: Disk, k: nat)
    requires Tails(d)
    ensures TailsExcept(d, k) && TailAt(d, k)
  {
  }
}
