/** The block map of fs/ext2.c: how an inode's direct, single-indirect and
double-indirect pointers lay a file out over the blocks of the image.

Pointer tables are ordinary blocks, so a pointer is four little-endian bytes of
some block. Nothing in the image says which blocks are tables; what keeps one
file's tables out of another file's data is ownership. The ghost map `Owner`
gives each owned block the single place that points to it. */
module Ext2Map {
  import opened Arith
  import opened Bytes

  type Block = seq<Byte>

  const NDIR: nat := 12
  const IND: nat := 12
  const DIND: nat := 13
  const TIND: nat := 14
  const N_BLOCKS: nat := 15

  /** `sectors` is i_blocks, counted in 512-byte units. */
  datatype Inode = Inode(mode: nat, links: nat, size: nat, sectors: nat, block: seq<nat>)

  /** The blocks and the inode table; inode number n is `inodes[n - 1]`, and
      `live` tells which inodes are allocated. Those in `loose` had their size cut
      off in 32 bits, so that blocks may lie behind their end. */
  datatype Disk = Disk(bs: nat, blocks: seq<Block>, inodes: seq<Inode>, live: set<nat>, loose: set<nat>)

  /** The same inodes are in use, and the same of them are loose. */
  predicate SameUse(d: Disk, e: Disk) {
    e.live == d.live && e.loose == d.loose
  }

  /** Entry `i` of the table in block `t`; 0 where there is no such table. */
  function Entry(blocks: seq<Block>, t: nat, i: nat): nat {
    if t == 0 || t >= |blocks| || 4 * i + 4 > |blocks[t]| then 0 else Word(blocks[t], i)
  }

  // ---------------------------------------------------------------------
  // Translation
  // ---------------------------------------------------------------------

  function Ptrs(d: Disk): nat {
    d.bs / 4
  }

  function PhysTriple(d: Disk, tind: nat, r: nat): nat
    requires Ptrs(d) > 0
  {
    var ptrs := Ptrs(d);
    var q: nat := r / (ptrs * ptrs);
    var rest: nat := r % (ptrs * ptrs);
    Entry(d.blocks, Entry(d.blocks, Entry(d.blocks, tind, q), rest / ptrs), rest % ptrs)
  }

  /** file_block_to_phys. */
  function Phys(d: Disk, n: Inode, lb: nat): nat
    requires |n.block| == N_BLOCKS && Ptrs(d) > 0
  {
    var ptrs := Ptrs(d);
    if lb < NDIR then n.block[lb]
    else if lb - NDIR < ptrs then Entry(d.blocks, n.block[IND], lb - NDIR)
    else if lb - NDIR - ptrs < ptrs * ptrs then
      var r := lb - NDIR - ptrs;
      Entry(d.blocks, Entry(d.blocks, n.block[DIND], r / ptrs), r % ptrs)
    else
      PhysTriple(d, n.block[TIND], lb - NDIR - ptrs - ptrs * ptrs)
  }

  /** The places that can hold a block pointer: the inode's slots, and the
      entries of the tables they lead to. */
  datatype Place =
    | Direct(i: nat)
    | Single
    | SingleAt(i: nat)
    | Double
    | DoubleAt(i: nat)
    | DoubleAtAt(i: nat, j: nat)

  predicate IsTable(p: Place) {
    p.Single? || p.Double? || p.DoubleAt?
  }

  function At(blocks: seq<Block>, n: Inode, p: Place): nat
    requires |n.block| == N_BLOCKS
  {
    match p
    case Direct(i) => if i < NDIR then n.block[i] else 0
    case Single => n.block[IND]
    case SingleAt(i) => Entry(blocks, n.block[IND], i)
    case Double => n.block[DIND]
    case DoubleAt(i) => Entry(blocks, n.block[DIND], i)
    case DoubleAtAt(i, j) => Entry(blocks, Entry(blocks, n.block[DIND], i), j)
  }

  /** Blocks a file can map without a triple-indirect table. */
  function Reach(d: Disk): nat {
    NDIR + Ptrs(d) + Ptrs(d) * Ptrs(d)
  }

  /** The place that maps logical block `lb`. */
  function Leaf(d: Disk, lb: nat): (p: Place)
    requires Ptrs(d) > 0
    ensures !IsTable(p)
  {
    var ptrs := Ptrs(d);
    if lb < NDIR then Direct(lb)
    else if lb - NDIR < ptrs then SingleAt(lb - NDIR)
    else DoubleAtAt((lb - NDIR - ptrs) / ptrs, (lb - NDIR - ptrs) % ptrs)
  }

  lemma PhysAtLeaf(d: Disk, n: Inode, lb: nat)
    requires |n.block| == N_BLOCKS && Ptrs(d) > 0 && (lb < Reach(d) || n.block[TIND] == 0)
    ensures Phys(d, n, lb) == if lb < Reach(d) then At(d.blocks, n, Leaf(d, lb)) else 0
  {
  }

  lemma LeafInjective(d: Disk, x: nat, y: nat)
    requires Ptrs(d) > 0 && x < Reach(d) && y < Reach(d) && Leaf(d, x) == Leaf(d, y)
    ensures x == y
  {
    var ptrs := Ptrs(d);
    if x >= NDIR + ptrs {
      var r, s := x - NDIR - ptrs, y - NDIR - ptrs;
      assert r == ptrs * (r / ptrs) + r % ptrs;
      assert s == ptrs * (s / ptrs) + s % ptrs;
    }
  }

  /** Every leaf with both indices in range maps some logical block. */
  lemma LeafOnto(d: Disk, i: nat, j: nat)
    requires i < Ptrs(d) && j < Ptrs(d)
    ensures var lb := NDIR + Ptrs(d) + i * Ptrs(d) + j;
            lb < Reach(d) && Leaf(d, lb) == DoubleAtAt(i, j)
  {
    var ptrs := Ptrs(d);
    var r := i * ptrs + j;
    assert (i + 1) * ptrs <= ptrs * ptrs;
    DivUnique(r, ptrs, i, j);
  }

  // ---------------------------------------------------------------------
  // Ownership
  // ---------------------------------------------------------------------

  ghost predicate Shaped(d: Disk) {
    && 1024 <= d.bs < 0x4_0000 && d.bs % 1024 == 0 && |d.blocks| <= 0x1_0000_0000
    && (forall b | 0 <= b < |d.blocks| :: |d.blocks[b]| == d.bs)
    && (forall k | 0 <= k < |d.inodes| :: |d.inodes[k].block| == N_BLOCKS)
    && (forall k | k in d.live :: k < |d.inodes| && d.inodes[k].block[TIND] == 0)
    && d.loose <= d.live
  }

  /** The pointer at place `p` of inode `k`; 0 if there is none. */
  function Ref(d: Disk, k: nat, p: Place): nat {
    if k in d.live && k < |d.inodes| && |d.inodes[k].block| == N_BLOCKS
    then At(d.blocks, d.inodes[k], p) else 0
  }

  type Owner = map<nat, (nat, Place)>

  /** `owner` holds exactly the blocks that live inodes point to, each with the
      one place that points to it. */
  ghost predicate Owns(d: Disk, owner: Owner) {
    && (forall b | b in owner :: 0 < b < |d.blocks| && Ref(d, owner[b].0, owner[b].1) == b)
    && (forall k: nat, p :: Ref(d, k, p) != 0 ==> Ref(d, k, p) in owner && owner[Ref(d, k, p)] == (k, p))
  }

  /** No block is reachable from two places. */
  lemma OwnsNoSharing(d: Disk, owner: Owner, k: nat, p: Place, l: nat, q: Place)
    requires Owns(d, owner) && Ref(d, k, p) != 0 && Ref(d, k, p) == Ref(d, l, q)
    ensures k == l && p == q
  {
  }

  ghost predicate SameRefs(d: Disk, e: Disk) {
    forall k: nat, p :: Ref(e, k, p) == Ref(d, k, p)
  }

  /** The only pointer that differs is `c` of inode `k`, which is now `v`. */
  ghost predicate RefPut(d: Disk, e: Disk, k: nat, c: Place, v: nat) {
    forall l: nat, p :: Ref(e, l, p) == if l == k && p == c then v else Ref(d, l, p)
  }

  function Reown(owner: Owner, was: nat, k: nat, c: Place, v: nat): Owner {
    (owner - {was})[v := (k, c)]
  }

  lemma OwnsPut(d: Disk, e: Disk, owner: Owner, k: nat, c: Place, v: nat)
    requires Owns(d, owner) && RefPut(d, e, k, c, v)
    requires v !in owner && 0 < v < |d.blocks| == |e.blocks|
    ensures Owns(e, Reown(owner, Ref(d, k, c), k, c, v))
  {
    hide Ref;
  }

  lemma OwnsSame(d: Disk, e: Disk, owner: Owner)
    requires Owns(d, owner) && SameRefs(d, e) && |d.blocks| == |e.blocks|
    ensures Owns(e, owner)
  {
    hide Ref;
  }

  function SetBlockBytes(d: Disk, b: nat, x: Block): Disk
    requires b < |d.blocks|
  {
    d.(blocks := d.blocks[b := x])
  }

  /** Pointers do not depend on blocks that are not tables. */
  lemma FrameBlock(d: Disk, owner: Owner, b: nat, x: Block)
    requires Owns(d, owner) && b < |d.blocks|
    requires b in owner ==> !IsTable(owner[b].1)
    ensures SameRefs(d, SetBlockBytes(d, b, x))
  {
    var e := SetBlockBytes(d, b, x);
    forall k: nat, p
      ensures Ref(e, k, p) == Ref(d, k, p)
    {
      FrameBlockAt(d, owner, b, x, k, p);
    }
  }

  lemma FrameBlockAt(d: Disk, owner: Owner, b: nat, x: Block, k: nat, p: Place)
    requires Owns(d, owner) && b < |d.blocks|
    requires b in owner ==> !IsTable(owner[b].1)
    ensures Ref(SetBlockBytes(d, b, x), k, p) == Ref(d, k, p)
  {
    hide Word;
    match p
    case Direct(_) =>
    case Single =>
    case Double =>
    case SingleAt(i) =>
      assert Ref(d, k, Single) == b ==> b == 0;
    case DoubleAt(i) =>
      assert Ref(d, k, Double) == b ==> b == 0;
    case DoubleAtAt(i, j) =>
      assert Ref(d, k, Double) == b ==> b == 0;
      assert Ref(d, k, DoubleAt(i)) == b ==> b == 0;
  }

  /** The place of entry `i` in the table that place `t` points to. */
  function Child(t: Place, i: nat): (c: Place)
    requires IsTable(t)
  {
    match t
    case Single => SingleAt(i)
    case Double => DoubleAt(i)
    case DoubleAt(j) => DoubleAtAt(j, i)
  }

  function SetTable(d: Disk, t: nat, i: nat, v: nat): Disk
    requires t < |d.blocks| && 4 * i + 4 <= |d.blocks[t]| && v < 0x1_0000_0000
  {
    SetBlockBytes(d, t, PutWord(d.blocks[t], i, v))
  }

  /** Block `v` holds no pointers. */
  ghost predicate Blank(d: Disk, v: nat) {
    v < |d.blocks| && d.blocks[v] == Zeros(|d.blocks[v]|)
  }

  lemma BlankEntry(d: Disk, v: nat, i: nat)
    requires Blank(d, v)
    ensures Entry(d.blocks, v, i) == 0
  {
  }

  /** Writing one entry of an owned table changes that pointer only. A pointer
      to a further table may only go from 0 to a blank block. */
  lemma TablePut(d: Disk, owner: Owner, t: nat, i: nat, v: nat)
    requires Owns(d, owner) && t in owner && IsTable(owner[t].1)
    requires 4 * i + 4 <= |d.blocks[t]| && v < 0x1_0000_0000
    requires owner[t].1.Double? ==> v != t && Ref(d, owner[t].0, DoubleAt(i)) == 0 && Blank(d, v)
    ensures RefPut(d, SetTable(d, t, i, v), owner[t].0, Child(owner[t].1, i), v)
  {
    var e := SetTable(d, t, i, v);
    forall k: nat, p
      ensures Ref(e, k, p) == if k == owner[t].0 && p == Child(owner[t].1, i) then v else Ref(d, k, p)
    {
      TablePutAt(d, owner, t, i, v, k, p);
    }
  }

  /** An entry seen through a table write. */
  lemma EntryPut(d: Disk, t: nat, i: nat, v: nat, u: nat, j: nat)
    requires 0 < t < |d.blocks| && 4 * i + 4 <= |d.blocks[t]| && v < 0x1_0000_0000
    ensures Entry(SetTable(d, t, i, v).blocks, u, j)
         == if u == t && j == i then v else Entry(d.blocks, u, j)
  {
    if u == t && 4 * j + 4 <= |d.blocks[t]| {
      WordPut(d.blocks[t], i, v, j);
    }
  }

  lemma TablePutAt(d: Disk, owner: Owner, t: nat, i: nat, v: nat, k: nat, p: Place)
    requires Owns(d, owner) && t in owner && IsTable(owner[t].1)
    requires 4 * i + 4 <= |d.blocks[t]| && v < 0x1_0000_0000
    requires owner[t].1.Double? ==> v != t && Ref(d, owner[t].0, DoubleAt(i)) == 0 && Blank(d, v)
    ensures Ref(SetTable(d, t, i, v), k, p)
         == if k == owner[t].0 && p == Child(owner[t].1, i) then v else Ref(d, k, p)
  {
    var e := SetTable(d, t, i, v);
    if k in d.live && k < |d.inodes| && |d.inodes[k].block| == N_BLOCKS {
      var n := d.inodes[k];
      match p
      case Direct(_) =>
      case Single =>
      case Double =>
      case SingleAt(j) =>
        assert Ref(d, k, Single) == n.block[IND];
        EntryPut(d, t, i, v, n.block[IND], j);
      case DoubleAt(j) =>
        assert Ref(d, k, Double) == n.block[DIND];
        EntryPut(d, t, i, v, n.block[DIND], j);
      case DoubleAtAt(j, l) =>
        TablePutDeep(d, owner, t, i, v, k, j, l);
    }
  }

  lemma TablePutDeep(d: Disk, owner: Owner, t: nat, i: nat, v: nat, k: nat, j: nat, l: nat)
    requires Owns(d, owner) && t in owner && IsTable(owner[t].1)
    requires 4 * i + 4 <= |d.blocks[t]| && v < 0x1_0000_0000
    requires owner[t].1.Double? ==> v != t && Ref(d, owner[t].0, DoubleAt(i)) == 0 && Blank(d, v)
    requires k in d.live && k < |d.inodes| && |d.inodes[k].block| == N_BLOCKS
    ensures Ref(SetTable(d, t, i, v), k, DoubleAtAt(j, l))
         == if k == owner[t].0 && DoubleAtAt(j, l) == Child(owner[t].1, i) then v else Ref(d, k, DoubleAtAt(j, l))
  {
    hide Entry, SetTable;
    var n, e := d.inodes[k], SetTable(d, t, i, v);
    var u := Entry(d.blocks, n.block[DIND], j);
    assert Ref(d, k, Double) == n.block[DIND];
    assert Ref(d, k, DoubleAt(j)) == u;
    EntryPut(d, t, i, v, n.block[DIND], j);
    if n.block[DIND] == t && j == i {
      EntryPut(d, t, i, v, v, l);
      BlankEntry(d, v, l);
      EntryZero(d, l);
    } else {
      EntryPut(d, t, i, v, u, l);
    }
    assert e.inodes == d.inodes && e.live == d.live by {
      SetTableFrame(d, t, i, v);
    }
  }

  lemma EntryZero(d: Disk, i: nat)
    ensures Entry(d.blocks, 0, i) == 0
  {
  }

  lemma SetTableFrame(d: Disk, t: nat, i: nat, v: nat)
    requires t < |d.blocks| && 4 * i + 4 <= |d.blocks[t]| && v < 0x1_0000_0000
    ensures var e := SetTable(d, t, i, v);
            e.inodes == d.inodes && e.live == d.live && e.bs == d.bs && |e.blocks| == |d.blocks|
  {
  }

  function SetSlot(d: Disk, k: nat, s: nat, v: nat): Disk
    requires k < |d.inodes| && s < |d.inodes[k].block|
  {
    d.(inodes := d.inodes[k := d.inodes[k].(block := d.inodes[k].block[s := v])])
  }

  function SlotPlace(s: nat): Place
    requires s < TIND
  {
    if s < NDIR then Direct(s) else if s == IND then Single else Double
  }

  /** Writing one pointer slot of an inode changes that pointer only. A table
      slot may only go from 0 to a blank block. */
  lemma SlotPut(d: Disk, k: nat, s: nat, v: nat)
    requires k in d.live && k < |d.inodes| && |d.inodes[k].block| == N_BLOCKS && s < TIND
    requires s >= NDIR ==> d.inodes[k].block[s] == 0 && Blank(d, v)
    ensures RefPut(d, SetSlot(d, k, s, v), k, SlotPlace(s), v)
  {
    var e := SetSlot(d, k, s, v);
    forall l: nat, p
      ensures Ref(e, l, p) == if l == k && p == SlotPlace(s) then v else Ref(d, l, p)
    {
      SlotPutAt(d, k, s, v, l, p);
    }
  }

  lemma SlotPutAt(d: Disk, k: nat, s: nat, v: nat, l: nat, p: Place)
    requires k in d.live && k < |d.inodes| && |d.inodes[k].block| == N_BLOCKS && s < TIND
    requires s >= NDIR ==> d.inodes[k].block[s] == 0 && Blank(d, v)
    ensures Ref(SetSlot(d, k, s, v), l, p) == if l == k && p == SlotPlace(s) then v else Ref(d, l, p)
  {
    hide Entry, Blank;
    match p
    case Direct(_) =>
    case Single =>
    case Double =>
    case SingleAt(i) =>
      EntryZero(d, i);
      if s == IND { BlankEntry(d, v, i); }
    case DoubleAt(i) =>
      EntryZero(d, i);
      if s == DIND { BlankEntry(d, v, i); }
    case DoubleAtAt(i, j) =>
      EntryZero(d, i);
      EntryZero(d, j);
      if s == DIND { BlankEntry(d, v, i); }
  }

  /** Pointers, seen as the mapping of logical blocks. */
  function PhysOf(d: Disk, k: nat, lb: nat): nat
    requires Ptrs(d) > 0
  {
    if k in d.live && k < |d.inodes| && |d.inodes[k].block| == N_BLOCKS
    then Phys(d, d.inodes[k], lb) else 0
  }

  ghost predicate SameMap(d: Disk, e: Disk)
    requires Ptrs(d) > 0 && Ptrs(e) > 0
  {
    forall k: nat, lb: nat :: PhysOf(e, k, lb) == PhysOf(d, k, lb)
  }

  /** `e` maps block `lb` of inode `k` to `v` and everything else as `d` does. */
  ghost predicate MapPut(d: Disk, e: Disk, k: nat, lb: nat, v: nat)
    requires Ptrs(d) > 0 && Ptrs(e) > 0
  {
    forall l: nat, x: nat :: PhysOf(e, l, x) == if l == k && x == lb then v else PhysOf(d, l, x)
  }

  lemma PhysOfRef(d: Disk, k: nat, lb: nat)
    requires Shaped(d)
    ensures PhysOf(d, k, lb) == if lb < Reach(d) then Ref(d, k, Leaf(d, lb)) else 0
  {
    if k in d.live {
      PhysAtLeaf(d, d.inodes[k], lb);
    }
  }

  /** Changing a table pointer, with no leaf changing, leaves the mapping alone. */
  lemma MapSame(d: Disk, e: Disk)
    requires Shaped(d) && Shaped(e) && d.bs == e.bs
    requires forall k: nat, p :: !IsTable(p) ==> Ref(e, k, p) == Ref(d, k, p)
    ensures SameMap(d, e)
  {
    hide Ref, Shaped, PhysOf, Leaf;
    LeafSame(d, e, 0);
    forall k: nat, lb: nat
      ensures PhysOf(e, k, lb) == PhysOf(d, k, lb)
    {
      PhysOfRef(d, k, lb);
      PhysOfRef(e, k, lb);
      LeafSame(d, e, lb);
    }
  }

  lemma LeafSame(d: Disk, e: Disk, lb: nat)
    requires Shaped(d) && Shaped(e) && d.bs == e.bs
    ensures Ptrs(d) == Ptrs(e) > 0 && Reach(d) == Reach(e) && Leaf(d, lb) == Leaf(e, lb)
  {
  }

  lemma MapPutAtLeaf(d: Disk, e: Disk, k: nat, lb: nat, v: nat)
    requires Shaped(d) && Shaped(e) && d.bs == e.bs && lb < Reach(d)
    requires RefPut(d, e, k, Leaf(d, lb), v)
    ensures MapPut(d, e, k, lb, v)
  {
    hide Ref, Shaped, PhysOf, Leaf;
    LeafSame(d, e, 0);
    forall l: nat, x: nat
      ensures PhysOf(e, l, x) == if l == k && x == lb then v else PhysOf(d, l, x)
    {
      PhysOfRef(d, l, x);
      PhysOfRef(e, l, x);
      LeafSame(d, e, x);
      if x < Reach(d) && Leaf(d, x) == Leaf(d, lb) {
        LeafInjective(d, x, lb);
      }
    }
  }

  // ---------------------------------------------------------------------
  // Files as flat arrays of bytes
  // ---------------------------------------------------------------------

  /** Byte `i` of logical block `lb` of inode `k`; holes read as zero. */
  function CellAt(d: Disk, k: nat, lb: nat, i: nat): Byte
    requires Ptrs(d) > 0
  {
    var b := PhysOf(d, k, lb);
    if b == 0 || b >= |d.blocks| || i >= |d.blocks[b]| then 0 else d.blocks[b][i]
  }

  function BlockOf(d: Disk, x: nat): nat
    requires Ptrs(d) > 0
  {
    x / d.bs
  }

  function OffsetOf(d: Disk, x: nat): nat
    requires Ptrs(d) > 0
  {
    x % d.bs
  }

  /** Byte `x` of the file of inode `k`. */
  function ByteAt(d: Disk, k: nat, x: nat): Byte
    requires Ptrs(d) > 0
  {
    CellAt(d, k, BlockOf(d, x), OffsetOf(d, x))
  }

  ghost predicate SameView(d: Disk, e: Disk)
    requires Ptrs(d) > 0 && Ptrs(e) > 0
  {
    forall l: nat, x: nat :: ByteAt(e, l, x) == ByteAt(d, l, x)
  }

  /** `e` shows `data` at `off` in the file of `k`, and otherwise what `d` shows. */
  ghost predicate ViewPut(d: Disk, e: Disk, k: nat, off: nat, data: seq<Byte>)
    requires Ptrs(d) > 0 && Ptrs(e) > 0
  {
    forall l: nat, x: nat :: ByteAt(e, l, x) ==
      if l == k && off <= x < off + |data| then data[x - off] else ByteAt(d, l, x)
  }

  /** `e` agrees with `d` on every block that some file maps as data. */
  ghost predicate SameData(d: Disk, e: Disk, owner: Owner) {
    && |d.blocks| == |e.blocks|
    && forall b | b in owner && !IsTable(owner[b].1) && b < |d.blocks| :: e.blocks[b] == d.blocks[b]
  }

  /** A mapped data block is owned by the place that maps it. */
  lemma MappedOwned(d: Disk, owner: Owner, k: nat, lb: nat)
    requires Shaped(d) && Owns(d, owner) && PhysOf(d, k, lb) != 0
    ensures var b := PhysOf(d, k, lb);
            && lb < Reach(d) && b in owner && owner[b] == (k, Leaf(d, lb)) && 0 < b < |d.blocks|
  {
    PhysOfRef(d, k, lb);
    hide Ref, PhysOf, Leaf;
  }

  lemma ViewFrame(d: Disk, e: Disk, owner: Owner)
    requires Shaped(d) && Shaped(e) && d.bs == e.bs && Owns(d, owner)
    requires SameMap(d, e) && SameData(d, e, owner)
    ensures SameView(d, e)
  {
    forall l: nat, x: nat
      ensures ByteAt(e, l, x) == ByteAt(d, l, x)
    {
      CellFrame(d, e, owner, l, BlockOf(d, x), OffsetOf(d, x));
    }
  }

  lemma CellFrame(d: Disk, e: Disk, owner: Owner, l: nat, lb: nat, i: nat)
    requires Shaped(d) && Shaped(e) && Owns(d, owner)
    requires PhysOf(e, l, lb) == PhysOf(d, l, lb) && SameData(d, e, owner)
    ensures CellAt(e, l, lb, i) == CellAt(d, l, lb, i)
  {
    hide PhysOf, Owns, Leaf;
    if PhysOf(d, l, lb) != 0 {
      MappedOwned(d, owner, l, lb);
    }
  }

  /** Mapping a blank block into a hole shows the same bytes. */
  lemma ViewBlank(d: Disk, e: Disk, owner: Owner, k: nat, lb: nat, v: nat)
    requires Shaped(d) && Shaped(e) && d.bs == e.bs && Owns(d, owner)
    requires MapPut(d, e, k, lb, v) && PhysOf(d, k, lb) == 0 && Blank(e, v) && SameData(d, e, owner)
    ensures SameView(d, e)
  {
    forall l: nat, x: nat
      ensures ByteAt(e, l, x) == ByteAt(d, l, x)
    {
      hide BlockOf, OffsetOf, PhysOf, Owns;
      var y, i := BlockOf(d, x), OffsetOf(d, x);
      assert PhysOf(e, l, y) == if l == k && y == lb then v else PhysOf(d, l, y);
      if l == k && y == lb {
        assert CellAt(d, l, y, i) == 0 == CellAt(e, l, y, i);
      } else {
        CellFrame(d, e, owner, l, y, i);
      }
      CellSplit(d, e, x);
    }
  }

  lemma CellSplit(d: Disk, e: Disk, x: nat)
    requires Ptrs(d) > 0 && d.bs == e.bs
    ensures BlockOf(e, x) == BlockOf(d, x) && OffsetOf(e, x) == OffsetOf(d, x)
  {
  }

  lemma InChunk(d: Disk, lb: nat, at: nat, n: nat, x: nat)
    requires Ptrs(d) > 0 && at + n <= d.bs
    ensures lb * d.bs + at <= x < lb * d.bs + at + n <==> BlockOf(d, x) == lb && at <= OffsetOf(d, x) < at + n
    ensures BlockOf(d, x) == lb ==> x - (lb * d.bs + at) == OffsetOf(d, x) - at
  {
    assert x == x / d.bs * d.bs + x % d.bs;
    if lb * d.bs + at <= x < lb * d.bs + at + n {
      DivUnique(x, d.bs, lb, x - lb * d.bs);
    }
  }

  /** The disk after `data` is copied into data block `b` at offset `at`. */
  function WriteData(d: Disk, b: nat, at: nat, data: seq<Byte>): Disk
    requires b < |d.blocks| && at + |data| <= |d.blocks[b]|
  {
    SetBlockBytes(d, b, Splice(d.blocks[b], at, data))
  }

  /** Writing inside one mapped block updates the file at one stretch. */
  lemma ViewWrite(d: Disk, owner: Owner, k: nat, lb: nat, b: nat, at: nat, data: seq<Byte>)
    requires Shaped(d) && Owns(d, owner) && b == PhysOf(d, k, lb) != 0
    requires b < |d.blocks| && at + |data| <= |d.blocks[b]|
    ensures Shaped(WriteData(d, b, at, data)) && SameRefs(d, WriteData(d, b, at, data))
    ensures ViewPut(d, WriteData(d, b, at, data), k, lb * d.bs + at, data)
  {
    var e := WriteData(d, b, at, data);
    MappedOwned(d, owner, k, lb);
    FrameBlock(d, owner, b, Splice(d.blocks[b], at, data));
    hide Ref, Owns, PhysOf;
    assert Shaped(e);
    MapSame(d, e);
    forall l: nat, x: nat
      ensures ByteAt(e, l, x) ==
              if l == k && lb * d.bs + at <= x < lb * d.bs + at + |data|
              then data[x - (lb * d.bs + at)] else ByteAt(d, l, x)
    {
      hide BlockOf, OffsetOf, CellAt;
      var y, i := BlockOf(d, x), OffsetOf(d, x);
      InChunk(d, lb, at, |data|, x);
      assert PhysOf(e, l, y) == PhysOf(d, l, y);
      CellWrite(d, e, owner, k, lb, b, at, data, l, y, i);
      CellSplit(d, e, x);
    }
  }

  lemma CellWrite(d: Disk, e: Disk, owner: Owner, k: nat, lb: nat, b: nat, at: nat, data: seq<Byte>,
                  l: nat, y: nat, i: nat)
    requires Shaped(d) && Owns(d, owner) && b == PhysOf(d, k, lb) != 0
    requires b < |d.blocks| && at + |data| <= |d.blocks[b]|
    requires e == WriteData(d, b, at, data) && PhysOf(e, l, y) == PhysOf(d, l, y)
    ensures CellAt(e, l, y, i) ==
            if l == k && y == lb && at <= i < at + |data| then data[i - at] else CellAt(d, l, y, i)
  {
    hide PhysOf, Owns, Leaf;
    MappedOwned(d, owner, k, lb);
    if PhysOf(d, l, y) == b {
      MappedOwned(d, owner, l, y);
      LeafInjective(d, y, lb);
    }
  }
}
