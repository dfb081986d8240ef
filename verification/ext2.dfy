/** The ext2 driver of fs/ext2.c over the in-memory image: block mapping, read,
write, directories, create, mkdir and unlink. */
module Ext2 {
  import opened Wrappers
  import opened Bytes
  import opened Ext2Map
  import opened Ext2State
  import opened Ext2Release
  import opened Ext2Dir
  import opened Ext2Tree
  import opened Ext2Mkdir
  import Bits = Ext2Bitmap

  const FT_REG_FILE: Byte := 1
  const S_IFREG: nat := 0x8000
  const S_IFDIR: nat := 0x4000

  /** memset to zero, then the mode and one link. */
  function NewInode(mode: nat): (n: Inode)
    ensures Empty(n)
  {
    ZeroInode().(mode := mode, links := 1)
  }

  function NewDirInode(mode: nat): (n: Inode)
    ensures Empty(n)
  {
    ZeroInode().(mode := S_IFDIR + mode % 0x200, links := 2)
  }

  /** i_links_count has 16 bits. */
  function OneMore(links: nat): (n: nat)
    ensures links < 0xFFFF ==> n == links + 1
    ensures links == 0xFFFF ==> n == 0
  {
    (links + 1) % 0x1_0000
  }

  /** What `written` bytes from `at` on have used up of `sb` free blocks. */
  ghost predicate Spent(sb: nat, d: Disk, m: Bits.Bitmap, at: nat, written: nat)
    requires Ptrs(d) > 0
  {
    sb <= m.sb + 3 * (BlockOf(d, at + written) - BlockOf(d, at))
  }

  /** Why a write stopped after `written` bytes from `at` on. */
  ghost predicate Short(sb: nat, d: Disk, m: Bits.Bitmap, at: nat, written: nat)
    requires Ptrs(d) > 0
  {
    || BlockOf(d, at + written) >= Reach(d)
    || (Bits.Full(m) && sb <= 3 * (BlockOf(d, at + written) - BlockOf(d, at)) + 2)
  }

  lemma ShortHere(sb: nat, d: Disk, m: Bits.Bitmap, m': Bits.Bitmap, at: nat, written: nat)
    requires Ptrs(d) > 0 && Spent(sb, d, m, at, written)
    requires BlockOf(d, at + written) >= Reach(d) || (Bits.Full(m') && m.sb <= 2)
    ensures Short(sb, d, m', at, written)
  {
  }

  /** With 4 KiB blocks the last two positions of 32 bits are within reach. */
  lemma LastReached(sb: nat, d: Disk, m: Bits.Bitmap)
    requires d.bs == 4096 && Ptrs(d) > 0 && sb >= 3
    ensures !Short(sb, d, m, LAST, 0) && !Short(sb, d, m, LAST + 1, 0)
  {
    hide Bits.Full;
    assert BlockOf(d, LAST) == BlockOf(d, LAST + 1) == 1048575;
  }

  lemma ShortSame(sb: nat, d: Disk, e: Disk, m: Bits.Bitmap, at: nat, written: nat)
    requires Ptrs(d) > 0 && d.bs == e.bs && Short(sb, d, m, at, written)
    ensures Short(sb, e, m, at, written)
  {
    hide Bits.Full;
    CellSplit(d, e, at);
    CellSplit(d, e, at + written);
  }

  class Ext2Fs {
    const fdb: nat
    var disk: Disk
    var bbits: Bits.Bitmap
    var ibits: Bits.Bitmap
    ghost var owner: Owner

    ghost function St(): State
      reads this
    {
      State(disk, bbits, ibits, fdb, owner)
    }

    /** The driver on an image. */
    constructor (s: State)
      ensures St() == s
    {
      fdb, disk, bbits, ibits, owner := s.fdb, s.disk, s.bbits, s.ibits, s.owner;
    }

    /** Take the lowest free block and fill it with zeros; 0 if there is none. */
    method AllocBlock() returns (b: nat)
      requires Core(St())
      modifies this`disk, this`bbits
      ensures b == 0 <==> old(Bits.Full(bbits))
      ensures b == 0 ==> St() == old(St()) && bbits.sb == 0
      ensures b != 0 ==>
                && fdb <= b && b - fdb < old(Bits.Size(bbits)) && !old(Bits.IsSet(bbits, b - fdb))
                && (forall n: nat | n < b - fdb :: old(Bits.IsSet(bbits, n)))
                && old(Grabbable(St(), b)) && St() == old(Grab(St(), b))
                && Core(St()) && Reserved(St(), b) && Blank(disk, b) && bbits.sb == old(bbits.sb) - 1
    {
      hide Core, Quiet;
      CoreBits(St());
      Bits.FullCount(bbits);
      var r := Bits.FindClear(bbits);
      if r.None? {
        return 0;
      }
      GrabCore(St(), r.value, 0);
      b := fdb + r.value;
      bbits := Bits.Take(bbits, r.value);
      disk := SetBlockBytes(disk, b, Zeros(disk.bs));
    }

    /** Give inode `k` a pointer table in slot IND or DIND if it has none. */
    method EnsureSlot(k: nat, slot: nat) returns (ok: bool)
      requires Core(St()) && Sized(St(), k, 0) && k in disk.live && (slot == IND || slot == DIND)
      modifies this`disk, this`bbits, this`owner
      ensures Core(St()) && Sized(St(), k, 0) && Quiet(old(St()), St(), k, 0)
      ensures ok ==> Ref(disk, k, SlotPlace(slot)) != 0
      ensures !ok ==> Bits.Full(bbits) && old(bbits.sb) == 0
      ensures bbits.sb <= old(bbits.sb) <= bbits.sb + 1
    {
      hide Core, Sized, Quiet, Bits.Full, Blank, Charge;
      CoreInode(St(), k);
      QuietSame(St(), k);
      if disk.inodes[k].block[slot] != 0 {
        return true;
      }
      var b := AllocBlock();
      if b == 0 {
        return false;
      }
      GrabCore(old(St()), b - fdb, k);
      GrabSized(old(St()), b, k, 0);
      ghost var mid := St();
      HangSlot(mid, k, slot, b, k, 0);
      disk := SetSlot(disk, k, slot, b);
      disk := Charge(disk, k);
      owner := owner[b := (k, SlotPlace(slot))];
      QuietTransitive(old(St()), mid, St(), k, b);
      HungRef(mid, k, slot, b);
      return true;
    }

    /** Give entry `i` of the double-indirect table of inode `k` a table if it has none. */
    method EnsureEntry(k: nat, i: nat) returns (ok: bool)
      requires Core(St()) && Sized(St(), k, 0) && k in disk.live
      requires Ref(disk, k, Double) != 0 && i < Ptrs(disk)
      modifies this`disk, this`bbits, this`owner
      ensures Core(St()) && Sized(St(), k, 0) && Quiet(old(St()), St(), k, 0)
      ensures ok ==> Ref(disk, k, DoubleAt(i)) != 0
      ensures !ok ==> Bits.Full(bbits) && old(bbits.sb) == 0
      ensures bbits.sb <= old(bbits.sb) <= bbits.sb + 1
    {
      hide Core, Sized, Quiet, Bits.Full, Blank, Charge, SetTable;
      CoreInode(St(), k);
      QuietSame(St(), k);
      TableOwned(St(), k, Double);
      var l1 := disk.inodes[k].block[DIND];
      if Word(disk.blocks[l1], i) != 0 {
        return true;
      }
      assert Ref(disk, k, DoubleAt(i)) == 0;
      var b := AllocBlock();
      if b == 0 {
        return false;
      }
      GrabCore(old(St()), b - fdb, k);
      GrabSized(old(St()), b, k, 0);
      ghost var mid := St();
      GrabRef(old(St()), b, k, DoubleAt(i));
      HangEntry(mid, k, l1, i, b, k, 0);
      disk := SetTable(disk, l1, i, b);
      SetTableFrame(mid.disk, l1, i, b);
      disk := Charge(disk, k);
      owner := owner[b := (k, DoubleAt(i))];
      QuietTransitive(old(St()), mid, St(), k, b);
      HungEntryRef(mid, k, l1, i, b);
      return true;
    }

    /** Write `pb` into entry `i` of the table at place `p` of inode `k`. */
    method SetThrough(k: nat, ghost p: Place, t: nat, i: nat, ghost lb: nat, pb: nat)
      requires Core(St()) && Sized(St(), k, 0) && k in disk.live && Reserved(St(), pb)
      requires t == Ref(disk, k, p) != 0 && IsTable(p) && !p.Double? && i < Ptrs(disk)
      requires lb < Reach(disk) && Leaf(disk, lb) == Child(p, i)
      modifies this`disk, this`owner
      ensures Core(St()) && Mapped(old(St()), St(), k, lb, pb)
      ensures old(Ptrs(disk) > 0) && Sized(St(), k, if old(PhysOf(disk, k, lb)) == 0 then 1 else 0)
    {
      hide Core, Sized, Mapped, SetTable, PhysOf, Leaf, Reserved, Ref;
      CoreInode(St(), k);
      MapTable(St(), k, p, i, lb, pb);
      ghost var u := MapTo(St(), SetTable(disk, t, i, pb), k, lb, pb);
      disk, owner := SetTable(disk, t, i, pb), u.owner;
    }

    /** ext2_inode_set_block: logical block `lb` of inode `k` becomes `pb`. */
    method InodeSetBlock(k: nat, lb: nat, pb: nat) returns (ok: bool)
      requires Core(St()) && Sized(St(), k, 0) && k in disk.live && Reserved(St(), pb)
      modifies this`disk, this`bbits, this`owner
      ensures Core(St())
      ensures ok ==>
                && old(lb < Reach(disk) && Ptrs(disk) > 0)
                && Mapped(old(St()), St(), k, lb, pb)
                && Sized(St(), k, if old(PhysOf(disk, k, lb)) == 0 then 1 else 0)
      ensures !ok ==>
                && Quiet(old(St()), St(), k, 0) && Sized(St(), k, 0)
                && (old(lb >= Reach(disk)) || (Bits.Full(bbits) && old(bbits.sb) <= 1))
      ensures bbits.sb <= old(bbits.sb) <= bbits.sb + 2
    {
      hide Core, Sized, Quiet, Mapped, Bits.Full, SetTable, SetSlot, PhysOf, Leaf, Reserved;
      CoreInode(St(), k);
      QuietSame(St(), k);
      var ptrs := disk.bs / 4;
      if lb < NDIR {
        MapDirect(St(), k, lb, pb);
        ghost var t := MapTo(St(), SetSlot(disk, k, lb, pb), k, lb, pb);
        disk, owner := SetSlot(disk, k, lb, pb), t.owner;
        return true;
      }
      if lb - NDIR < ptrs {
        LeafSingle(disk, lb);
        ok := EnsureSlot(k, IND);
        if ok {
          QuietKeeps(old(St()), St(), k, lb, pb);
          CoreInode(St(), k);
          ghost var mid := St();
          SetThrough(k, Single, disk.inodes[k].block[IND], lb - NDIR, lb, pb);
          MappedAfterQuiet(old(St()), mid, St(), k, lb, pb);
        }
        return;
      }
      if lb - NDIR - ptrs < ptrs * ptrs {
        ok := SetDouble(k, lb, pb);
        return;
      }
      return false;
    }

    /** The double-indirect branch of ext2_inode_set_block. */
    method SetDouble(k: nat, lb: nat, pb: nat) returns (ok: bool)
      requires Core(St()) && Sized(St(), k, 0) && k in disk.live && Reserved(St(), pb)
      requires NDIR + Ptrs(disk) <= lb < Reach(disk)
      modifies this`disk, this`bbits, this`owner
      ensures Core(St())
      ensures ok ==>
                && old(Ptrs(disk) > 0) && Mapped(old(St()), St(), k, lb, pb)
                && Sized(St(), k, if old(PhysOf(disk, k, lb)) == 0 then 1 else 0)
      ensures !ok ==> Quiet(old(St()), St(), k, 0) && Sized(St(), k, 0) && Bits.Full(bbits) && old(bbits.sb) <= 1
      ensures bbits.sb <= old(bbits.sb) <= bbits.sb + 2
    {
      hide Core, Sized, Quiet, Mapped, Bits.Full, PhysOf, Leaf, Reserved;
      CoreInode(St(), k);
      LeafDouble(disk, lb);
      var ptrs := disk.bs / 4;
      var r := lb - NDIR - ptrs;
      var i, j := r / ptrs, r % ptrs;
      ok := EnsureSlot(k, DIND);
      if !ok {
        return;
      }
      QuietKeeps(old(St()), St(), k, lb, pb);
      CoreInode(St(), k);
      ghost var s1 := St();
      ok := EnsureEntry(k, i);
      QuietTransitive(old(St()), s1, St(), k, 0);
      if ok {
        QuietKeeps(old(St()), St(), k, lb, pb);
        ghost var s2 := St();
        CoreInode(St(), k);
        TableOwned(St(), k, DoubleAt(i));
        SetThrough(k, DoubleAt(i), EntryOfDouble(k, i), j, lb, pb);
        MappedAfterQuiet(old(St()), s2, St(), k, lb, pb);
      }
    }

    /** l1[i], where l1 is the double-indirect table. */
    function EntryOfDouble(k: nat, i: nat): (t: nat)
      requires k in disk.live && k < |disk.inodes| && |disk.inodes[k].block| == N_BLOCKS
      reads this
      ensures t == Ref(disk, k, DoubleAt(i))
    {
      Entry(disk.blocks, disk.inodes[k].block[DIND], i)
    }

    /** The block that holds logical block `lb` of inode `k`, allocated and
        mapped on demand; 0 if that is not possible. */
    method BlockForWrite(k: nat, lb: nat) returns (pb: nat)
      requires Core(St()) && Sized(St(), k, 0) && k in disk.live
      modifies this`disk, this`bbits, this`owner
      ensures Core(St()) && Sized(St(), k, 0)
      ensures Prepared(old(St()), St(), k, lb, pb)
      ensures pb == 0 ==> old(lb >= Reach(disk)) || (Bits.Full(bbits) && old(bbits.sb) <= 2)
      ensures bbits.sb <= old(bbits.sb) <= bbits.sb + 3
    {
      hide Core, Sized, Quiet, Mapped, Bits.Full, PhysOf, Prepared, Reserved, Blank;
      CoreInode(St(), k);
      PhysOfPhys(disk, k, lb);
      pb := Phys(disk, disk.inodes[k], lb);
      if pb != 0 {
        PreparedSame(St(), k, lb);
        return;
      }
      pb := AllocBlock();
      if pb == 0 {
        PreparedSame(St(), k, lb);
        return;
      }
      GrabCore(old(St()), pb - fdb, k);
      GrabSized(old(St()), pb, k, 0);
      ghost var mid := St();
      var ok := InodeSetBlock(k, lb, pb);
      if !ok {
        QuietTransitive(old(St()), mid, St(), k, 0);
        PreparedQuiet(old(St()), St(), k, lb);
        return 0;
      }
      PreparedMapped(old(St()), mid, St(), k, lb, pb);
      ChargeSized(St(), k);
      ChargePrepared(old(St()), St(), k, lb, pb);
      CoreInode(St(), k);
      disk := Charge(disk, k);
    }

    /** ext2_write: the first `written` bytes go over the flat array that the file
        is, the gap behind its old end reads as zeros, and no other file changes. The
        file is that array if and only if the end of the write fits 32 bits. A write
        is short only past the reach of the block map or on a full disk, which had
        less than three free blocks for each block that the write got to. */
    method Write(k: nat, off: nat, data: seq<Byte>) returns (written: nat)
      requires Valid(St()) && k in disk.live
      modifies this`disk, this`bbits, this`owner
      ensures Valid(St()) && written <= |data|
      ensures old(Ptrs(disk)) == Ptrs(disk) > 0 && k < old(|disk.inodes|) == |disk.inodes|
      ensures data == [] ==> Contents(disk, k) == old(Contents(disk, k))
      ensures data != [] && k !in old(disk.loose) && off + written < WORD ==>
                Contents(disk, k) == Overlay(old(Contents(disk, k)), off, data[..written])
      ensures data != [] && off + written >= WORD > old(disk.inodes[k].size) ==>
                Contents(disk, k) != Overlay(old(Contents(disk, k)), off, data[..written])
      ensures written > 0 && old(disk.inodes[k].size) < WORD ==>
                (Slice(Contents(disk, k), off, written) == data[..written] <==> off + written < WORD)
      ensures disk.loose == old(disk.loose) + if data != [] && off + written >= WORD then {k} else {}
      ensures disk.live == old(disk.live) && OthersSame(old(St()), St(), k)
      ensures forall l: nat | l < |disk.inodes| && l != k ::
                disk.inodes[l] == old(disk.inodes[l]) && Contents(disk, l) == old(Contents(disk, l))
      ensures disk.inodes[k].mode == old(disk.inodes[k].mode) && disk.inodes[k].links == old(disk.inodes[k].links)
      ensures disk.inodes[k].size ==
              if data == [] then old(disk.inodes[k].size) else SizeAfter(old(disk.inodes[k].size), off + written)
      ensures written < |data| ==> Short(old(bbits.sb), disk, bbits, Landing(disk, off), written)
    {
      hide Core, Sized, Bits.Full, BlockOf, Reach, Tails, ByteAt, ViewPut, OthersSame, Short, Span;
      CoreInode(St(), k);
      LandingIs(disk, off);
      written := WriteBytes(k, off, data);
      OthersContents(old(St()), St(), k);
      if written > 0 && old(disk.inodes[k].size) < WORD {
        WrittenShows(old(disk), disk, k, off, data[..written]);
      }
      if data == [] {
        NothingWritten(old(disk), disk, k, Landing(disk, off));
      } else if off + written < WORD {
        if k !in old(disk.loose) {
          WriteRefines(old(disk), disk, k, off, data[..written]);
        }
      } else if old(disk.inodes[k].size) < WORD {
        WriteCut(old(disk), disk, k, off, data[..written]);
      }
    }

    /** The loop of ext2_write, on single bytes. */
    method WriteBytes(k: nat, off: nat, data: seq<Byte>) returns (written: nat)
      requires Valid(St()) && k in disk.live
      modifies this`disk, this`bbits, this`owner
      ensures Valid(St()) && written <= |data|
      ensures disk.loose == old(disk.loose) + if data != [] && off + written >= WORD then {k} else {}
      ensures old(Ptrs(disk)) == Ptrs(disk) > 0 && Landing(disk, off) == old(Landing(disk, off))
      ensures ViewPut(old(disk), disk, k, Landing(disk, off), data[..written])
      ensures k < old(|disk.inodes|)
      ensures SizesAfterWrite(old(disk), disk, k,
                              if data == [] then old(disk.inodes[k].size)
                              else SizeAfter(old(disk.inodes[k].size), off + written))
      ensures OthersSame(old(St()), St(), k)
      ensures written < |data| ==> Short(old(bbits.sb), disk, bbits, Landing(disk, off), written)
    {
      hide Core, Sized, Bits.Full, Tails, ByteAt, Writing, OthersSame, ViewPut, Span, Landing, Reach, BlockOf, Short;
      CoreInode(St(), k);
      written := 0;
      if data == [] {
        NothingChanged(St(), k);
        ViewPutNothing(disk, k, Landing(disk, off));
        return;
      }
      SizedAny(St(), 0, k);
      ghost var s := St();
      ghost var at := Landing(disk, off);
      WritingStart(s, k, at);
      assert data[..0] == [];
      while written < |data|
        invariant written <= |data|
        invariant Core(St()) && Sized(St(), k, 0)
        invariant Writing(s, St(), k, at, data[..written]) && at + written < Span(s.disk)
        invariant written < |data| ==> Spent(s.bbits.sb, s.disk, bbits, at, written)
      {
        ghost var m := bbits;
        var chunk := WriteChunk(k, off, data, written, s);
        if chunk == 0 {
          ShortHere(s.bbits.sb, s.disk, m, bbits, at, written);
          break;
        }
        written := written + chunk;
      }
      SetSize(k, off, written, data, s);
      if written < |data| {
        ShortSame(s.bbits.sb, s.disk, disk, bbits, at, written);
      }
    }

    /** One round of the loop: what fits of the rest of the data into its block, or
        nothing if there is no block for it. */
    method WriteChunk(k: nat, off: nat, data: seq<Byte>, written: nat, ghost s: State) returns (chunk: nat)
      requires Core(St()) && Sized(St(), k, 0) && k in s.disk.live && written < |data| && Ptrs(s.disk) > 0
      requires Writing(s, St(), k, Landing(s.disk, off), data[..written])
      requires Landing(s.disk, off) + written < Span(s.disk)
      modifies this`disk, this`bbits, this`owner
      ensures Core(St()) && Sized(St(), k, 0) && written + chunk <= |data|
      ensures Writing(s, St(), k, Landing(s.disk, off), data[..written + chunk])
      ensures Landing(s.disk, off) + written + chunk < Span(s.disk)
      ensures bbits.sb <= old(bbits.sb) <= bbits.sb + 3
      ensures var x := Landing(s.disk, off) + written;
              && (chunk == 0 ==> BlockOf(s.disk, x) >= Reach(s.disk) || (Bits.Full(bbits) && old(bbits.sb) <= 2))
              && (0 < chunk < |data| - written ==> BlockOf(s.disk, x + chunk) == BlockOf(s.disk, x) + 1)
    {
      hide Core, Sized, Bits.Full, Prepared, PhysOf, ByteAt, Writing, WritingBut, BlockOf, OffsetOf, StartOf, Span,
        Landing, Reach;
      ghost var before := St();
      ghost var at := Landing(s.disk, off);
      WritingSame(s, St(), k, at, data[..written]);
      LandingSame(s.disk, disk, off);
      LandingBlock(disk, off, written);
      CellSplit(s.disk, disk, at + written);
      var lb, boff := BlockOf(disk, off + written) % WORD, OffsetOf(disk, off + written);
      Split(disk, at + written);
      chunk := if disk.bs - boff > |data| - written then |data| - written else disk.bs - boff;
      var pb := BlockForWrite(k, lb);
      WritingPrepared(s, before, St(), k, at, data[..written], lb, pb);
      if pb == 0 {
        return 0;
      }
      MappedReach(St(), k, lb);
      CoreBits(St());
      ReachSpan(disk, lb);
      LandingSame(s.disk, disk, off);
      StartSame(before.disk, disk, lb);
      WritingChunk(s, St(), k, at, data[..written], lb, pb, boff, data[written..written + chunk]);
      disk := WriteData(disk, pb, boff, data[written..written + chunk]);
      assert data[..written] + data[written..written + chunk] == data[..written + chunk];
      if chunk < |data| - written {
        NextBlock(s.disk, at + written, chunk);
      }
    }

    /** The end of ext2_write. */
    method SetSize(k: nat, off: nat, written: nat, ghost data: seq<Byte>, ghost s: State)
      requires Valid(s) && k in s.disk.live && Core(St()) && Sized(St(), k, 0) && written <= |data|
      requires Ptrs(s.disk) > 0 && Writing(s, St(), k, Landing(s.disk, off), data[..written])
      modifies this`disk
      ensures Valid(St()) && disk.loose == s.disk.loose + if off + written >= WORD then {k} else {}
      ensures Ptrs(s.disk) == Ptrs(disk) > 0 && Landing(disk, off) == Landing(s.disk, off) && OthersSame(s, St(), k)
      ensures ViewPut(s.disk, disk, k, Landing(disk, off), data[..written])
      ensures k < |s.disk.inodes|
      ensures SizesAfterWrite(s.disk, disk, k, SizeAfter(s.disk.inodes[k].size, off + written))
      ensures disk.bs == old(disk.bs)
    {
      hide Core, Sized, Tails, PhysOf, ByteAt, Writing, WritingBut, BlockOf, OffsetOf, ViewPut, OthersSame, SameMap,
        Span;
      ghost var at := Landing(s.disk, off);
      LandingIs(s.disk, off);
      WritingSame(s, St(), k, at, data[..written]);
      var end := (off + written) % WORD;
      WritingResized(s, St(), k, at, data[..written], Max(disk.inodes[k].size, end));
      if off + written < WORD {
        WritingEnd(s, St(), k, at, data[..written]);
      }
      if end > disk.inodes[k].size {
        disk := Resize(disk, k, end);
      } else {
        ResizeSame(disk, k);
      }
      if off + written >= WORD {
        ghost var u := St();
        WritingCut(s, u, k);
        ViewPutSame(s.disk, u.disk, Loosened(u.disk, k), k, at, data[..written]);
        disk := Loosened(disk, k);
      }
      LandingSame(s.disk, disk, off);
    }

    /** ext2_read. */
    method Read(k: nat, off: nat, size: nat) returns (out: seq<Byte>)
      requires Core(St()) && k in disk.live
      ensures Ptrs(disk) > 0 && k < |disk.inodes|
      ensures out == Slice(Contents(disk, k), off, size)
      ensures var n := disk.inodes[k].size;
              && |out| == (if off >= n then 0 else if size < n - off then size else n - off)
              && (forall i | 0 <= i < |out| :: out[i] == Contents(disk, k)[off + i])
    {
      hide Core, Sized, Tails, PhysOf, ByteAt, BlockOf, OffsetOf, StartOf;
      CoreInode(St(), k);
      var fileSize := disk.inodes[k].size;
      if off >= fileSize {
        return [];
      }
      var n := if off + size > fileSize then fileSize - off else size;
      out := [];
      while |out| < n
        invariant |out| <= n
        invariant Shows(disk, k, off, out)
      {
        var lb, boff := BlockOf(disk, off + |out|), OffsetOf(disk, off + |out|);
        Split(disk, off + |out|);
        var pb := Phys(disk, disk.inodes[k], lb);
        var chunk := if disk.bs - boff > n - |out| then n - |out| else disk.bs - boff;
        ReadChunk(St(), k, off, out, lb, pb, boff, chunk);
        if pb == 0 {
          out := out + Zeros(chunk);
        } else {
          out := out + disk.blocks[pb][boff..boff + chunk];
        }
      }
      ShowsAll(disk, k, off, out);
    }

    /** What was written is read back if and only if its end fits 32 bits. */
    method WriteThenRead(k: nat, off: nat, data: seq<Byte>) returns (written: nat, out: seq<Byte>)
      requires Valid(St()) && k in disk.live
      modifies this`disk, this`bbits, this`owner
      ensures Valid(St()) && written <= |data| && k < old(|disk.inodes|)
      ensures written > 0 && old(disk.inodes[k].size) < WORD ==> (out == data[..written] <==> off + written < WORD)
      ensures disk.bs == old(disk.bs) && old(Ptrs(disk)) == Ptrs(disk) > 0
      ensures written < |data| ==> Short(old(bbits.sb), disk, bbits, Landing(disk, off), written)
    {
      hide Valid, Core, OthersSame, Overlay, Slice, Short, Landing;
      written := Write(k, off, data);
      OthersGeometry(old(St()), St(), k);
      ValidCore(St());
      out := Read(k, off, written);
    }

    // -------------------------------------------------------------------
    // Directories
    // -------------------------------------------------------------------

    /** ext2_finddir: the inode number that `name` stands for in directory `k`. */
    method FindDir(k: nat, name: seq<Byte>) returns (r: Option<nat>)
      requires Valid(St()) && k in disk.live && DirOk(disk, k)
      ensures r == Lookup(Entries(disk, k), name)
    {
      hide Core, Sized, Tails, PhysOf, BlockOf, StartOf, Lookup, Chain, Walk, Tiled, Live, Unnamed, EntriesTo;
      CoreInode(St(), k);
      var lb := 0;
      NoEntriesYet(disk, k, name);
      while StartOf(disk, lb) < disk.inodes[k].size
        invariant lb <= DirBlocks(disk, k) && Unnamed(EntriesTo(disk, k, lb), name)
        decreases DirBlocks(disk, k) - lb
      {
        StartMono(disk, lb, DirBlocks(disk, k));
        PhysOfPhys(disk, k, lb);
        var pb := Phys(disk, disk.inodes[k], lb);
        if pb != 0 {
          MappedBlock(St(), k, lb);
          var o := FindName(disk.blocks[pb], name);
          if o.Some? {
            WalkPrefix(disk.blocks[pb], o.value);
            FoundInBlock(disk, k, lb, DirBlocks(disk, k), |Walk(disk.blocks[pb], 0, o.value)|, name);
            return Some(InoAt(disk.blocks[pb], o.value));
          }
        }
        NoEntriesIn(disk, k, lb, name);
        lb := lb + 1;
      }
      StartMono(disk, lb, DirBlocks(disk, k));
      LookupNone(Entries(disk, k), name);
      return None;
    }

    /** ext2_readdir: the live entry with index `index`, counted over all blocks. */
    method ReadDir(k: nat, index: nat) returns (r: Option<Dirent>)
      requires Valid(St()) && k in disk.live && DirOk(disk, k)
      ensures r == if index < |Entries(disk, k)| then Some(Entries(disk, k)[index]) else None
    {
      hide Core, Sized, Tails, PhysOf, BlockOf, StartOf, Chain, Walk, Tiled, Live;
      CoreInode(St(), k);
      var lb, count := 0, 0;
      while StartOf(disk, lb) < disk.inodes[k].size
        invariant lb <= DirBlocks(disk, k) && count == |EntriesTo(disk, k, lb)| <= index
        decreases DirBlocks(disk, k) - lb
      {
        StartMono(disk, lb, DirBlocks(disk, k));
        PhysOfPhys(disk, k, lb);
        var pb := Phys(disk, disk.inodes[k], lb);
        if pb != 0 {
          MappedBlock(St(), k, lb);
          var e, n := NthIn(disk.blocks[pb], index - count);
          if e.Some? {
            CountInBlock(disk, k, lb, DirBlocks(disk, k), index - count);
            return e;
          }
          count := count + n;
        }
        lb := lb + 1;
      }
      StartMono(disk, lb, DirBlocks(disk, k));
      return None;
    }

    /** ext2_free_block, for an allocated block or one that is not in the bitmap:
        exactly the bit of `b` is cleared, and both counts stay exact. */
    method FreeBlock(b: nat)
      requires b != 0 && b >= fdb ==> Bits.Counted(bbits) && Bits.IsSet(bbits, b - fdb)
      modifies this`bbits
      ensures b == 0 || b < fdb ==> bbits == old(bbits)
      ensures b != 0 && b >= fdb ==>
                && Without(old(bbits), bbits, fdb, {b})
                && old(Bits.Located(bbits, b - fdb)) && bbits == Bits.Give(old(bbits), b - fdb)
    {
      if b == 0 || b < fdb {
        return;
      }
      WithoutOne(bbits, fdb, b);
      bbits := Bits.Give(bbits, b - fdb);
    }

    /** The second half of ext2_dir_add_entry: a new last block for `e` alone. */
    method GrowDir(k: nat, e: Dirent) returns (ok: bool)
      requires Valid(St()) && k in disk.live && DirOk(disk, k) && Storable(e) && disk.bs < 0x1_0000
      modifies this`disk, this`bbits, this`owner
      ensures DirStep(old(St()), St(), k)
      ensures ok ==> EntryAdded(old(Entries(disk, k)), Entries(disk, k), e)
      ensures !ok ==> Entries(disk, k) == old(Entries(disk, k))
      ensures !ok ==> old(DirBlocks(disk, k) >= Reach(disk)) || (bbits.sb <= 1 && old(bbits.sb) <= 2)
      ensures old(bbits.sb) <= bbits.sb + 3
    {
      hide Core, Sized, Tails, PhysOf, BlockOf, StartOf, Bits.Full, Quiet, Mapped, Prepared, Entries, DirStep,
        EntryAdded, Charge, DirOk, Reserved, Blank, Bits.Counted, Bits.Give, Bits.Located;
      CoreInode(St(), k);
      CoreBits(St());
      Bits.FullCount(bbits);
      DirOkInode(disk, k);
      PastEnd(St(), k);
      SizedAny(St(), 0, k);
      var lb := BlockOf(disk, disk.inodes[k].size);
      var pb := AllocBlock();
      if pb == 0 {
        DirStepSame(St(), k);
        return false;
      }
      GrabCore(old(St()), pb - fdb, k);
      GrabSized(old(St()), pb, k, 0);
      ghost var mid := St();
      ok := InodeSetBlock(k, lb, pb);
      if !ok {
        QuietKeeps(mid, St(), k, lb, pb);
        QuietTransitive(old(St()), mid, St(), k, 0);
        GiveBackStep(old(St()), St(), k, pb);
        CoreBits(St());
        Bits.FullCount(bbits);
        FreeBlock(pb);
        return false;
      }
      PreparedMapped(old(St()), mid, St(), k, lb, pb);
      ChargeSized(St(), k);
      ChargePrepared(old(St()), St(), k, lb, pb);
      disk := Charge(disk, k);
      FillNewBlock(k, lb, pb, e, old(St()));
      return true;
    }

    /** Count the new last block in the size and put the record into it. */
    method FillNewBlock(k: nat, ghost lb: nat, pb: nat, e: Dirent, ghost s: State)
      requires Valid(s) && k in s.disk.live && DirOk(s.disk, k) && lb == DirBlocks(s.disk, k)
      requires Core(St()) && Sized(St(), k, 0) && Prepared(s, St(), k, lb, pb) && pb != 0
      requires Storable(e) && s.disk.bs < 0x1_0000 && s.ibits == ibits
      modifies this`disk
      ensures DirStep(s, St(), k) && EntryAdded(Entries(s.disk, k), Entries(disk, k), e)
    {
      hide Core, Sized, Tails, PhysOf, BlockOf, StartOf, OthersSame, Entries, OneRecord, EntryAdded, DirOk,
        SameView, SameInodes;
      CoreInode(s, k);
      assert k in disk.live && disk.bs == s.disk.bs;
      CoreInode(St(), k);
      CoreBits(s);
      OneRecordLive(disk.bs, e);
      GrownValid(s, St(), k, lb, pb, OneRecord(disk.bs, e));
      disk := Resize(disk, k, disk.inodes[k].size + disk.bs);
      disk := WriteData(disk, pb, 0, OneRecord(disk.bs, e));
      AppendAdded(Entries(s.disk, k), e);
    }

    /** ext2_dir_add_entry. */
    method DirAddEntry(k: nat, e: Dirent) returns (ok: bool)
      requires Valid(St()) && k in disk.live && DirOk(disk, k) && Storable(e) && disk.bs < 0x1_0000
      modifies this`disk, this`bbits, this`owner
      ensures DirStep(old(St()), St(), k)
      ensures ok ==> EntryAdded(old(Entries(disk, k)), Entries(disk, k), e)
      ensures !ok ==> Entries(disk, k) == old(Entries(disk, k))
      ensures !ok ==> old(DirBlocks(disk, k) >= Reach(disk)) || (bbits.sb <= 1 && old(bbits.sb) <= 2)
      ensures old(bbits.sb) <= bbits.sb + 3
      ensures disk.inodes[k].size != old(disk.inodes[k].size) ==>
                old(NoRoom(disk, k, DirBlocks(disk, k), Needed(|e.name|)))
    {
      hide Core, Sized, Tails, PhysOf, BlockOf, StartOf, Chain, Tiled, Entries, EntryAdded, AddAt, Fits, LenAt, FullFor;
      CoreInode(St(), k);
      var lb := 0;
      while StartOf(disk, lb) < disk.inodes[k].size
        invariant St() == old(St()) && lb <= DirBlocks(disk, k)
        invariant NoRoom(disk, k, lb, Needed(|e.name|))
        decreases DirBlocks(disk, k) - lb
      {
        StartMono(disk, lb, DirBlocks(disk, k));
        PhysOfPhys(disk, k, lb);
        var pb := Phys(disk, disk.inodes[k], lb);
        if pb != 0 {
          MappedBlock(St(), k, lb);
          var o := FindSlot(disk.blocks[pb], Needed(|e.name|));
          if o.Some? {
            AddInBlock(St(), k, lb, o.value, e);
            disk := WriteData(disk, pb, 0, AddAt(disk.blocks[pb], o.value, e));
            return true;
          }
        }
        lb := lb + 1;
      }
      StartMono(disk, lb, DirBlocks(disk, k));
      ok := GrowDir(k, e);
    }

    /** ext2_alloc_inode: the lowest free inode number, or 0. */
    method AllocInode() returns (ino: nat)
      requires Core(St())
      modifies this`ibits
      ensures ino == 0 <==> old(Bits.Full(ibits))
      ensures ino == 0 ==> ibits == old(ibits)
      ensures ino != 0 ==>
                && ino - 1 < old(Bits.Size(ibits)) && !old(Bits.IsSet(ibits, ino - 1))
                && (forall n: nat | n < ino - 1 :: old(Bits.IsSet(ibits, n)))
                && old(Bits.Located(ibits, ino - 1) && ibits.free[Bits.GroupOf(ibits, ino - 1)] > 0)
                && ibits == old(Bits.Take(ibits, ino - 1)) && ibits.sb == old(ibits.sb) - 1
    {
      hide Core, Bits.Counted;
      CoreBits(St());
      var r := Bits.FindClear(ibits);
      if r.None? {
        return 0;
      }
      Bits.TakeCounted(ibits, r.value);
      ibits := Bits.Take(ibits, r.value);
      return r.value + 1;
    }

    /** ext2_free_inode: exactly the bit of `ino` is cleared, and both counts stay exact. */
    method FreeInode(ino: nat)
      requires ino != 0 ==> Bits.Counted(ibits) && Bits.IsSet(ibits, ino - 1)
      modifies this`ibits
      ensures ino == 0 ==> ibits == old(ibits)
      ensures ino != 0 ==>
                && Without(old(ibits), ibits, 0, {ino - 1})
                && old(Bits.Located(ibits, ino - 1)) && ibits == Bits.Give(old(ibits), ino - 1)
    {
      if ino == 0 {
        return;
      }
      WithoutOne(ibits, 0, ino - 1);
      ibits := Bits.Give(ibits, ino - 1);
    }

    /** ext2_create_op: an empty regular file called `name` in directory `k`. */
    method Create(k: nat, name: seq<Byte>, mode: nat) returns (ino: nat)
      requires Valid(St()) && k in disk.live && DirOk(disk, k) && disk.bs < 0x1_0000
      requires |name| < 0x100 && |disk.inodes| < 0xFFFF_FFFF
      modifies this`disk, this`bbits, this`ibits, this`owner
      ensures Valid(St()) && DirOk(disk, k) && SameGeometry(old(St()), St())
      ensures SameModeAndLinks(old(disk.inodes[k]), disk.inodes[k]) && (old(NoHoles(disk, k)) ==> NoHoles(disk, k))
      ensures old(bbits.sb) <= bbits.sb + 3
      ensures ino != 0 ==>
                && ino - 1 !in old(disk.live) && disk.live == old(disk.live) + {ino - 1}
                && EntryAdded(old(Entries(disk, k)), Entries(disk, k), Dirent(name, ino, FT_REG_FILE))
                && ino - 1 < |disk.inodes| && Contents(disk, ino - 1) == []
                && disk.inodes[ino - 1] == NewInode(S_IFREG + mode % 0x200)
                && disk.inodes[ino - 1].mode == S_IFREG + mode % 0x200 && disk.inodes[ino - 1].links == 1
                && disk.inodes[ino - 1].size == 0 && disk.inodes[ino - 1].sectors == 0
                && (forall l: nat | l != k && l != ino - 1 :: Untouched(old(St()), St(), l))
      ensures ino == 0 ==>
                && disk.live == old(disk.live) && Entries(disk, k) == old(Entries(disk, k))
                && (forall l: nat | l != k && l in disk.live :: Untouched(old(St()), St(), l))
                && (old(Bits.Full(ibits)) || old(DirBlocks(disk, k) >= Reach(disk)) ||
                    (bbits.sb <= 1 && old(bbits.sb) <= 2))
    {
      hide Core, Sized, Tails, PhysOf, ByteAt, DirOk, Entries, EntryAdded, OthersSame, Bits.Counted, Bits.IsSet,
        Bits.Take, Bits.Give, Bits.Located, Untouched, Bits.Full, OwnedBy, NoHoles;
      CoreBits(St());
      DirOkInode(disk, k);
      ino := AllocInode();
      if ino == 0 {
        AllUntouched(St());
        return;
      }
      var j := ino - 1;
      var n := NewInode(S_IFREG + mode % 0x200);
      BornValid(old(St()), j, n);
      disk := disk.(inodes := disk.inodes[j := n], live := disk.live + {j});
      ghost var born := St();
      DirOthers(old(St()), born, j, k);
      var ok := DirAddEntry(k, Dirent(name, ino, FT_REG_FILE));
      OthersGeometry(born, St(), k);
      TwoSteps(old(St()), born, St(), j, k);
      NewFileEmpty(born, St(), j, k);
      if !ok {
        UncreateValid(old(St()), born, St(), j, k);
        FreeInode(ino);
        disk := disk.(live := disk.live - {j});
        return 0;
      }
    }

    /** The first block of the new directory `j`. */
    method MakeDots(j: nat, pb: nat, parent: nat)
      requires Valid(St()) && j in disk.live && j !in disk.loose && j < |disk.inodes| && Empty(disk.inodes[j])
      requires disk.bs < 0x1_0000
      requires pb != 0 && Reserved(St(), pb) && Blank(disk, pb) && 0 < parent < 0x1_0000_0000 && j + 1 < 0x1_0000_0000
      modifies this`disk, this`owner
      ensures Valid(St()) && OthersSame(old(St()), St(), j) && SameUse(old(disk), disk)
      ensures DirOk(disk, j) && Entries(disk, j) == [Dot(j + 1), DotDot(parent)] && NoHoles(disk, j)
      ensures OneBlock(disk.inodes[j], pb) && SameModeAndLinks(old(disk.inodes[j]), disk.inodes[j])
    {
      hide Core, Sized, Tails, PhysOf, BlockOf, StartOf, OthersSame, Entries, DirOk, SameView, SameInodes, Mapped,
        Prepared, Reserved, Blank, Tiled, Live, Dots, Quiet;
      ghost var t0 := St();
      CoreInode(t0, j);
      CoreBits(t0);
      NewDirEmpty(t0, j);
      SizedAny(t0, 0, j);
      MapDirect(t0, j, 0, pb);
      ghost var t := MapTo(t0, SetSlot(disk, j, 0, pb), j, 0, pb);
      disk, owner := SetSlot(disk, j, 0, pb), t.owner;
      QuietSame(t0, j);
      PreparedMapped(t0, t0, St(), j, 0, pb);
      ChargeSized(St(), j);
      ChargePrepared(t0, St(), j, 0, pb);
      disk := Charge(disk, j);
      DotsLive(disk.bs, j + 1, parent);
      GrownValid(t0, St(), j, 0, pb, Dots(disk.bs, j + 1, parent));
      disk := Resize(disk, j, disk.inodes[j].size + disk.bs);
      disk := WriteData(disk, pb, 0, Dots(disk.bs, j + 1, parent));
    }

    /** The inode of a new directory and a block for it. */
    method NewDir(mode: nat) returns (ino: nat, pb: nat)
      requires Valid(St())
      modifies this`disk, this`bbits, this`ibits
      ensures Valid(St())
      ensures ino == 0 ==> St() == old(St()) && old(Bits.Full(ibits) || Bits.Full(bbits))
      ensures ino != 0 ==>
                && ino - 1 !in old(disk.live) && disk.live == old(disk.live) + {ino - 1} && disk.bs == old(disk.bs)
                && ino - 1 !in disk.loose
                && OthersSame(old(St()), St(), ino - 1)
                && !old(Bits.IsSet(ibits, ino - 1)) && (forall n: nat | n < ino - 1 :: old(Bits.IsSet(ibits, n)))
                && ino - 1 < |disk.inodes| && disk.inodes[ino - 1] == NewDirInode(mode)
                && pb != 0 && Reserved(St(), pb) && Blank(disk, pb)
                && bbits.sb == old(bbits.sb) - 1 && ibits.sb == old(ibits.sb) - 1
    {
      hide Core, Sized, Tails, PhysOf, ByteAt, OthersSame, Bits.Counted, Bits.IsSet, Bits.Take, Bits.Give, Bits.Located,
        Bits.Full, OwnedBy, Blank, Reserved;
      CoreBits(St());
      ino := AllocInode();
      pb := 0;
      if ino == 0 {
        return;
      }
      var j := ino - 1;
      TakenCore(old(St()), j);
      Bits.TakeGive(old(ibits), j);
      pb := AllocBlock();
      if pb == 0 {
        FreeInode(ino);
        return 0, 0;
      }
      BornBeside(old(St()), pb - fdb, j, NewDirInode(mode));
      disk := disk.(inodes := disk.inodes[j := NewDirInode(mode)], live := disk.live + {j});
      assert St() == Born(Grab(old(St()), pb), j, NewDirInode(mode));
    }

    /** The new directory `j` is taken back, as if it had never been. */
    method Unmake(j: nat, ghost k: nat, pb: nat, ghost s: State)
      requires Valid(St()) && j in disk.live && j < |disk.inodes| && OneBlock(disk.inodes[j], pb) && j != k
      requires DirOk(disk, k) && disk.live == s.disk.live + {j} && j !in s.disk.live && j !in disk.loose
      requires forall l: nat | l != j && l != k :: Untouched(s, St(), l)
      modifies this`disk, this`bbits, this`ibits, this`owner
      ensures Valid(St()) && DirOk(disk, k) && Entries(disk, k) == old(Entries(disk, k)) && disk.live == s.disk.live
      ensures SameGeometry(old(St()), St()) && disk.inodes == old(disk.inodes)
      ensures old(NoHoles(disk, k)) ==> NoHoles(disk, k)
      ensures bbits.sb == old(bbits.sb) + 1
      ensures forall l: nat | l != k && l in disk.live :: Untouched(s, St(), l)
    {
      hide Valid, DirOk, Entries, Bits.Give, Bits.Located, Untouched, OwnedBy, OneBlock, NoHoles;
      NotFirst(disk.inodes[j], pb);
      OneBlockOwnedIn(St(), j, pb);
      UnmakeValid(s, St(), j, k, pb);
      FreeBlock(pb);
      FreeInode(j + 1);
      disk := disk.(live := disk.live - {j});
      owner := owner - {pb};
    }

    /** ext2_mkdir_op: an empty directory called `name` in directory `k`. */
    method Mkdir(k: nat, name: seq<Byte>, mode: nat) returns (ino: nat)
      requires Valid(St()) && k in disk.live && DirOk(disk, k) && disk.bs < 0x1_0000
      requires |name| < 0x100 && |disk.inodes| < 0xFFFF_FFFF
      modifies this`disk, this`bbits, this`ibits, this`owner
      ensures Valid(St()) && DirOk(disk, k) && SameGeometry(old(St()), St())
      ensures disk.inodes[k].mode == old(disk.inodes[k].mode) && (old(NoHoles(disk, k)) ==> NoHoles(disk, k))
      ensures ino != 0 ==>
                && ino - 1 !in old(disk.live) && disk.live == old(disk.live) + {ino - 1} && ino - 1 != k
                && EntryAdded(old(Entries(disk, k)), Entries(disk, k), Dirent(name, ino, FT_DIR))
                && DirOk(disk, ino - 1) && Entries(disk, ino - 1) == [Dot(ino), DotDot(k + 1)] && NoHoles(disk, ino - 1)
                && disk.inodes[ino - 1].links == 2 && disk.inodes[ino - 1].mode == S_IFDIR + mode % 0x200
                && disk.inodes[k].links == OneMore(old(disk.inodes[k].links))
                && (forall l: nat | l != k && l != ino - 1 :: Untouched(old(St()), St(), l))
      ensures ino == 0 ==>
                && disk.live == old(disk.live) && Entries(disk, k) == old(Entries(disk, k))
                && disk.inodes[k].links == old(disk.inodes[k].links)
                && (forall l: nat | l != k && l in disk.live :: Untouched(old(St()), St(), l))
                && (old(Bits.Full(ibits) || Bits.Full(bbits)) || old(DirBlocks(disk, k) >= Reach(disk)) ||
                    (bbits.sb <= 2 && old(bbits.sb) <= 3))
    {
      hide Valid, PhysOf, ByteAt, DirOk, Entries, EntryAdded, OthersSame, Bits.Give, Bits.Located, Untouched, OwnedBy,
        Reserved, Blank, OneBlock, Bits.Full, DirBlocks, Reach, NoHoles;
      ValidInode(St(), k);
      AllUntouched(St());
      var pb;
      ino, pb := NewDir(mode);
      if ino == 0 {
        return;
      }
      var j := ino - 1;
      ghost var made := St();
      OthersAt(old(St()), made, j, k);
      MakeDots(j, pb, k + 1);
      OthersAt(made, St(), j, k);
      OthersTransitive(old(St()), made, St(), j);
      DirOthers(old(St()), St(), j, k);
      OthersGeometry(old(St()), St(), j);
      ghost var u := St();
      var ok := DirAddEntry(k, Dirent(name, ino, FT_DIR));
      OthersGeometry(u, St(), k);
      DirOthers(u, St(), k, j);
      OthersAt(u, St(), k, j);
      if !ok {
        TwoSteps(old(St()), u, St(), j, k);
        Unmake(j, k, pb, old(St()));
        return 0;
      }
      ghost var v := St();
      LinkedDir(v, k, OneMore(disk.inodes[k].links));
      disk := SetInode(disk, k, disk.inodes[k].(links := OneMore(disk.inodes[k].links)));
      OthersTransitive(u, v, St(), k);
      TwoSteps(old(St()), u, St(), j, k);
      DirOthers(v, St(), k, j);
    }

    // -------------------------------------------------------------------
    // Deletion
    // -------------------------------------------------------------------

    /** Free the data blocks of inode `k`, logical block by logical block. */
    method FreeData(k: nat, nblocks: nat)
      requires Core(St()) && k in disk.live
      modifies this`bbits
      ensures Ptrs(disk) > 0 && Without(old(bbits), bbits, fdb, DataBlocks(disk, k, nblocks))
    {
      hide Core, PhysOf, Bits.Located, Bits.Give, Bits.Counted, Without, DataBlocks, NonZero, Bits.IsSet;
      ghost var s := St();
      CoreInode(s, k);
      CoreBits(s);
      WithoutNone(bbits, fdb);
      NoDataYet(disk, k);
      for fb := 0 to nblocks
        invariant Without(s.bbits, bbits, fdb, DataBlocks(disk, k, fb))
      {
        PhysOfPhys(disk, k, fb);
        var b := Phys(disk, disk.inodes[k], fb);
        DataBlocksNext(s, k, fb);
        NonZeroIs(b);
        if b != 0 {
          WithoutMore(s.bbits, bbits, fdb, DataBlocks(disk, k, fb), b);
          FreeBlock(b);
        }
      }
    }

    /** Free the tables of inode `k`: the single-indirect one, the inner and then
        the outer one of the double-indirect map. */
    method FreeTables(k: nat, ghost s: State, ghost n: nat)
      requires Core(s) && k in s.disk.live && disk == s.disk && fdb == s.fdb && Ptrs(disk) > 0
      requires Without(s.bbits, bbits, fdb, DataBlocks(disk, k, n))
      modifies this`bbits
      ensures Without(s.bbits, bbits, fdb, Visited(disk, k, n))
    {
      hide Core, PhysOf, Bits.Located, Bits.Give, Bits.Counted, Without, DataBlocks, InnerTables, NonZero, Bits.IsSet,
        Ref;
      CoreInode(s, k);
      ghost var freed := DataBlocks(disk, k, n);
      var ind := disk.inodes[k].block[IND];
      SlotRefs(disk, k);
      NonZeroIs(ind);
      if ind != 0 {
        DataNotTable(s, k, n, Single);
        TableUsed(s, k, Single);
        WithoutMore(s.bbits, bbits, fdb, freed, ind);
        FreeBlock(ind);
      } else {
        assert freed + {} == freed;
      }
      freed := freed + NonZero(ind);
      var dind := disk.inodes[k].block[DIND];
      NonZeroIs(dind);
      if dind != 0 {
        TableUsed(s, k, Double);
        FreeInner(k, dind, s, n, freed);
        freed := freed + InnerTables(disk, k, Ptrs(disk));
        OuterLast(s, k, n, ind);
        WithoutMore(s.bbits, bbits, fdb, freed, dind);
        FreeBlock(dind);
        freed := freed + {dind};
      } else {
        NoInner(disk, k);
      }
      assert freed == Visited(disk, k, n);
    }

    /** Free every table that the double-indirect table `l1` names. */
    method FreeInner(k: nat, l1: nat, ghost s: State, ghost n: nat, ghost freed: set<nat>)
      requires Core(s) && k in s.disk.live && disk == s.disk && fdb == s.fdb && Ptrs(disk) > 0
      requires l1 == Ref(disk, k, Double) != 0 && freed == DataBlocks(disk, k, n) + NonZero(Ref(disk, k, Single))
      requires Without(s.bbits, bbits, fdb, freed)
      modifies this`bbits
      ensures Without(s.bbits, bbits, fdb, freed + InnerTables(disk, k, Ptrs(disk)))
    {
      hide Core, PhysOf, Bits.Located, Bits.Give, Bits.Counted, Without, DataBlocks, InnerTables, NonZero, Bits.IsSet,
        Ref;
      CoreInode(s, k);
      TableUsed(s, k, Double);
      NoInnerYet(disk, k);
      assert freed + {} == freed;
      var ptrs := disk.bs / 4;
      for p := 0 to ptrs
        invariant Without(s.bbits, bbits, fdb, freed + InnerTables(disk, k, p))
      {
        var b := Word(disk.blocks[l1], p);
        InnerRef(s, k, p);
        InnerTablesNext(s, k, p);
        NonZeroIs(b);
        ghost var so := freed + InnerTables(disk, k, p);
        assert freed + InnerTables(disk, k, p + 1) == so + NonZero(b);
        if b != 0 {
          InnerFresh(s, k, n, p);
          WithoutMore(s.bbits, bbits, fdb, so, b);
          FreeBlock(b);
        } else {
          assert so + {} == so;
        }
      }
    }

    /** Drop one link of inode `j`; with the last one go the inode and the blocks
        that the loops reach. */
    method DropLink(j: nat)
      requires Valid(St()) && j in disk.live
      modifies this`disk, this`bbits, this`ibits, this`owner
      ensures Valid(St()) && OthersSame(old(St()), St(), j) && j < old(|disk.inodes|) == |disk.inodes|
      ensures old(Ptrs(disk)) > 0 && Unlinked(old(St()), St(), j)
      ensures old(disk.inodes[j].links) == 0 ==> St() == old(St())
      ensures old(disk.inodes[j].links) > 1 ==> SameFile(old(disk), disk, j) && owner == old(owner)
      ensures old(disk.inodes[j].links) == 1 ==> owner == old(owner - OwnedBy(owner, j))
      ensures old(disk.inodes[j].links) == 1 ==>
                && disk.inodes[j].mode == disk.inodes[j].links == disk.inodes[j].size == disk.inodes[j].sectors == 0
                && forall i | 0 <= i < |disk.inodes[j].block| :: disk.inodes[j].block[i] == 0
    {
      hide Core, Sized, Tails, PhysOf, ByteAt, OthersSame, SameFile, Without, OwnedBy, Visited, DataBlocks,
        Bits.Located, Bits.Give, Bits.Counted;
      CoreInode(St(), j);
      var links := disk.inodes[j].links;
      if links == 0 {
        NothingChanged(St(), j);
        return;
      }
      LinksValid(St(), j, links - 1);
      disk := SetInode(disk, j, disk.inodes[j].(links := links - 1));
      if links > 1 {
        return;
      }
      ghost var s := St();
      LinksReleased(old(disk), j, links - 1);
      ReleasedOwned(s, j);
      var nblocks := (disk.inodes[j].size + disk.bs - 1) % WORD / disk.bs;
      FreeData(j, nblocks);
      FreeTables(j, s, nblocks);
      ReleasedClears(old(St()), bbits, j);
      ReleasedExact(old(St()), j);
      EraseValid(s, j, bbits, ZeroInode(), Released(disk, j));
      disk := disk.(inodes := disk.inodes[j := ZeroInode()], live := disk.live - {j}, loose := disk.loose - {j});
      owner := owner - OwnedBy(owner, j);
      FreeInode(j + 1);
      OthersTransitive(old(St()), s, St(), j);
    }

    /** With 4 KiB blocks and three free ones: one byte at the last place that 32 bits
        can name, then the last link goes. The block with that byte stays marked and
        belongs to nobody. */
    method LoseBlock(k: nat, x: Byte) returns (written: nat, ghost lost: nat)
      requires Valid(St()) && k in disk.live && k < |disk.inodes| && disk.inodes[k].links == 1
      requires disk.bs == 4096 && bbits.sb >= 3 && disk.inodes[k].size < WORD && x != 0
      modifies this`disk, this`bbits, this`ibits, this`owner
      ensures written == 1 && Valid(St()) && disk.live == old(disk.live) - {k} && Reserved(St(), lost)
    {
      hide Valid, ByteAt, OthersSame, Released, OwnedBy, Bits.IsSet, Bits.Counted, Bits.Full, Reach, Without, BlockOf,
        PhysOf, Contents, Overlay, Slice, Ptrs, Short, Span;
      ValidInode(St(), k);
      LandingIs(disk, LAST);
      written := Write(k, LAST, [x]);
      ghost var s := St();
      OthersGeometry(old(St()), s, k);
      LandingIs(disk, LAST);
      LastReached(old(bbits.sb), disk, bbits);
      assert [x][..1] == [x];
      LastByte(disk, k, x);
      ByteMapped(disk, k, LAST);
      ghost var lb := BlockOf(disk, LAST);
      lost := PhysOf(disk, k, lb);
      LastBlockLost(s, k, lb);
      DropLink(k);
      KeptReserved(s, St(), k, lost);
    }

    /** ext2_unlink_op: remove `name` from directory `k`. */
    method Unlink(k: nat, name: seq<Byte>) returns (r: Option<Dirent>)
      requires Valid(St()) && k in disk.live && DirOk(disk, k) && FoundLive(disk, k, name)
      modifies this`disk, this`bbits, this`ibits, this`owner
      ensures Valid(St())
      ensures r.None? <==> Unnamed(old(Entries(disk, k)), name)
      ensures r.None? ==> St() == old(St())
      ensures r.Some? ==>
                var j := r.value.ino - 1;
                && r.value.ino != 0 && Lookup(old(Entries(disk, k)), name) == Some(r.value.ino)
                && (forall l: nat | l != k && l != j :: Untouched(old(St()), St(), l))
                && Unlinked(old(St()), St(), j) && SameGeometry(old(St()), St())
                && (j != k ==> k in disk.live && disk.inodes[k] == old(disk.inodes[k]))
                && (j != k && old(disk.inodes[j].links) > 1 ==> SameFile(old(disk), disk, j))
                && (j != k || old(disk.inodes[k].links) != 1 ==>
                      && DirOk(disk, k) && (old(NoHoles(disk, k)) ==> NoHoles(disk, k))
                      && EntryRemoved(old(Entries(disk, k)), Entries(disk, k), name, r.value))
    {
      hide Core, Sized, Tails, PhysOf, BlockOf, StartOf, Lookup, Chain, Walk, Tiled, Live, Unnamed, EntriesTo,
        OthersSame, Untouched, EntryRemoved, ClearIno, LenAt, DirentAt, Unlinked;
      CoreInode(St(), k);
      var lb := 0;
      NoEntriesYet(disk, k, name);
      while StartOf(disk, lb) < disk.inodes[k].size
        invariant St() == old(St()) && lb <= DirBlocks(disk, k) && Unnamed(EntriesTo(disk, k, lb), name)
        decreases DirBlocks(disk, k) - lb
      {
        StartMono(disk, lb, DirBlocks(disk, k));
        PhysOfPhys(disk, k, lb);
        var pb := Phys(disk, disk.inodes[k], lb);
        if pb != 0 {
          MappedBlock(St(), k, lb);
          var o := FindName(disk.blocks[pb], name);
          if o.Some? {
            var e := UnlinkAt(k, lb, pb, o.value, name);
            return Some(e);
          }
        }
        NoEntriesIn(disk, k, lb, name);
        lb := lb + 1;
      }
      StartMono(disk, lb, DirBlocks(disk, k));
      return None;
    }

    /** Delete the record at `o` of block `lb` and drop the link it stood for. */
    method UnlinkAt(k: nat, ghost lb: nat, pb: nat, o: nat, ghost name: seq<Byte>) returns (e: Dirent)
      requires Valid(St()) && k in disk.live && DirOk(disk, k) && FoundLive(disk, k, name)
      requires pb == PhysOf(disk, k, lb) != 0 && pb < |disk.blocks|
      requires var b := disk.blocks[pb];
               Chain(b, 0, o) && Record(b, o) && Chain(b, o + LenAt(b, o), |b|)
               && Names(b, o, name) && Unnamed(Walk(b, 0, o), name)
      requires Unnamed(EntriesTo(disk, k, lb), name)
      modifies this`disk, this`bbits, this`ibits, this`owner
      ensures Valid(St()) && !Unnamed(old(Entries(disk, k)), name)
      ensures e.ino != 0 && Lookup(old(Entries(disk, k)), name) == Some(e.ino)
      ensures forall l: nat | l != k && l != e.ino - 1 :: Untouched(old(St()), St(), l)
      ensures Unlinked(old(St()), St(), e.ino - 1) && SameGeometry(old(St()), St())
      ensures e.ino - 1 != k ==> k in disk.live && disk.inodes[k] == old(disk.inodes[k])
      ensures e.ino - 1 != k && old(disk.inodes[e.ino - 1].links) > 1 ==> SameFile(old(disk), disk, e.ino - 1)
      ensures e.ino - 1 != k || old(disk.inodes[k].links) != 1 ==>
                && DirOk(disk, k) && (old(NoHoles(disk, k)) ==> NoHoles(disk, k))
                && EntryRemoved(old(Entries(disk, k)), Entries(disk, k), name, e)
    {
      hide Core, Sized, Tails, PhysOf, BlockOf, StartOf, Lookup, Chain, Walk, Tiled, Live, EntriesTo, ByteAt,
        OthersSame, Untouched, ClearIno, LenAt, EntriesTo, DirOk, Bits.Counted, SameFile, Without, OwnedBy;
      DirOkInode(disk, k);
      e := DirentAt(disk.blocks[pb], o);
      RemoveInBlock(St(), k, lb, o, name);
      RemovedNamed(Entries(disk, k), Entries(Rewrite(St(), k, lb, ClearIno(disk.blocks[pb], o)).disk, k), name, e);
      disk := WriteData(disk, pb, 0, ClearIno(disk.blocks[pb], o));
      ghost var mid := St();
      DropLink(e.ino - 1);
      UnlinkedSame(old(St()), mid, St(), e.ino - 1);
      TwoSteps(old(St()), mid, St(), k, e.ino - 1);
      OthersGeometry(old(St()), mid, k);
      OthersGeometry(mid, St(), e.ino - 1);
      if e.ino - 1 != k {
        OthersUntouched(old(St()), mid, k, e.ino - 1);
        OthersAt(mid, St(), e.ino - 1, k);
        SameFileMore(old(St()), mid, St(), e.ino - 1);
        DirOthers(mid, St(), e.ino - 1, k);
      } else if old(disk.inodes[k].links) > 1 {
        DirOkInode(mid.disk, k);
        DirSame(mid, St(), k);
      }
    }
  }
}
