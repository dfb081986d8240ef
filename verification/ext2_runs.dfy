/** Whole runs of the ext2 driver: files and directories are made, written and
unlinked in any order, on an image that starts with a root directory. */
module Ext2Runs {
  import opened Bytes
  import opened Ext2Map
  import opened Ext2State
  import opened Ext2Release
  import opened Ext2Dir
  import opened Ext2Tree
  import opened Ext2Mkdir
  import opened Ext2Links
  import opened Ext2
  import Bits = Ext2Bitmap

  /** An image with a root directory, inode number 2, and nothing else in it. */
  method Format(bs: nat, n: nat, m: nat, mode: nat) returns (fs: Ext2Fs)
    requires 1024 <= bs < 0x1_0000 && bs % 1024 == 0 && 0 < n && (n + 1) * bs <= MAX_IMAGE && 1 < m < 0xFFFF_FFFF
    ensures fresh(fs) && Sound(fs.St()) && fs.disk.live == {1} && DirAt(fs.disk, 1)
    ensures Entries(fs.disk, 1) == [Dot(2), DotDot(2)] && fs.disk.inodes[1].links == 2
    ensures fs.disk.bs == bs && fs.bbits.sb == n - 1 && fs.ibits.sb == m - 2
  {
    hide Valid, OthersSame, DirOk, NoHoles, Entries, Bits.IsSet, Bits.Full, Reserved, Blank, OneBlock, Linked;
    BlankImageSmall(bs, n, m);
    BlankValid(bs, n, m);
    fs := new Ext2Fs(BlankImage(bs, n, m));
    ghost var blank := fs.St();
    assert Bits.IsSet(blank.ibits, 0) && !Bits.IsSet(blank.ibits, 1);
    var ino, pb := fs.NewDir(mode);
    assert ino == 2;
    OthersGeometry(blank, fs.St(), 1);
    ghost var made := fs.St();
    fs.MakeDots(1, pb, 2);
    OthersGeometry(made, fs.St(), 1);
    SoundRoot(fs.St(), 1);
  }

  datatype Step =
    | MakeFile(dir: nat, name: seq<Byte>, mode: nat)
    | MakeDir(dir: nat, name: seq<Byte>, mode: nat)
    | WriteFile(file: nat, off: nat, data: seq<Byte>)
    | RemoveName(dir: nat, name: seq<Byte>)

  /** The node that a step works on is of the right type and in use. */
  predicate Allowed(d: Disk, step: Step) {
    match step
    case MakeFile(k, name, _) => DirAt(d, k) && |name| < 0x100
    case MakeDir(k, name, _) => DirAt(d, k) && |name| < 0x100
    case WriteFile(k, _, _) => k in d.live && !DirAt(d, k)
    case RemoveName(k, _) => DirAt(d, k)
  }

  lemma SoundDir(s: State, k: nat)
    requires Sound(s) && DirAt(s.disk, k)
    ensures Valid(s) && k in s.disk.live && DirOk(s.disk, k) && NoHoles(s.disk, k)
    ensures s.disk.bs < 0x1_0000 && |s.disk.inodes| < 0xFFFF_FFFF
  {
    assert DirSound(s.disk, k);
  }

  method DoMakeFile(fs: Ext2Fs, k: nat, name: seq<Byte>, mode: nat)
    requires Sound(fs.St()) && DirAt(fs.disk, k) && |name| < 0x100
    modifies fs
    ensures Sound(fs.St())
  {
    hide Valid, Sound, DirOk, NoHoles, Entries, EntryAdded, Untouched, Bits.Full, ByteAt;
    SoundDir(fs.St(), k);
    ghost var s := fs.St();
    var ino := fs.Create(k, name, mode);
    if ino == 0 {
      SoundFail(s, fs.St(), k);
    } else {
      SoundCreate(s, fs.St(), k, Dirent(name, ino, FT_REG_FILE), ino - 1);
    }
  }

  /** A new directory takes a link of its parent. At 65535 links that wraps, and
      then the parent has fewer links than names. */
  method DoMakeDir(fs: Ext2Fs, k: nat, name: seq<Byte>, mode: nat) returns (ok: bool)
    requires Sound(fs.St()) && DirAt(fs.disk, k) && |name| < 0x100
    modifies fs
    ensures ok <==> Sound(fs.St())
    ensures !ok ==> old(fs.disk.inodes[k].links) == 0xFFFF
  {
    hide Valid, Sound, DirOk, NoHoles, Entries, EntryAdded, Untouched, Bits.Full, ByteAt;
    SoundDir(fs.St(), k);
    SoundLinks(fs.St(), k);
    ghost var s := fs.St();
    var links := fs.disk.inodes[k].links;
    var ino := fs.Mkdir(k, name, mode);
    if ino == 0 {
      SoundFail(s, fs.St(), k);
      return true;
    }
    DirOkInode(fs.disk, ino - 1);
    SoundMkdir(s, fs.St(), k, Dirent(name, ino, FT_DIR), ino - 1);
    return links < 0xFFFF;
  }

  lemma SoundLinks(s: State, k: nat)
    requires Sound(s) && k in s.disk.live
    ensures k < |s.disk.inodes| && s.disk.inodes[k].links <= 0xFFFF
  {
    assert Enough(Lists(s.disk), s.disk.inodes, k);
  }

  method DoWriteFile(fs: Ext2Fs, k: nat, off: nat, data: seq<Byte>)
    requires Sound(fs.St()) && k in fs.disk.live && !DirAt(fs.disk, k)
    modifies fs
    ensures Sound(fs.St())
  {
    hide Sound, OthersSame, ByteAt, Short, Landing;
    SizesSmall(fs.St(), k);
    SoundValid(fs.St());
    ghost var s := fs.St();
    var written := fs.Write(k, off, data);
    SoundWrite(s, fs.St(), k);
  }

  lemma SoundValid(s: State)
    requires Sound(s)
    ensures Valid(s)
  {
  }

  method DoRemoveName(fs: Ext2Fs, k: nat, name: seq<Byte>)
    requires Sound(fs.St()) && DirAt(fs.disk, k)
    modifies fs
    ensures Sound(fs.St())
  {
    hide Valid, Sound, DirOk, NoHoles, Entries, EntryRemoved, Untouched, Lookup, Unnamed, SameFile, Without, Released,
      OwnedBy;
    SoundDir(fs.St(), k);
    DirOkInode(fs.disk, k);
    ghost var s := fs.St();
    if Lookup(Entries(fs.disk, k), name).Some? {
      SoundFound(s, k, name);
    }
    var r := fs.Unlink(k, name);
    if r.Some? {
      ghost var j := r.value.ino - 1;
      if s.disk.inodes[j].links > 1 {
        SoundLess(s, fs.St(), k, name, r.value);
      } else if j != k {
        SoundGone(s, fs.St(), k, name, r.value);
      } else {
        SoundSelf(s, fs.St(), k, name);
      }
    }
  }

  /** One step; a call on a node of the wrong type is not made. */
  method Do(fs: Ext2Fs, step: Step) returns (ok: bool)
    requires Sound(fs.St())
    modifies fs
    ensures ok <==> Sound(fs.St())
    ensures !ok ==> step.MakeDir? && old(DirAt(fs.disk, step.dir) && fs.disk.inodes[step.dir].links == 0xFFFF)
  {
    hide Sound;
    ok := true;
    if !Allowed(fs.disk, step) {
      return;
    }
    match step
    case MakeFile(k, name, mode) => DoMakeFile(fs, k, name, mode);
    case MakeDir(k, name, mode) => ok := DoMakeDir(fs, k, name, mode);
    case WriteFile(k, off, data) => DoWriteFile(fs, k, off, data);
    case RemoveName(k, name) => DoRemoveName(fs, k, name);
  }

  /** In every run every name leads to an inode in use, with a link for each of its
      names, until a directory is made in one that has all the links that 16 bits
      can count. */
  method Run(fs: Ext2Fs, steps: seq<Step>) returns (done: nat)
    requires Sound(fs.St())
    modifies fs
    ensures done <= |steps|
    ensures done == |steps| <==> Sound(fs.St())
    ensures done < |steps| ==> steps[done].MakeDir?
  {
    hide Sound;
    for i := 0 to |steps|
      invariant Sound(fs.St())
    {
      var ok := Do(fs, steps[i]);
      if !ok {
        return i;
      }
    }
    return |steps|;
  }

  // ---------------------------------------------------------------------
  // Where it ends
  // ---------------------------------------------------------------------

  /** On a mounted image no directory comes near the reach of the block map. */
  lemma SoundReach(s: State, k: nat)
    requires Sound(s) && DirAt(s.disk, k)
    ensures Ptrs(s.disk) > 0 && k < |s.disk.inodes| && DirBlocks(s.disk, k) < Reach(s.disk)
  {
    hide Sound, Core, Sized, Tails, NoHoles;
    SoundDir(s, k);
    SoundSmall(s);
    CoreBits(s);
    DirFits(s, k);
    BlocksFew(s.disk, DirBlocks(s.disk, k));
  }

  lemma SoundSmall(s: State)
    requires Sound(s)
    ensures SmallImage(s.disk)
  {
  }

  lemma BlocksFew(d: Disk, n: nat)
    requires d.bs >= 1024 && Ptrs(d) >= 256 && StartOf(d, n) <= MAX_IMAGE
    ensures n < Reach(d)
  {
    MulMono(n, 1024, d.bs);
    MulMono(256, 256, Ptrs(d));
    MulMono(Ptrs(d), 256, Ptrs(d));
  }

  lemma MulMono(n: nat, a: nat, b: nat)
    requires a <= b
    ensures n * a <= n * b
  {
    assert n * (b - a) >= 0;
  }

  /** A mkdir in a directory with 65535 links: `before` is sound, and what it leaves
      is not. */
  method LinksOut(n: nat, m: nat, name: seq<Byte>) returns (fs: Ext2Fs, ghost before: State)
    requires 5 <= n && (n + 1) * 1024 <= MAX_IMAGE && 3 <= m < 0xFFFF_FFFF && |name| < 0x100
    ensures Sound(before) && DirAt(before.disk, 1) && before.disk.inodes[1].links == 0xFFFF
    ensures !Sound(fs.St())
  {
    hide Valid, Sound, DirOk, NoHoles, Entries, EntryAdded, OthersSame, Untouched, Bits.Full, ByteAt, Linked, Reach,
      SmallImage;
    fs := Format(1024, n, m, 0);
    ghost var s := fs.St();
    SoundDir(s, 1);
    SoundSmall(s);
    LinkedDir(s, 1, 0xFFFF);
    fs.disk := SetInode(fs.disk, 1, fs.disk.inodes[1].(links := 0xFFFF));
    before := fs.St();
    SmallSame(s.disk, fs.disk);
    ValidInode(before, 1);
    SoundRoot(before, 1);
    SoundReach(before, 1);
    BitsLeft(before);
    var ino := fs.Mkdir(1, name, 0);
    DirOkInode(fs.disk, ino - 1);
    SoundMkdir(before, fs.St(), 1, Dirent(name, ino, FT_DIR), ino - 1);
  }

  lemma SmallSame(d: Disk, e: Disk)
    requires SmallImage(d) && |e.blocks| == |d.blocks| && e.bs == d.bs
    ensures SmallImage(e)
  {
  }

  lemma BitsLeft(s: State)
    requires Valid(s)
    ensures (Bits.Full(s.bbits) <==> s.bbits.sb == 0) && (Bits.Full(s.ibits) <==> s.ibits.sb == 0)
  {
    hide Bits.Counted, Bits.Full;
    CoreBits(s);
    Bits.FullCount(s.bbits);
    Bits.FullCount(s.ibits);
  }

  /** From a formatted image: a byte written at 2^32 - 1 into a new file is not read back. */
  method SizeOut(n: nat, m: nat, name: seq<Byte>, x: Byte) returns (fs: Ext2Fs, written: nat, out: seq<Byte>)
    requires 7 <= n && (n + 1) * 4096 <= MAX_IMAGE && 3 <= m < 0xFFFF_FFFF && |name| < 0x100
    ensures Valid(fs.St()) && written == 1 && out != [x]
  {
    hide Valid, Sound, DirOk, NoHoles, Entries, EntryAdded, OthersSame, Untouched, Bits.Full, Reach, Reserved, Short,
      Span;
    fs := Format(4096, n, m, 0);
    SoundDir(fs.St(), 1);
    SoundReach(fs.St(), 1);
    BitsLeft(fs.St());
    var ino := fs.Create(1, name, 0);
    ghost var sb := fs.bbits.sb;
    written, out := fs.WriteThenRead(ino - 1, LAST + 1, [x]);
    LandingIs(fs.disk, LAST + 1);
    LastReached(sb, fs.disk, fs.bbits);
    assert [x][..1] == [x];
  }

  /** From a formatted image: a file is made, written at the last position that 32 bits
      can name, and unlinked. Its block is marked and belongs to nobody. */
  method BlockOut(n: nat, m: nat, name: seq<Byte>, x: Byte) returns (fs: Ext2Fs, ghost lost: nat)
    requires 7 <= n && (n + 1) * 4096 <= MAX_IMAGE && 3 <= m < 0xFFFF_FFFF && |name| < 0x100 && x != 0
    ensures Valid(fs.St()) && fs.disk.live == {1} && Reserved(fs.St(), lost)
  {
    hide Valid, Sound, DirOk, NoHoles, Entries, EntryAdded, OthersSame, Untouched, Bits.Full, ByteAt, Reach, Reserved;
    fs := Format(4096, n, m, 0);
    SoundDir(fs.St(), 1);
    SoundReach(fs.St(), 1);
    BitsLeft(fs.St());
    var ino := fs.Create(1, name, 0);
    var written;
    written, lost := fs.LoseBlock(ino - 1, x);
  }
}
