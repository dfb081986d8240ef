/** Directories as lists of entries and as maps from names to inode numbers: the
blocks of a directory file, one after the other, each tiled by its records. */
module Ext2Tree {
  import opened Wrappers
  import opened Arith
  import opened Bytes
  import opened Ext2Map
  import opened Ext2State
  import opened Ext2Dir
  import opened Ext2Release
  import Bits = Ext2Bitmap

  function DirBlocks(d: Disk, k: nat): nat
    requires Ptrs(d) > 0 && k < |d.inodes|
  {
    BlockOf(d, d.inodes[k].size)
  }

  /** The live entries in logical block `lb`; a hole has none. */
  function BlockEntries(d: Disk, k: nat, lb: nat): seq<Dirent>
    requires Ptrs(d) > 0
  {
    var b := PhysOf(d, k, lb);
    if 0 < b < |d.blocks| && Tiled(d.blocks[b]) then Live(d.blocks[b]) else []
  }

  /** The live entries of the first `n` blocks. */
  function EntriesTo(d: Disk, k: nat, n: nat): seq<Dirent>
    requires Ptrs(d) > 0
  {
    if n == 0 then [] else EntriesTo(d, k, n - 1) + BlockEntries(d, k, n - 1)
  }

  function EntriesFrom(d: Disk, k: nat, m: nat, n: nat): seq<Dirent>
    requires Ptrs(d) > 0 && m <= n
    decreases n - m
  {
    if m == n then [] else EntriesFrom(d, k, m, n - 1) + BlockEntries(d, k, n - 1)
  }

  /** All live entries of a directory, in the order of the scans. */
  function Entries(d: Disk, k: nat): seq<Dirent>
    requires Ptrs(d) > 0 && k < |d.inodes|
  {
    EntriesTo(d, k, DirBlocks(d, k))
  }

  /** Whole blocks, every mapped one tiled by its records. */
  ghost predicate DirOk(d: Disk, k: nat) {
    && Ptrs(d) > 0 && k < |d.inodes| && k !in d.loose
    && d.inodes[k].size == StartOf(d, DirBlocks(d, k))
    && forall lb: nat | PhysOf(d, k, lb) != 0 :: TiledAt(d, k, lb)
  }

  predicate TiledAt(d: Disk, k: nat, lb: nat)
    requires Ptrs(d) > 0
  {
    PhysOf(d, k, lb) < |d.blocks| && Tiled(d.blocks[PhysOf(d, k, lb)])
  }

  /** Every block of the directory is mapped. */
  ghost predicate NoHoles(d: Disk, k: nat)
    requires Ptrs(d) > 0 && k < |d.inodes|
  {
    forall lb: nat | lb < DirBlocks(d, k) :: PhysOf(d, k, lb) != 0
  }

  // ---------------------------------------------------------------------
  // One block changes
  // ---------------------------------------------------------------------

  lemma {:induction false} EntriesToSame(d: Disk, e: Disk, k: nat, n: nat)
    requires Ptrs(d) > 0 && Ptrs(e) > 0
    requires forall x: nat | x < n :: BlockEntries(e, k, x) == BlockEntries(d, k, x)
    ensures EntriesTo(e, k, n) == EntriesTo(d, k, n)
  {
    hide BlockEntries;
    if n > 0 {
      EntriesToSame(d, e, k, n - 1);
    }
  }

  lemma {:induction false} EntriesFromSame(d: Disk, e: Disk, k: nat, m: nat, n: nat)
    requires Ptrs(d) > 0 && Ptrs(e) > 0 && m <= n
    requires forall x: nat | m <= x < n :: BlockEntries(e, k, x) == BlockEntries(d, k, x)
    ensures EntriesFrom(e, k, m, n) == EntriesFrom(d, k, m, n)
    decreases n - m
  {
    hide BlockEntries;
    if m < n {
      EntriesFromSame(d, e, k, m, n - 1);
    }
  }

  lemma {:induction false} EntriesSplit(d: Disk, k: nat, lb: nat, n: nat)
    requires Ptrs(d) > 0 && lb < n
    ensures EntriesTo(d, k, n) == Cat(EntriesTo(d, k, lb), BlockEntries(d, k, lb), EntriesFrom(d, k, lb + 1, n))
    decreases n - lb
  {
    hide BlockEntries;
    var p, m := EntriesTo(d, k, lb), BlockEntries(d, k, lb);
    if n == lb + 1 {
      assert m + [] == m;
    } else {
      EntriesSplit(d, k, lb, n - 1);
      CatAppend(p, m, EntriesFrom(d, k, lb + 1, n - 1), BlockEntries(d, k, n - 1));
    }
  }

  lemma CatAppend(p: seq<Dirent>, m: seq<Dirent>, q: seq<Dirent>, r: seq<Dirent>)
    ensures Cat(p, m, q) + r == Cat(p, m, q + r)
  {
    assert p + (m + q) + r == p + (m + q + r);
    assert m + q + r == m + (q + r);
  }

  /** Only block `lb` lists other entries. */
  ghost predicate OnlyBlock(d: Disk, e: Disk, k: nat, lb: nat)
    requires Ptrs(d) > 0 && Ptrs(e) > 0
  {
    forall x: nat | x != lb :: BlockEntries(e, k, x) == BlockEntries(d, k, x)
  }

  lemma EntriesReplaced(d: Disk, e: Disk, k: nat, lb: nat, n: nat)
    requires Ptrs(d) > 0 && Ptrs(e) > 0 && lb < n && OnlyBlock(d, e, k, lb)
    ensures var p, q := EntriesTo(d, k, lb), EntriesFrom(d, k, lb + 1, n);
            && EntriesTo(d, k, n) == Cat(p, BlockEntries(d, k, lb), q)
            && EntriesTo(e, k, n) == Cat(p, BlockEntries(e, k, lb), q)
  {
    hide BlockEntries, EntriesTo, EntriesFrom, Cat;
    EntriesSplit(d, k, lb, n);
    EntriesSplit(e, k, lb, n);
    EntriesToSame(d, e, k, lb);
    EntriesFromSame(d, e, k, lb + 1, n);
  }

  lemma InsertedIn(p: seq<Dirent>, m: seq<Dirent>, q: seq<Dirent>, i: nat, e: Dirent)
    requires i <= |m|
    ensures |p| + i <= |Cat(p, m, q)| && Cat(p, Inserted(m, i, e), q) == Inserted(Cat(p, m, q), |p| + i, e)
  {
    var l := Cat(p, m, q);
    assert l[..|p| + i] == p + m[..i];
    assert l[|p| + i..] == m[i..] + q;
    assert p + m[..i] + ([e] + (m[i..] + q)) == p + (m[..i] + ([e] + m[i..]) + q);
  }

  lemma RemovedIn(p: seq<Dirent>, m: seq<Dirent>, q: seq<Dirent>, i: nat)
    requires i < |m|
    ensures |p| + i < |Cat(p, m, q)| && Cat(p, m, q)[|p| + i] == m[i]
    ensures Cat(p, Removed(m, i), q) == Removed(Cat(p, m, q), |p| + i)
  {
    var l := Cat(p, m, q);
    assert l[..|p| + i] == p + m[..i];
    assert l[|p| + i + 1..] == m[i + 1..] + q;
    assert p + m[..i] + (m[i + 1..] + q) == p + (m[..i] + m[i + 1..] + q);
  }

  /** `r` is `l` with `e` put in somewhere. */
  ghost predicate EntryAdded(l: seq<Dirent>, r: seq<Dirent>, e: Dirent) {
    exists i: nat | i <= |l| :: r == Inserted(l, i, e)
  }

  /** `r` is `l` without its first entry called `name`, which was `e`. */
  ghost predicate EntryRemoved(l: seq<Dirent>, r: seq<Dirent>, name: seq<Byte>, e: Dirent) {
    exists i: nat | i < |l| :: l[i] == e && e.name == name && Unnamed(l[..i], name) && r == Removed(l, i)
  }

  // ---------------------------------------------------------------------
  // Directories as maps
  // ---------------------------------------------------------------------

  ghost predicate NoDuplicates(l: seq<Dirent>) {
    forall i, j | 0 <= i < j < |l| :: l[i].name != l[j].name
  }

  /** Inode number by name; the first entry wins, as in ext2_finddir. */
  function Lookup(l: seq<Dirent>, name: seq<Byte>): Option<nat> {
    if l == [] then None else if l[0].name == name then Some(l[0].ino) else Lookup(l[1..], name)
  }

  lemma {:induction false} LookupNone(l: seq<Dirent>, name: seq<Byte>)
    ensures Lookup(l, name).None? <==> Unnamed(l, name)
  {
    if l != [] {
      LookupNone(l[1..], name);
      assert l == [l[0]] + l[1..];
      UnnamedJoin([l[0]], l[1..], name);
      assert [l[0]][0].name == l[0].name;
    }
  }

  lemma {:induction false} LookupAt(l: seq<Dirent>, i: nat)
    requires i < |l| && Unnamed(l[..i], l[i].name)
    ensures Lookup(l, l[i].name) == Some(l[i].ino)
  {
    if i > 0 {
      assert l[..i][0] == l[0];
      assert l[1..][..i - 1] == l[..i][1..];
      LookupAt(l[1..], i - 1);
    }
  }

  /** On a directory without duplicate names, the entry at any position is the
      one its name finds. */
  lemma LookupUnique(l: seq<Dirent>, i: nat)
    requires NoDuplicates(l) && i < |l|
    ensures Lookup(l, l[i].name) == Some(l[i].ino)
  {
    assert forall j | 0 <= j < i :: l[..i][j] == l[j];
    LookupAt(l, i);
  }

  /** `r` is `l` with `e` at position `i`, element by element. */
  ghost predicate Spread(l: seq<Dirent>, r: seq<Dirent>, i: nat, e: Dirent) {
    && i <= |l| && |r| == |l| + 1 && r[i] == e
    && (forall x | 0 <= x < i :: r[x] == l[x])
    && (forall x | i < x < |r| :: r[x] == l[x - 1])
  }

  lemma InsertedSpread(l: seq<Dirent>, i: nat, e: Dirent)
    requires i <= |l|
    ensures Spread(l, Inserted(l, i, e), i, e)
  {
  }

  lemma RemovedSpread(l: seq<Dirent>, i: nat)
    requires i < |l|
    ensures Spread(Removed(l, i), l, i, l[i])
  {
    var r := Removed(l, i);
    assert forall x | 0 <= x < |r| :: r[x] == if x < i then l[x] else l[x + 1];
  }

  lemma SpreadBack(l: seq<Dirent>, r: seq<Dirent>, i: nat, e: Dirent, x: nat)
    requires Spread(l, r, i, e) && x < |l|
    ensures l[x] == r[if x < i then x else x + 1]
  {
    if x >= i {
      assert r[x + 1] == l[x + 1 - 1];
    }
  }

  lemma SpreadNoDuplicates(l: seq<Dirent>, r: seq<Dirent>, i: nat, e: Dirent)
    requires Spread(l, r, i, e)
    ensures NoDuplicates(r) <==> NoDuplicates(l) && Unnamed(l, e.name)
  {
    if NoDuplicates(r) {
      forall x, y | 0 <= x < y < |l|
        ensures l[x].name != l[y].name
      {
        SpreadBack(l, r, i, e, x);
        SpreadBack(l, r, i, e, y);
      }
      forall x | 0 <= x < |l|
        ensures l[x].name != e.name
      {
        SpreadBack(l, r, i, e, x);
        assert r[i] == e;
      }
    }
  }

  lemma LookupSpread(l: seq<Dirent>, r: seq<Dirent>, i: nat, e: Dirent, name: seq<Byte>)
    requires NoDuplicates(l) && NoDuplicates(r) && Spread(l, r, i, e)
    ensures Lookup(r, name) == if name == e.name then Some(e.ino) else Lookup(l, name)
  {
    hide Lookup, NoDuplicates;
    if name == e.name {
      LookupUnique(r, i);
    } else if Unnamed(l, name) {
      LookupNone(l, name);
      assert Unnamed(r, name);
      LookupNone(r, name);
    } else {
      var j: nat :| j < |l| && l[j].name == name;
      LookupUnique(l, j);
      SpreadBack(l, r, i, e, j);
      LookupUnique(r, if j < i then j else j + 1);
    }
  }

  /** Adding a new name is insertion into the map. */
  lemma AddedLookup(l: seq<Dirent>, r: seq<Dirent>, e: Dirent, name: seq<Byte>)
    requires NoDuplicates(l) && EntryAdded(l, r, e) && Unnamed(l, e.name)
    ensures NoDuplicates(r)
    ensures Lookup(r, name) == if name == e.name then Some(e.ino) else Lookup(l, name)
  {
    hide NoDuplicates, Lookup, Unnamed, Spread, Inserted;
    var i: nat :| i <= |l| && r == Inserted(l, i, e);
    InsertedSpread(l, i, e);
    SpreadNoDuplicates(l, r, i, e);
    LookupSpread(l, r, i, e, name);
  }

  /** Deleting an entry is removal from the map. */
  lemma RemovedLookup(l: seq<Dirent>, r: seq<Dirent>, name: seq<Byte>, e: Dirent, other: seq<Byte>)
    requires NoDuplicates(l) && EntryRemoved(l, r, name, e)
    ensures NoDuplicates(r)
    ensures Lookup(l, name) == Some(e.ino)
    ensures Lookup(r, other) == if other == name then None else Lookup(l, other)
  {
    hide NoDuplicates, Lookup, Unnamed, Spread, Removed;
    var i: nat :| i < |l| && l[i] == e && e.name == name && Unnamed(l[..i], name) && r == Removed(l, i);
    LookupUnique(l, i);
    RemovedSpread(l, i);
    SpreadNoDuplicates(r, l, i, e);
    LookupNone(r, name);
    LookupSpread(r, l, i, e, other);
  }

  // ---------------------------------------------------------------------
  // Rewriting a directory block
  // ---------------------------------------------------------------------

  lemma StartMono(d: Disk, x: nat, y: nat)
    requires d.bs > 0
    ensures x < y <==> StartOf(d, x) < StartOf(d, y)
    ensures x < y ==> StartOf(d, x) + d.bs <= StartOf(d, y)
  {
    MulSign(y - x, d.bs);
    assert (y - x) * d.bs == y * d.bs - x * d.bs;
  }

  lemma SpliceAll(b: Block, c: Block)
    requires |b| == |c|
    ensures Splice(b, 0, c) == c
  {
  }

  /** Block `lb` of directory `k` holds `c`. */
  function Rewrite(s: State, k: nat, lb: nat, c: Block): State
    requires Ptrs(s.disk) > 0 && PhysOf(s.disk, k, lb) < |s.disk.blocks|
    requires |c| <= |s.disk.blocks[PhysOf(s.disk, k, lb)]|
  {
    s.(disk := WriteData(s.disk, PhysOf(s.disk, k, lb), 0, c))
  }

  lemma MappedBlock(s: State, k: nat, lb: nat)
    requires Core(s) && Ptrs(s.disk) > 0 && PhysOf(s.disk, k, lb) != 0
    ensures PhysOf(s.disk, k, lb) < |s.disk.blocks| && |s.disk.blocks[PhysOf(s.disk, k, lb)]| == s.disk.bs
    ensures forall x: nat | x != lb :: PhysOf(s.disk, k, x) != PhysOf(s.disk, k, lb)
  {
    hide PhysOf, Owns, Bits.IsSet, Bits.Counted;
    MappedOwned(s.disk, s.owner, k, lb);
    forall x: nat | x != lb
      ensures PhysOf(s.disk, k, x) != PhysOf(s.disk, k, lb)
    {
      if PhysOf(s.disk, k, x) == PhysOf(s.disk, k, lb) {
        MappedOwned(s.disk, s.owner, k, x);
        LeafInjective(s.disk, x, lb);
      }
    }
  }

  lemma RewriteCore(s: State, k: nat, lb: nat, c: Block)
    requires Core(s) && Sized(s, k, 0) && Ptrs(s.disk) > 0 && PhysOf(s.disk, k, lb) != 0 && |c| == s.disk.bs
    ensures PhysOf(s.disk, k, lb) < |s.disk.blocks| && |s.disk.blocks[PhysOf(s.disk, k, lb)]| == s.disk.bs
    ensures var t := Rewrite(s, k, lb, c);
            && Core(t) && Sized(t, k, 0) && Ptrs(t.disk) == Ptrs(s.disk) && SameMap(s.disk, t.disk)
            && SameRefs(s.disk, t.disk)
            && ViewPut(s.disk, t.disk, k, StartOf(s.disk, lb), c)
            && t.disk.blocks[PhysOf(s.disk, k, lb)] == c
            && (forall l: nat | l != k :: SameFile(s.disk, t.disk, l))
  {
    hide Sized, PhysOf, ByteAt, Leaf, Owns, Ref, Bits.IsSet, Bits.Counted;
    MappedBlock(s, k, lb);
    var b := PhysOf(s.disk, k, lb);
    ViewWrite(s.disk, s.owner, k, lb, b, 0, c);
    WriteCore(s, k, b, 0, c);
    SpliceAll(s.disk.blocks[b], c);
    var t := Rewrite(s, k, lb, c);
    MapSame(s.disk, t.disk);
    forall l: nat | l != k
      ensures SameFile(s.disk, t.disk, l)
    {
      assert forall x: nat :: PhysOf(t.disk, l, x) == PhysOf(s.disk, l, x);
      assert forall x: nat :: ByteAt(t.disk, l, x) == ByteAt(s.disk, l, x);
    }
  }

  lemma RewriteBlocks(s: State, k: nat, lb: nat, c: Block)
    requires Core(s) && Ptrs(s.disk) > 0 && PhysOf(s.disk, k, lb) != 0 && |c| == s.disk.bs
    requires PhysOf(s.disk, k, lb) < |s.disk.blocks| && |s.disk.blocks[PhysOf(s.disk, k, lb)]| == s.disk.bs
    requires var t := Rewrite(s, k, lb, c);
             Ptrs(t.disk) > 0 && SameMap(s.disk, t.disk) && t.disk.blocks[PhysOf(s.disk, k, lb)] == c
    requires Tiled(c)
    ensures var e := Rewrite(s, k, lb, c).disk;
            && OnlyBlock(s.disk, e, k, lb) && BlockEntries(e, k, lb) == Live(c) && TiledAt(e, k, lb)
            && (forall x: nat | x != lb && PhysOf(s.disk, k, x) != 0 && TiledAt(s.disk, k, x) :: TiledAt(e, k, x))
  {
    hide PhysOf, Tiled, Live, Owns, Bits.IsSet, Bits.Counted, Splice;
    MappedBlock(s, k, lb);
    var b := PhysOf(s.disk, k, lb);
    var e := Rewrite(s, k, lb, c).disk;
    assert PhysOf(e, k, lb) == b;
    forall x: nat | x != lb
      ensures BlockEntries(e, k, x) == BlockEntries(s.disk, k, x)
    {
      assert PhysOf(e, k, x) == PhysOf(s.disk, k, x) != b;
    }
  }

  /** Rewriting one block of a directory by another tiled block. */
  lemma RewriteValid(s: State, k: nat, lb: nat, c: Block)
    requires Valid(s) && k in s.disk.live && DirOk(s.disk, k)
    requires PhysOf(s.disk, k, lb) != 0 && |c| == s.disk.bs && Tiled(c)
    ensures PhysOf(s.disk, k, lb) < |s.disk.blocks| && |s.disk.blocks[PhysOf(s.disk, k, lb)]| == s.disk.bs
    ensures lb < DirBlocks(s.disk, k)
    ensures var t := Rewrite(s, k, lb, c);
            && Valid(t) && OthersSame(s, t, k) && DirOk(t.disk, k) && t.disk.inodes == s.disk.inodes
            && OnlyBlock(s.disk, t.disk, k, lb) && BlockEntries(t.disk, k, lb) == Live(c)
            && SameMap(s.disk, t.disk) && SameRefs(s.disk, t.disk) && NoHoles(t.disk, k) == NoHoles(s.disk, k)
  {
    hide Core, Sized, PhysOf, ByteAt, Tails, TailsExcept, Tiled, Live, BlockOf, StartOf, BlockEntries;
    SizedAny(s, 0, k);
    RewriteCore(s, k, lb, c);
    RewriteBlocks(s, k, lb, c);
    var t := Rewrite(s, k, lb, c);
    SizedAny(t, k, 0);
    TailsPart(s.disk, k);
    assert OthersSame(s, t, k);
    OthersTails(s, t, k);
    assert StartOf(s.disk, lb) < s.disk.inodes[k].size;
    StartMono(s.disk, lb, DirBlocks(s.disk, k));
    RewriteTail(s.disk, t.disk, k, lb, c);
    TailsJoin(t.disk, k);
    RewriteDirOk(s.disk, t.disk, k);
  }

  lemma RewriteTail(d: Disk, e: Disk, k: nat, lb: nat, c: Block)
    requires Ptrs(d) > 0 && Ptrs(e) > 0 && d.bs == e.bs && k < |d.inodes| && d.inodes == e.inodes && k in d.live
    requires k !in d.loose && TailAt(d, k) && SameMap(d, e) && ViewPut(d, e, k, StartOf(d, lb), c)
    requires StartOf(d, lb) + |c| <= d.inodes[k].size
    ensures TailAt(e, k)
  {
    hide PhysOf, ByteAt;
    forall x: nat | PhysOf(e, k, x) != 0
      ensures StartOf(e, x) < e.inodes[k].size
    {
      assert PhysOf(d, k, x) != 0;
      StartSame(d, e, x);
    }
  }

  lemma RewriteDirOk(d: Disk, e: Disk, k: nat)
    requires DirOk(d, k) && Ptrs(e) > 0 && d.bs == e.bs && d.inodes == e.inodes && d.loose == e.loose && SameMap(d, e)
    requires forall x: nat | PhysOf(d, k, x) != 0 :: TiledAt(e, k, x)
    ensures DirOk(e, k) && DirBlocks(e, k) == DirBlocks(d, k) && NoHoles(e, k) == NoHoles(d, k)
  {
    hide PhysOf, TiledAt;
    CellSplit(d, e, d.inodes[k].size);
    StartSame(d, e, DirBlocks(d, k));
  }

  // ---------------------------------------------------------------------
  // The same bytes list the same entries
  // ---------------------------------------------------------------------

  /** Equal bytes in a mapped block mean an equal block. */
  lemma BlockFromBytes(d: Disk, e: Disk, k: nat, lb: nat)
    requires Ptrs(d) > 0 && Ptrs(e) > 0 && d.bs == e.bs && PhysOf(d, k, lb) == PhysOf(e, k, lb) != 0
    requires forall x: nat :: ByteAt(e, k, x) == ByteAt(d, k, x)
    requires var b := PhysOf(d, k, lb);
             b < |d.blocks| && b < |e.blocks| && |d.blocks[b]| == d.bs && |e.blocks[b]| == d.bs
    ensures d.blocks[PhysOf(d, k, lb)] == e.blocks[PhysOf(d, k, lb)]
  {
    hide PhysOf;
    var b := PhysOf(d, k, lb);
    forall i: nat | i < d.bs
      ensures d.blocks[b][i] == e.blocks[b][i]
    {
      var x := StartOf(d, lb) + i;
      DivUnique(x, d.bs, lb, i);
      assert BlockOf(d, x) == lb && OffsetOf(d, x) == i;
      assert BlockOf(e, x) == lb && OffsetOf(e, x) == i;
      assert ByteAt(e, k, x) == ByteAt(d, k, x);
    }
  }

  lemma SameBlockEntries(s: State, t: State, k: nat, lb: nat)
    requires Core(s) && Core(t) && Ptrs(s.disk) > 0 && Ptrs(t.disk) > 0 && s.disk.bs == t.disk.bs
    requires PhysOf(t.disk, k, lb) == PhysOf(s.disk, k, lb)
    requires forall x: nat :: ByteAt(t.disk, k, x) == ByteAt(s.disk, k, x)
    ensures BlockEntries(t.disk, k, lb) == BlockEntries(s.disk, k, lb)
    ensures PhysOf(s.disk, k, lb) != 0 && TiledAt(s.disk, k, lb) ==> TiledAt(t.disk, k, lb)
  {
    hide PhysOf, ByteAt, Tiled, Live, Core;
    if PhysOf(s.disk, k, lb) != 0 {
      MappedBlock(s, k, lb);
      MappedBlock(t, k, lb);
      BlockFromBytes(s.disk, t.disk, k, lb);
    }
  }

  /** A directory whose file is untouched lists the same entries. */
  lemma DirFrame(s: State, t: State, k: nat)
    requires Core(s) && Core(t) && s.disk.bs == t.disk.bs && DirOk(s.disk, k) && Ptrs(t.disk) > 0
    requires k < |t.disk.inodes| && t.disk.inodes[k].size == s.disk.inodes[k].size && SameFile(s.disk, t.disk, k)
    requires k !in t.disk.loose
    ensures DirOk(t.disk, k) && Entries(t.disk, k) == Entries(s.disk, k) && NoHoles(t.disk, k) == NoHoles(s.disk, k)
  {
    hide PhysOf, ByteAt, Tiled, Core, BlockEntries, EntriesTo, TiledAt;
    forall lb: nat
      ensures BlockEntries(t.disk, k, lb) == BlockEntries(s.disk, k, lb)
      ensures PhysOf(s.disk, k, lb) != 0 && TiledAt(s.disk, k, lb) ==> TiledAt(t.disk, k, lb)
    {
      SameBlockEntries(s, t, k, lb);
    }
    CellSplit(s.disk, t.disk, s.disk.inodes[k].size);
    StartSame(s.disk, t.disk, DirBlocks(s.disk, k));
    EntriesToSame(s.disk, t.disk, k, DirBlocks(s.disk, k));
  }

  // ---------------------------------------------------------------------
  // Growing a directory by one block
  // ---------------------------------------------------------------------

  /** The directory after its new last block `lb` is counted and holds `c`. */
  function Grown(t: State, k: nat, lb: nat, c: Block): State
    requires Ptrs(t.disk) > 0 && PhysOf(t.disk, k, lb) < |t.disk.blocks| && k < |t.disk.inodes|
    requires |c| <= |t.disk.blocks[PhysOf(t.disk, k, lb)]|
  {
    t.(disk := WriteData(Resize(t.disk, k, t.disk.inodes[k].size + t.disk.bs), PhysOf(t.disk, k, lb), 0, c))
  }

  lemma NextStart(d: Disk, k: nat)
    requires DirOk(d, k)
    ensures d.inodes[k].size + d.bs == StartOf(d, DirBlocks(d, k) + 1)
    ensures BlockOf(d, d.inodes[k].size + d.bs) == DirBlocks(d, k) + 1
  {
    var n := DirBlocks(d, k);
    assert (n + 1) * d.bs == n * d.bs + d.bs;
    DivUnique((n + 1) * d.bs, d.bs, n + 1, 0);
  }

  /** `r` shows the files of `s`, with block `lb` of `k` mapped and the size
      grown by one block. */
  ghost predicate Readied(s: State, r: State, k: nat, lb: nat) {
    && r.fdb == s.fdb && r.ibits == s.ibits && SameUse(s.disk, r.disk) && r.disk.bs == s.disk.bs
    && |r.disk.blocks| == |s.disk.blocks| && |r.disk.inodes| == |s.disk.inodes|
    && Ptrs(s.disk) > 0 && k < |s.disk.inodes|
    && SameView(s.disk, r.disk)
    && (forall l: nat, x: nat | l != k || x != lb :: PhysOf(r.disk, l, x) == PhysOf(s.disk, l, x))
    && (forall l | 0 <= l < |s.disk.inodes| && l != k :: r.disk.inodes[l] == s.disk.inodes[l])
    && SameModeAndLinks(s.disk.inodes[k], r.disk.inodes[k])
    && r.disk.inodes[k].size == s.disk.inodes[k].size + s.disk.bs
  }

  predicate SameModeAndLinks(m: Inode, n: Inode) {
    m.mode == n.mode && m.links == n.links
  }

  lemma ReadyToGrow(s: State, t: State, k: nat, lb: nat, pb: nat)
    requires Core(t) && Sized(t, k, 0) && Prepared(s, t, k, lb, pb) && k in t.disk.live
    ensures k < |t.disk.inodes|
    ensures var r := t.(disk := Resize(t.disk, k, t.disk.inodes[k].size + t.disk.bs));
            && Core(r) && Sized(r, k, 0) && Readied(s, r, k, lb) && Ptrs(r.disk) > 0 && PhysOf(r.disk, k, lb) == pb
  {
    hide Core, Sized, PhysOf, ByteAt;
    CoreInode(t, k);
    var size := t.disk.inodes[k].size + t.disk.bs;
    var r := t.(disk := Resize(t.disk, k, size));
    SetInodeFrame(t, k, t.disk.inodes[k].(size := size));
    forall l: nat, x: nat
      ensures ByteAt(r.disk, l, x) == ByteAt(s.disk, l, x)
    {
      assert ByteAt(t.disk, l, x) == ByteAt(s.disk, l, x);
    }
    forall l: nat, x: nat
      ensures PhysOf(r.disk, l, x) == PhysOf(t.disk, l, x)
    {
    }
  }

  lemma GrownOthers(s: State, r: State, u: State, k: nat, lb: nat)
    requires Readied(s, r, k, lb) && Ptrs(u.disk) > 0 && Ptrs(r.disk) > 0
    requires u == r.(disk := u.disk) && u.disk == r.disk.(blocks := u.disk.blocks)
    requires |u.disk.blocks| == |r.disk.blocks|
    requires forall l: nat | l != k :: SameFile(r.disk, u.disk, l)
    ensures OthersSame(s, u, k)
  {
    hide PhysOf, ByteAt;
    forall l: nat | l != k
      ensures SameFile(s.disk, u.disk, l)
    {
      assert SameFile(r.disk, u.disk, l);
      forall x: nat
        ensures PhysOf(u.disk, l, x) == PhysOf(s.disk, l, x) && ByteAt(u.disk, l, x) == ByteAt(s.disk, l, x)
      {
        assert PhysOf(r.disk, l, x) == PhysOf(s.disk, l, x);
        assert ByteAt(r.disk, l, x) == ByteAt(s.disk, l, x);
      }
    }
  }

  lemma GrownTail(s: State, r: State, u: State, k: nat, lb: nat, c: Block)
    requires DirOk(s.disk, k) && lb == DirBlocks(s.disk, k) && TailAt(s.disk, k) && k in s.disk.live
    requires Readied(s, r, k, lb) && Ptrs(r.disk) > 0 && Ptrs(u.disk) > 0 && u.disk.bs == r.disk.bs
    requires u.disk.inodes == r.disk.inodes && |c| == s.disk.bs
    requires SameMap(r.disk, u.disk) && ViewPut(r.disk, u.disk, k, StartOf(r.disk, lb), c)
    ensures TailAt(u.disk, k)
  {
    hide PhysOf, ByteAt;
    NextStart(s.disk, k);
    var size := s.disk.inodes[k].size + s.disk.bs;
    forall x: nat | PhysOf(u.disk, k, x) != 0
      ensures StartOf(u.disk, x) < size
    {
      assert PhysOf(r.disk, k, x) != 0;
      StartSame(s.disk, u.disk, x);
      if x != lb {
        assert PhysOf(s.disk, k, x) != 0;
      }
    }
    forall x: nat | size <= x
      ensures ByteAt(u.disk, k, x) == 0
    {
      StartSame(s.disk, r.disk, lb);
      assert ByteAt(u.disk, k, x) == ByteAt(r.disk, k, x) == ByteAt(s.disk, k, x);
    }
  }

  lemma GrownEntries(s: State, r: State, u: State, k: nat, lb: nat, c: Block)
    requires Core(s) && Core(r) && DirOk(s.disk, k) && lb == DirBlocks(s.disk, k) && Tiled(c)
    requires Readied(s, r, k, lb) && Ptrs(r.disk) > 0 && Ptrs(u.disk) > 0 && u.disk.bs == r.disk.bs
    requires u.disk.inodes == r.disk.inodes && u.disk.loose == r.disk.loose && SameMap(r.disk, u.disk)
    requires OnlyBlock(r.disk, u.disk, k, lb) && BlockEntries(u.disk, k, lb) == Live(c) && TiledAt(u.disk, k, lb)
    requires forall x: nat | x != lb && PhysOf(r.disk, k, x) != 0 && TiledAt(r.disk, k, x) :: TiledAt(u.disk, k, x)
    requires PhysOf(r.disk, k, lb) != 0
    ensures DirOk(u.disk, k) && Entries(u.disk, k) == Entries(s.disk, k) + Live(c)
    ensures NoHoles(s.disk, k) ==> NoHoles(u.disk, k)
  {
    hide Core, PhysOf, ByteAt, Tiled, Live, BlockOf, StartOf, BlockEntries, TiledAt;
    NextStart(s.disk, k);
    CellSplit(s.disk, u.disk, s.disk.inodes[k].size + s.disk.bs);
    StartSame(s.disk, u.disk, lb + 1);
    forall x: nat | x != lb
      ensures BlockEntries(u.disk, k, x) == BlockEntries(s.disk, k, x)
      ensures PhysOf(u.disk, k, x) != 0 ==> TiledAt(u.disk, k, x)
    {
      assert PhysOf(r.disk, k, x) == PhysOf(s.disk, k, x);
      assert forall y: nat :: ByteAt(r.disk, k, y) == ByteAt(s.disk, k, y);
      SameBlockEntries(s, r, k, x);
      assert PhysOf(u.disk, k, x) == PhysOf(r.disk, k, x);
    }
    EntriesToSame(s.disk, u.disk, k, lb);
  }

  /** Growing a directory appends the entries of its new block. */
  lemma GrownValid(s: State, t: State, k: nat, lb: nat, pb: nat, c: Block)
    requires Valid(s) && k in s.disk.live && DirOk(s.disk, k) && lb == DirBlocks(s.disk, k)
    requires Core(t) && Sized(t, k, 0) && Prepared(s, t, k, lb, pb) && pb != 0 && k in t.disk.live
    requires |c| == s.disk.bs && Tiled(c)
    ensures Ptrs(t.disk) > 0 && PhysOf(t.disk, k, lb) == pb < |t.disk.blocks| && k < |t.disk.inodes|
    ensures |c| <= |t.disk.blocks[pb]|
    ensures var u := Grown(t, k, lb, c);
            && Valid(u) && OthersSame(s, u, k) && DirOk(u.disk, k)
            && Entries(u.disk, k) == Entries(s.disk, k) + Live(c)
            && k < |s.disk.inodes| && SameModeAndLinks(s.disk.inodes[k], u.disk.inodes[k])
            && (NoHoles(s.disk, k) ==> NoHoles(u.disk, k))
  {
    hide Core, Sized, PhysOf, ByteAt, Tails, TailsExcept, Tiled, Live, BlockOf, StartOf, BlockEntries, TiledAt,
      EntriesTo, SameMap, ViewPut, OthersSame, TailAt, SameFile, OnlyBlock, NoHoles;
    CoreInode(s, k);
    CoreInode(t, k);
    MappedBlock(t, k, lb);
    ReadyToGrow(s, t, k, lb, pb);
    var r := t.(disk := Resize(t.disk, k, t.disk.inodes[k].size + t.disk.bs));
    var u := Grown(t, k, lb, c);
    assert u == Rewrite(r, k, lb, c);
    RewriteCore(r, k, lb, c);
    RewriteBlocks(r, k, lb, c);
    SizedAny(u, k, 0);
    GrownOthers(s, r, u, k, lb);
    TailsPart(s.disk, k);
    OthersTails(s, u, k);
    GrownTail(s, r, u, k, lb, c);
    TailsJoin(u.disk, k);
    GrownEntries(s, r, u, k, lb, c);
  }

  // ---------------------------------------------------------------------
  // Steps of the directory scans
  // ---------------------------------------------------------------------

  lemma {:induction false} EntriesPrefix(d: Disk, k: nat, m: nat, n: nat)
    requires Ptrs(d) > 0 && m <= n
    ensures EntriesTo(d, k, m) <= EntriesTo(d, k, n)
    decreases n
  {
    hide BlockEntries;
    if m < n {
      EntriesPrefix(d, k, m, n - 1);
    }
  }

  /** A match in block `lb`, with none before it, is what the lookup finds. */
  lemma FoundInBlock(d: Disk, k: nat, lb: nat, n: nat, i: nat, name: seq<Byte>)
    requires Ptrs(d) > 0 && lb < n && i < |BlockEntries(d, k, lb)|
    requires Unnamed(EntriesTo(d, k, lb), name) && Unnamed(BlockEntries(d, k, lb)[..i], name)
    requires BlockEntries(d, k, lb)[i].name == name
    ensures Lookup(EntriesTo(d, k, n), name) == Some(BlockEntries(d, k, lb)[i].ino)
    ensures var p := |EntriesTo(d, k, lb)|;
            && p + i < |EntriesTo(d, k, n)| && EntriesTo(d, k, n)[p + i] == BlockEntries(d, k, lb)[i]
            && Unnamed(EntriesTo(d, k, n)[..p + i], name)
  {
    hide BlockEntries, Lookup;
    var p, m, l := EntriesTo(d, k, lb), BlockEntries(d, k, lb), EntriesTo(d, k, n);
    EntriesPrefix(d, k, lb + 1, n);
    assert p + m <= l;
    assert l[|p| + i] == (p + m)[|p| + i];
    assert l[..|p| + i] == p + m[..i];
    UnnamedJoin(p, m[..i], name);
    LookupAt(l, |p| + i);
  }

  lemma CountInBlock(d: Disk, k: nat, lb: nat, n: nat, i: nat)
    requires Ptrs(d) > 0 && lb < n && i < |BlockEntries(d, k, lb)|
    ensures var p := |EntriesTo(d, k, lb)|;
            p + i < |EntriesTo(d, k, n)| && EntriesTo(d, k, n)[p + i] == BlockEntries(d, k, lb)[i]
  {
    hide BlockEntries;
    var p, m, l := EntriesTo(d, k, lb), BlockEntries(d, k, lb), EntriesTo(d, k, n);
    EntriesPrefix(d, k, lb + 1, n);
    assert p + m <= l;
    assert l[|p| + i] == (p + m)[|p| + i];
  }

  /** The records before offset `o` of a tiled block, and the one there. */
  lemma WalkPrefix(b: Block, o: nat)
    requires Chain(b, 0, o) && Record(b, o) && Chain(b, o + LenAt(b, o), |b|) && InoAt(b, o) != 0
    ensures Tiled(b) && |Walk(b, 0, o)| < |Live(b)|
    ensures Live(b)[..|Walk(b, 0, o)|] == Walk(b, 0, o) && Live(b)[|Walk(b, 0, o)|] == DirentAt(b, o)
  {
    hide Walk, Chain, Live, Tiled;
    NthFound(b, o);
    ChainOne(b, o);
    hide EntryAt;
    ChainJoin(b, o, o + LenAt(b, o), |b|);
    ChainJoin(b, 0, o, |b|);
    LiveIsWalk(b);
  }

  lemma LiveIsWalk(b: Block)
    requires Tiled(b)
    ensures Chain(b, 0, |b|) && Live(b) == Walk(b, 0, |b|)
  {
  }

  /** Adding `e` in the slot at `o` of block `lb`. */
  lemma AddInBlock(s: State, k: nat, lb: nat, o: nat, e: Dirent)
    requires Valid(s) && k in s.disk.live && DirOk(s.disk, k) && PhysOf(s.disk, k, lb) != 0
    requires PhysOf(s.disk, k, lb) < |s.disk.blocks|
    requires var b := s.disk.blocks[PhysOf(s.disk, k, lb)];
             Chain(b, 0, o) && Record(b, o) && Chain(b, o + LenAt(b, o), |b|)
             && Storable(e) && Fits(b, o, Needed(|e.name|))
    ensures var pb := PhysOf(s.disk, k, lb); var c := AddAt(s.disk.blocks[pb], o, e);
            && |c| == |s.disk.blocks[pb]|
            && var t := Rewrite(s, k, lb, c);
               && Valid(t) && OthersSame(s, t, k) && DirOk(t.disk, k) && t.disk.inodes == s.disk.inodes
               && EntryAdded(Entries(s.disk, k), Entries(t.disk, k), e) && NoHoles(t.disk, k) == NoHoles(s.disk, k)
  {
    hide Core, Sized, PhysOf, Tails, Walk, Chain, AddAt, EntryAt, LenAt, Live, Tiled, OthersSame, EntriesTo,
      EntriesFrom, Cat, Inserted, BlockOf, NoHoles;
    var pb := PhysOf(s.disk, k, lb);
    var b := s.disk.blocks[pb];
    var c := AddAt(b, o, e);
    MappedBlock(s, k, lb);
    AddAtLive(b, o, e);
    RewriteValid(s, k, lb, c);
    var t := Rewrite(s, k, lb, c);
    CellSplit(s.disk, t.disk, s.disk.inodes[k].size);
    var n := DirBlocks(s.disk, k);
    EntriesReplaced(s.disk, t.disk, k, lb, n);
    assert BlockEntries(s.disk, k, lb) == Live(b);
    var i := |Walk(b, 0, o)| + |EntryAt(b, o)|;
    InsertedIn(EntriesTo(s.disk, k, lb), Live(b), EntriesFrom(s.disk, k, lb + 1, n), i, e);
  }

  /** Deleting the record at `o` of block `lb`, the first with its name. */
  lemma RemoveInBlock(s: State, k: nat, lb: nat, o: nat, name: seq<Byte>)
    requires Valid(s) && k in s.disk.live && DirOk(s.disk, k) && PhysOf(s.disk, k, lb) != 0
    requires PhysOf(s.disk, k, lb) < |s.disk.blocks|
    requires var b := s.disk.blocks[PhysOf(s.disk, k, lb)];
             Chain(b, 0, o) && Record(b, o) && Chain(b, o + LenAt(b, o), |b|)
             && Names(b, o, name) && Unnamed(Walk(b, 0, o), name)
    requires Unnamed(EntriesTo(s.disk, k, lb), name)
    ensures var pb := PhysOf(s.disk, k, lb); var c := ClearIno(s.disk.blocks[pb], o);
            && |c| == |s.disk.blocks[pb]|
            && var t := Rewrite(s, k, lb, c); var e := DirentAt(s.disk.blocks[pb], o);
               && Valid(t) && OthersSame(s, t, k) && DirOk(t.disk, k) && t.disk.inodes == s.disk.inodes
               && EntryRemoved(Entries(s.disk, k), Entries(t.disk, k), name, e)
               && SameMap(s.disk, t.disk) && SameRefs(s.disk, t.disk) && NoHoles(t.disk, k) == NoHoles(s.disk, k)
               && Lookup(Entries(s.disk, k), name) == Some(e.ino)
  {
    hide Core, Sized, PhysOf, Tails, Walk, Chain, ClearIno, EntryAt, LenAt, Live, Tiled, OthersSame, EntriesTo,
      EntriesFrom, Cat, Removed, BlockOf, Lookup, Unnamed, NoHoles;
    var pb := PhysOf(s.disk, k, lb);
    var b := s.disk.blocks[pb];
    var c := ClearIno(b, o);
    MappedBlock(s, k, lb);
    ClearInoLive(b, o);
    WalkPrefix(b, o);
    RewriteValid(s, k, lb, c);
    var t := Rewrite(s, k, lb, c);
    CellSplit(s.disk, t.disk, s.disk.inodes[k].size);
    var n := DirBlocks(s.disk, k);
    EntriesReplaced(s.disk, t.disk, k, lb, n);
    assert BlockEntries(s.disk, k, lb) == Live(b);
    var i := |Walk(b, 0, o)|;
    RemovedIn(EntriesTo(s.disk, k, lb), Live(b), EntriesFrom(s.disk, k, lb + 1, n), i);
    FoundInBlock(s.disk, k, lb, n, i, name);
  }

  /** A block that holds one record only. */
  function OneRecord(bs: nat, e: Dirent): (c: Block)
    requires Storable(e) && HEADER + |e.name| <= bs < 0x1_0000
    ensures |c| == bs
  {
    PutRecord(Zeros(bs), 0, bs, e)
  }

  lemma OneRecordLive(bs: nat, e: Dirent)
    requires Storable(e) && HEADER + |e.name| <= bs < 0x1_0000 && bs % 4 == 0
    ensures Tiled(OneRecord(bs, e)) && Live(OneRecord(bs, e)) == [e]
  {
    PutRecordAt(Zeros(bs), 0, bs, e);
    ChainOne(OneRecord(bs, e), 0);
  }

  lemma AppendAdded(l: seq<Dirent>, e: Dirent)
    ensures EntryAdded(l, l + [e], e)
  {
    assert l + [e] == Inserted(l, |l|, e);
  }

  lemma NoEntriesYet(d: Disk, k: nat, name: seq<Byte>)
    requires Ptrs(d) > 0
    ensures Unnamed(EntriesTo(d, k, 0), name)
  {
  }

  lemma NoEntriesIn(d: Disk, k: nat, lb: nat, name: seq<Byte>)
    requires Ptrs(d) > 0 && Unnamed(EntriesTo(d, k, lb), name) && Unnamed(BlockEntries(d, k, lb), name)
    ensures Unnamed(EntriesTo(d, k, lb + 1), name)
  {
    UnnamedJoin(EntriesTo(d, k, lb), BlockEntries(d, k, lb), name);
  }

  /** An operation on directory `k`: everything is kept but its entries. */
  /** None of the first `n` blocks of directory `k` has room for `needed` bytes. */
  ghost predicate NoRoom(d: Disk, k: nat, n: nat, needed: nat)
    requires Ptrs(d) > 0
  {
    forall lb: nat | lb < n && 0 < PhysOf(d, k, lb) < |d.blocks| :: FullFor(d.blocks[PhysOf(d, k, lb)], needed)
  }

  ghost predicate DirStep(s: State, t: State, k: nat) {
    && Valid(t) && OthersSame(s, t, k) && DirOk(t.disk, k) && t.disk.live == s.disk.live
    && t.ibits == s.ibits
    && k < |s.disk.inodes| && SameModeAndLinks(s.disk.inodes[k], t.disk.inodes[k])
    && (NoHoles(s.disk, k) ==> NoHoles(t.disk, k))
  }

  lemma DirOkInode(d: Disk, k: nat)
    requires DirOk(d, k)
    ensures Ptrs(d) > 0 && k < |d.inodes| && k !in d.loose && d.inodes[k].size == StartOf(d, DirBlocks(d, k))
  {
  }

  lemma DirStepSame(s: State, k: nat)
    requires Valid(s) && DirOk(s.disk, k)
    ensures DirStep(s, s, k)
  {
    hide Core, Sized, Tails, PhysOf, ByteAt;
  }

  /** Nothing is mapped at the end of a directory. */
  lemma PastEnd(s: State, k: nat)
    requires Valid(s) && k in s.disk.live && DirOk(s.disk, k)
    ensures PhysOf(s.disk, k, DirBlocks(s.disk, k)) == 0
  {
    hide Core, Sized, PhysOf, ByteAt;
    TailsPart(s.disk, k);
  }

  /** A directory operation that failed half-way: a reserved block goes back. */
  lemma GiveBackStep(s: State, t: State, k: nat, b: nat)
    requires Valid(s) && k in s.disk.live && DirOk(s.disk, k)
    requires Core(t) && Sized(t, k, 0) && Quiet(s, t, k, 0) && Reserved(t, b)
    ensures b >= t.fdb && Bits.Located(t.bbits, b - t.fdb) && Bits.Counted(t.bbits) && Bits.IsSet(t.bbits, b - t.fdb)
    ensures var u := t.(bbits := Bits.Give(t.bbits, b - t.fdb));
            && DirStep(s, u, k) && Entries(u.disk, k) == Entries(s.disk, k)
            && u.bbits.sb == t.bbits.sb + 1
  {
    hide Core, Sized, Tails, TailAt, PhysOf, ByteAt, Bits.IsSet, Bits.Counted, Entries, SameFile, Bits.Located;
    CoreBits(t);
    GiveBackCore(t, b);
    var u := t.(bbits := Bits.Give(t.bbits, b - t.fdb));
    GiveBackSized(t, u.bbits, k);
    SizedAny(u, k, 0);
    QuietValid(s, t, k);
    CoreInode(s, k);
    DirFrame(s, u, k);
  }

  // ---------------------------------------------------------------------
  // Operations on two inodes
  // ---------------------------------------------------------------------

  ghost predicate SameGeometry(s: State, t: State) {
    t.disk.bs == s.disk.bs && |t.disk.blocks| == |s.disk.blocks| && |t.disk.inodes| == |s.disk.inodes|
  }

  /** Inode `l` and its file are the same in `s` and `t`. */
  ghost predicate Untouched(s: State, t: State, l: nat) {
    && Ptrs(s.disk) > 0 && Ptrs(t.disk) > 0 && |s.disk.inodes| == |t.disk.inodes|
    && (l in t.disk.live <==> l in s.disk.live) && (l in t.disk.loose <==> l in s.disk.loose)
    && (l < |s.disk.inodes| ==> t.disk.inodes[l] == s.disk.inodes[l])
    && SameFile(s.disk, t.disk, l)
  }

  lemma UntouchedTransitive(s: State, t: State, u: State, l: nat)
    requires Untouched(s, t, l) && Untouched(t, u, l)
    ensures Untouched(s, u, l)
  {
    hide PhysOf, ByteAt;
  }

  lemma SameFileMore(s: State, t: State, u: State, l: nat)
    requires Untouched(s, t, l) && Ptrs(u.disk) > 0
    ensures SameFile(t.disk, u.disk, l) ==> SameFile(s.disk, u.disk, l)
  {
    hide PhysOf, ByteAt;
  }

  lemma OthersUntouched(s: State, t: State, k: nat, l: nat)
    requires OthersSame(s, t, k) && l != k
    ensures Untouched(s, t, l)
  {
    hide SameFile;
  }

  /** Two steps, one on `a` and one on `b`. */
  lemma TwoSteps(s: State, t: State, u: State, a: nat, b: nat)
    requires OthersSame(s, t, a) && OthersSame(t, u, b)
    ensures forall l: nat | l != a && l != b :: Untouched(s, u, l)
  {
    hide OthersSame, Untouched;
    forall l: nat | l != a && l != b
      ensures Untouched(s, u, l)
    {
      OthersUntouched(s, t, a, l);
      OthersUntouched(t, u, b, l);
      UntouchedTransitive(s, t, u, l);
    }
  }

  /** A directory other than `a` does not notice a step on `a`. */
  lemma DirOthers(s: State, t: State, a: nat, k: nat)
    requires Valid(s) && Valid(t) && OthersSame(s, t, a) && k != a && DirOk(s.disk, k)
    ensures DirOk(t.disk, k) && Entries(t.disk, k) == Entries(s.disk, k) && NoHoles(t.disk, k) == NoHoles(s.disk, k)
  {
    hide Core, Sized, Tails, SameFile, Entries, NoHoles;
    CoreBits(t);
    DirFrame(s, t, k);
  }

  lemma OthersGeometry(s: State, t: State, k: nat)
    requires OthersSame(s, t, k)
    ensures SameGeometry(s, t)
  {
  }

  lemma AllUntouched(s: State)
    requires Ptrs(s.disk) > 0
    ensures forall l: nat :: Untouched(s, s, l)
  {
    hide PhysOf, ByteAt;
  }

  lemma EmptyOwnsNothing(s: State, k: nat)
    requires Core(s) && k < |s.disk.inodes| && Empty(s.disk.inodes[k])
    ensures OwnedBy(s.owner, k) == {}
  {
    hide Bits.IsSet, Bits.Counted;
    assert forall b | b in s.owner :: Ref(s.disk, s.owner[b].0, s.owner[b].1) == b != 0;
    assert forall p :: Ref(s.disk, k, p) == 0;
  }

  /** A file created a moment ago is still empty after a step on directory `k`. */
  lemma NewFileEmpty(t: State, u: State, j: nat, k: nat)
    requires OthersSame(t, u, k) && j != k && j < |t.disk.inodes| && Empty(t.disk.inodes[j]) && Core(u)
    ensures j < |u.disk.inodes| && u.disk.inodes[j] == t.disk.inodes[j] && (j in u.disk.loose <==> j in t.disk.loose)
    ensures Ptrs(u.disk) > 0 && Contents(u.disk, j) == [] && OwnedBy(u.owner, j) == {}
  {
    hide Core, ByteAt, SameFile, OwnedBy;
    EmptyOwnsNothing(u, j);
  }

  /** Taking the new inode back when its name could not be added. */
  lemma UncreateValid(s: State, t: State, u: State, j: nat, k: nat)
    requires Valid(u) && j in u.disk.live && OwnedBy(u.owner, j) == {} && j != k && DirOk(u.disk, k)
    requires forall l: nat | l != j && l != k :: Untouched(s, u, l)
    requires t.disk.live == s.disk.live + {j} && u.disk.live == t.disk.live && j !in s.disk.live && j !in u.disk.loose
    ensures Bits.Located(u.ibits, j) && Bits.Counted(u.ibits) && Bits.IsSet(u.ibits, j)
    ensures var v := u.(disk := u.disk.(live := u.disk.live - {j}), ibits := Bits.Give(u.ibits, j));
            && Valid(v) && DirOk(v.disk, k) && Entries(v.disk, k) == Entries(u.disk, k)
            && v.disk.live == s.disk.live && (NoHoles(u.disk, k) ==> NoHoles(v.disk, k))
            && (forall l: nat | l != k && l in v.disk.live :: Untouched(s, v, l))
  {
    hide Core, Sized, Tails, DirOk, Entries, OthersSame, Untouched, Without, Bits.Located, Bits.Give, Bits.Counted,
      NoHoles;
    CoreInode(u, j);
    CoreBits(u);
    WithoutNone(u.bbits, u.fdb);
    var n := u.disk.inodes[j];
    EraseValid(u, j, u.bbits, n, {});
    var v := u.(disk := u.disk.(live := u.disk.live - {j}), ibits := Bits.Give(u.ibits, j));
    assert u.owner - OwnedBy(u.owner, j) == u.owner;
    assert u.disk.inodes[j := n] == u.disk.inodes;
    assert v == Erase(u, j, u.bbits, n);
    DirOthers(u, v, j, k);
    forall l: nat | l != k && l in v.disk.live
      ensures Untouched(s, v, l)
    {
      OthersUntouched(u, v, j, l);
      UntouchedTransitive(s, u, v, l);
    }
  }

  lemma NothingChanged(s: State, j: nat)
    requires Valid(s)
    ensures OthersSame(s, s, j)
  {
    hide Core, Sized, PhysOf, ByteAt;
    CoreBits(s);
  }

  /** What became of inode `j` when one of its names was removed: its link count
      is one less, and with the last link the inode is free and blocks it owned are
      clear in the bitmap, each counted once. Those are all of its blocks exactly if
      the loop gets to each data block; for a file that was never cut off, if its
      size can be rounded up in 32 bits or it has no data block. */
  ghost predicate Unlinked(s: State, t: State, j: nat) {
    && j < |s.disk.inodes| == |t.disk.inodes| && Ptrs(s.disk) > 0
    && (s.disk.inodes[j].links == 0 ==> SameUse(s.disk, t.disk) && t.bbits == s.bbits)
    && (s.disk.inodes[j].links > 1 ==>
          && SameUse(s.disk, t.disk) && t.bbits == s.bbits
          && t.disk.inodes[j] == s.disk.inodes[j].(links := s.disk.inodes[j].links - 1))
    && (s.disk.inodes[j].links == 1 ==>
          && t.disk.live == s.disk.live - {j} && t.disk.inodes[j] == ZeroInode()
          && Without(s.bbits, t.bbits, s.fdb, Released(s.disk, j)) && Released(s.disk, j) <= OwnedBy(s.owner, j)
          && (Without(s.bbits, t.bbits, s.fdb, OwnedBy(s.owner, j)) <==> Covered(s.disk, j))
          && (j !in s.disk.loose && s.disk.inodes[j].size < WORD ==>
                (Covered(s.disk, j) <==> RoundsUp(s.disk, j) || NoData(s.disk, j))))
  }

  /** Unlinking does not depend on the bytes of data blocks. */
  lemma UnlinkedSame(s: State, t: State, u: State, j: nat)
    requires Ptrs(s.disk) > 0 && t == s.(disk := s.disk.(blocks := t.disk.blocks))
    requires SameRefs(s.disk, t.disk) && SameMap(s.disk, t.disk) && Unlinked(t, u, j)
    ensures Unlinked(s, u, j)
  {
    hide PhysOf, Ref, OwnedBy, Without;
    assert Released(t.disk, j) == Released(s.disk, j) by {
      ReleasedSame(s.disk, t.disk, j);
    }
    hide Released;
    assert NoData(t.disk, j) == NoData(s.disk, j) && Covered(t.disk, j) == Covered(s.disk, j);
  }

  /** A directory whose file is as it was, seen in another state. */
  lemma DirSame(s: State, t: State, k: nat)
    requires Valid(s) && Valid(t) && OthersSame(s, t, k) && DirOk(s.disk, k) && SameFile(s.disk, t.disk, k)
    requires k < |t.disk.inodes| && t.disk.inodes[k].size == s.disk.inodes[k].size && k !in t.disk.loose
    ensures DirOk(t.disk, k) && Entries(t.disk, k) == Entries(s.disk, k) && NoHoles(t.disk, k) == NoHoles(s.disk, k)
  {
    hide Core, Sized, Tails, SameFile, Entries, NoHoles;
    CoreBits(t);
    DirFrame(s, t, k);
  }

  /** The entry that `name` finds, if any, names an inode in use. */
  ghost predicate FoundLive(d: Disk, k: nat, name: seq<Byte>)
    requires Ptrs(d) > 0 && k < |d.inodes|
  {
    var r := Lookup(Entries(d, k), name);
    r.Some? ==> 0 < r.value && r.value - 1 in d.live
  }

  lemma RemovedNamed(l: seq<Dirent>, r: seq<Dirent>, name: seq<Byte>, e: Dirent)
    requires EntryRemoved(l, r, name, e)
    ensures e in l && !Unnamed(l, name)
  {
  }
}
