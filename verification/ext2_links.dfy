/** Names and link counts of a whole ext2 image: every directory entry names an
inode in use, and no inode has fewer links than entries that name it. */
module Ext2Links {
  import opened Wrappers
  import opened Sets
  import opened Arith
  import opened Bytes
  import opened Ext2Map
  import opened Ext2State
  import opened Ext2Release
  import opened Ext2Dir
  import opened Ext2Tree
  import opened Ext2Mkdir
  import Bits = Ext2Bitmap

  // ---------------------------------------------------------------------
  // Counting entries
  // ---------------------------------------------------------------------

  function One(e: Dirent, ino: nat): nat {
    if e.ino == ino then 1 else 0
  }

  /** How many entries of `l` name `ino`. */
  function Count(l: seq<Dirent>, ino: nat): nat {
    if l == [] then 0 else One(l[0], ino) + Count(l[1..], ino)
  }

  lemma {:induction false} CountJoin(p: seq<Dirent>, q: seq<Dirent>, ino: nat)
    ensures Count(p + q, ino) == Count(p, ino) + Count(q, ino)
  {
    if p == [] {
      assert p + q == q;
    } else {
      assert (p + q)[1..] == p[1..] + q;
      CountJoin(p[1..], q, ino);
    }
  }

  lemma {:induction false} CountIn(l: seq<Dirent>, ino: nat)
    ensures Count(l, ino) > 0 <==> exists e | e in l :: e.ino == ino
  {
    if l != [] {
      CountIn(l[1..], ino);
      assert l == [l[0]] + l[1..];
    }
  }

  lemma CountOne(e: Dirent, ino: nat)
    ensures Count([e], ino) == One(e, ino) && Count([], ino) == 0
  {
    assert [e][1..] == [];
  }

  /** `p`, `e` and `q` in a row. */
  lemma CountAround(p: seq<Dirent>, e: Dirent, q: seq<Dirent>, ino: nat)
    ensures Count(p + ([e] + q), ino) == Count(p + q, ino) + One(e, ino)
  {
    hide Count;
    CountOne(e, ino);
    CountJoin(p, [e] + q, ino);
    CountJoin([e], q, ino);
    CountJoin(p, q, ino);
  }

  lemma CountAdded(l: seq<Dirent>, r: seq<Dirent>, e: Dirent, ino: nat)
    requires EntryAdded(l, r, e)
    ensures Count(r, ino) == Count(l, ino) + One(e, ino)
  {
    hide Count, One;
    var i: nat :| i <= |l| && r == Inserted(l, i, e);
    CountAround(l[..i], e, l[i..], ino);
    assert l[..i] + l[i..] == l;
  }

  lemma CountRemoved(l: seq<Dirent>, r: seq<Dirent>, name: seq<Byte>, e: Dirent, ino: nat)
    requires EntryRemoved(l, r, name, e)
    ensures Count(l, ino) == Count(r, ino) + One(e, ino)
  {
    hide Count, One;
    var i: nat :| i < |l| && l[i] == e && e.name == name && Unnamed(l[..i], name) && r == Removed(l, i);
    var p, q := l[..i], l[i + 1..];
    CountAround(p, e, q, ino);
    assert l == p + ([e] + q);
    assert r == p + q;
  }

  lemma AddedIn(l: seq<Dirent>, r: seq<Dirent>, e: Dirent)
    requires EntryAdded(l, r, e)
    ensures forall x | x in r :: x == e || x in l
  {
  }

  lemma RemovedFrom(l: seq<Dirent>, r: seq<Dirent>, name: seq<Byte>, e: Dirent)
    requires EntryRemoved(l, r, name, e)
    ensures e in l && forall x | x in r :: x in l
  {
  }

  /** How many entries name `ino` in all of the lists. */
  function Total(ls: seq<seq<Dirent>>, ino: nat): nat {
    if ls == [] then 0 else Count(ls[0], ino) + Total(ls[1..], ino)
  }

  lemma {:induction false} TotalPut(ls: seq<seq<Dirent>>, k: nat, l: seq<Dirent>, ino: nat)
    requires k < |ls|
    ensures Total(ls[k := l], ino) + Count(ls[k], ino) == Total(ls, ino) + Count(l, ino)
  {
    if k == 0 {
      assert ls[k := l][1..] == ls[1..];
    } else {
      assert ls[k := l][1..] == ls[1..][k - 1 := l];
      TotalPut(ls[1..], k - 1, l, ino);
    }
  }

  lemma {:induction false} TotalAt(ls: seq<seq<Dirent>>, k: nat, ino: nat)
    requires k < |ls|
    ensures Count(ls[k], ino) <= Total(ls, ino)
  {
    if k > 0 {
      TotalAt(ls[1..], k - 1, ino);
    }
  }

  lemma {:induction false} TotalNone(ls: seq<seq<Dirent>>, ino: nat)
    requires forall k | 0 <= k < |ls| :: Count(ls[k], ino) == 0
    ensures Total(ls, ino) == 0
  {
    if ls != [] {
      TotalNone(ls[1..], ino);
    }
  }

  // ---------------------------------------------------------------------
  // Names and links
  // ---------------------------------------------------------------------

  /** Every entry names an inode in use. */
  ghost predicate AllLive(ls: seq<seq<Dirent>>, live: set<nat>) {
    forall k: nat, e | k < |ls| && e in ls[k] :: 0 < e.ino && e.ino - 1 in live
  }

  /** Inode `j` has a link for every entry that names it, counted in 16 bits. */
  predicate Enough(ls: seq<seq<Dirent>>, inodes: seq<Inode>, j: nat) {
    j < |inodes| && Total(ls, j + 1) <= inodes[j].links <= 0xFFFF
  }

  ghost predicate Linked(ls: seq<seq<Dirent>>, live: set<nat>, inodes: seq<Inode>) {
    AllLive(ls, live) && forall j | j in live :: Enough(ls, inodes, j)
  }

  /** No entry names an inode that is not in use. */
  lemma FreeUnnamed(ls: seq<seq<Dirent>>, live: set<nat>, j: nat)
    requires AllLive(ls, live) && j !in live
    ensures Total(ls, j + 1) == 0
  {
    forall k | 0 <= k < |ls|
      ensures Count(ls[k], j + 1) == 0
    {
      CountIn(ls[k], j + 1);
    }
    TotalNone(ls, j + 1);
  }

  /** An entry that is there is counted. */
  lemma NamedOnce(ls: seq<seq<Dirent>>, k: nat, e: Dirent)
    requires k < |ls| && e in ls[k]
    ensures Total(ls, e.ino) > 0
  {
    CountIn(ls[k], e.ino);
    TotalAt(ls, k, e.ino);
  }

  /** Inodes in `live` have the same link counts. */
  ghost predicate SameLinks(m: seq<Inode>, n: seq<Inode>, live: set<nat>) {
    |m| == |n| && forall x | x in live && x < |m| :: n[x].links == m[x].links
  }

  /** A new file with one name. */
  lemma LinkFile(ls: seq<seq<Dirent>>, live: set<nat>, m: seq<Inode>, n: seq<Inode>, k: nat, l: seq<Dirent>,
                 e: Dirent, j: nat)
    requires Linked(ls, live, m) && k < |ls| && EntryAdded(ls[k], l, e) && e.ino == j + 1 && j !in live
    requires SameLinks(m, n, live) && j < |n| && n[j].links == 1
    ensures Linked(ls[k := l], live + {j}, n)
  {
    hide Total, Count, EntryAdded;
    AddedIn(ls[k], l, e);
    FreeUnnamed(ls, live, j);
    forall x | x in live + {j}
      ensures Enough(ls[k := l], n, x)
    {
      CountAdded(ls[k], l, e, x + 1);
      TotalPut(ls, k, l, x + 1);
      assert x in live ==> Enough(ls, m, x);
    }
  }

  lemma DotsCount(j: nat, k: nat, ino: nat)
    ensures Count([Dot(j), DotDot(k)], ino) == One(Dot(j), ino) + One(DotDot(k), ino)
  {
    CountOne(Dot(j), ino);
    CountOne(DotDot(k), ino);
    CountJoin([Dot(j)], [DotDot(k)], ino);
    assert [Dot(j)] + [DotDot(k)] == [Dot(j), DotDot(k)];
  }

  /** A new directory counts its name, its '.' and, at the parent, its '..'. That
      fits the link counts exactly if the parent has less than 65535 links. */
  lemma LinkDir(ls: seq<seq<Dirent>>, live: set<nat>, m: seq<Inode>, n: seq<Inode>, k: nat, l: seq<Dirent>,
                e: Dirent, j: nat)
    requires Linked(ls, live, m) && k < |ls| && EntryAdded(ls[k], l, e) && e.ino == j + 1 && j !in live
    requires k in live && k < |m| && j < |ls| && ls[j] == []
    requires SameLinks(m, n, live - {k}) && |n| == |m| && j < |n| && n[j].links == 2
    requires n[k].links == (m[k].links + 1) % 0x1_0000
    ensures Linked(ls[k := l][j := [Dot(j + 1), DotDot(k + 1)]], live + {j}, n) <==> m[k].links < 0xFFFF
  {
    hide Total, Count, EntryAdded;
    var mid, dots := ls[k := l], [Dot(j + 1), DotDot(k + 1)];
    var all := mid[j := dots];
    AddedIn(ls[k], l, e);
    FreeUnnamed(ls, live, j);
    assert Enough(ls, m, k);
    forall x | x in live + {j}
      ensures Total(all, x + 1) == Total(ls, x + 1) + (if x == j then 2 else 0) + (if x == k then 1 else 0)
    {
      CountAdded(ls[k], l, e, x + 1);
      TotalPut(ls, k, l, x + 1);
      TotalPut(mid, j, dots, x + 1);
      DotsCount(j + 1, k + 1, x + 1);
      CountOne(e, x + 1);
    }
    forall x | x in live + {j} && x != k
      ensures Enough(all, n, x)
    {
      assert x in live ==> Enough(ls, m, x);
    }
    assert AllLive(all, live + {j});
    assert Enough(all, n, k) <==> m[k].links < 0xFFFF;
  }

  /** One name of a file with several links goes. */
  lemma LinkLess(ls: seq<seq<Dirent>>, live: set<nat>, m: seq<Inode>, n: seq<Inode>, k: nat, l: seq<Dirent>,
                 name: seq<Byte>, e: Dirent)
    requires Linked(ls, live, m) && k < |ls| && EntryRemoved(ls[k], l, name, e)
    requires var j := e.ino - 1;
             j in live && 0 <= j < |m| == |n| && SameLinks(m, n, live - {j}) && n[j].links == m[j].links - 1
    ensures Linked(ls[k := l], live, n)
  {
    hide Total, Count, EntryRemoved;
    RemovedFrom(ls[k], l, name, e);
    forall x | x in live
      ensures Enough(ls[k := l], n, x)
    {
      CountRemoved(ls[k], l, name, e, x + 1);
      TotalPut(ls, k, l, x + 1);
      assert Enough(ls, m, x);
    }
  }

  /** The last name of a file goes, and with it the file, and its own entries if it
      was a directory: no entry is left that names it. */
  lemma LinkGone(ls: seq<seq<Dirent>>, live: set<nat>, m: seq<Inode>, n: seq<Inode>, k: nat, l: seq<Dirent>,
                 name: seq<Byte>, e: Dirent)
    requires Linked(ls, live, m) && k < |ls| && EntryRemoved(ls[k], l, name, e)
    requires var j := e.ino - 1;
             j in live && 0 <= j < |m| == |n| && j < |ls| && SameLinks(m, n, live - {j}) && m[j].links == 1
    ensures Linked(ls[k := l][e.ino - 1 := []], live - {e.ino - 1}, n)
  {
    hide Total, Count, EntryRemoved;
    var j := e.ino - 1;
    var mid := ls[k := l];
    var all := mid[j := []];
    RemovedFrom(ls[k], l, name, e);
    assert Enough(ls, m, j);
    forall x | x in live
      ensures Total(all, x + 1) + One(e, x + 1) <= Total(ls, x + 1)
    {
      CountRemoved(ls[k], l, name, e, x + 1);
      TotalPut(ls, k, l, x + 1);
      TotalPut(mid, j, [], x + 1);
      CountOne(e, x + 1);
    }
    forall y: nat, f: Dirent | y < |all| && f in all[y]
      ensures 0 < f.ino && f.ino - 1 in live - {j}
    {
      assert f in ls[y];
      if f.ino == j + 1 {
        NamedOnce(all, y, f);
      }
    }
    forall x | x in live - {j}
      ensures Enough(all, n, x)
    {
      assert Enough(ls, m, x);
    }
  }

  // ---------------------------------------------------------------------
  // The image
  // ---------------------------------------------------------------------

  /** What kernel/diskman.c mounts at most: 32 MB. */
  const MAX_IMAGE: nat := 0x200_0000

  predicate SmallImage(d: Disk) {
    0 < |d.blocks| && |d.blocks| * d.bs <= MAX_IMAGE
  }

  /** S_ISDIR. */
  predicate IsDirectory(n: Inode) {
    n.mode / 0x1000 == 4
  }

  predicate DirAt(d: Disk, k: nat) {
    k in d.live && k < |d.inodes| && IsDirectory(d.inodes[k])
  }

  /** The entries of a directory; other inodes have none. */
  function ListOf(d: Disk, k: nat): seq<Dirent>
    requires Ptrs(d) > 0
  {
    if DirAt(d, k) then Entries(d, k) else []
  }

  function Lists(d: Disk): (ls: seq<seq<Dirent>>)
    requires Ptrs(d) > 0
    ensures |ls| == |d.inodes| && forall k: nat | k < |ls| :: ls[k] == ListOf(d, k)
  {
    seq(|d.inodes|, k requires 0 <= k => ListOf(d, k))
  }

  ghost predicate DirSound(d: Disk, k: nat)
    requires Ptrs(d) > 0
  {
    DirAt(d, k) ==> DirOk(d, k) && NoHoles(d, k)
  }

  /** The size of a file is a 32-bit number. */
  predicate FileSmall(d: Disk, k: nat) {
    k in d.live && k < |d.inodes| && !IsDirectory(d.inodes[k]) ==> d.inodes[k].size < WORD
  }

  /** The invariant of every run of directory operations. */
  ghost predicate Sound(s: State) {
    && Valid(s) && Ptrs(s.disk) > 0 && SmallImage(s.disk) && s.disk.bs < 0x1_0000 && |s.disk.inodes| < 0xFFFF_FFFF
    && (forall k: nat :: DirSound(s.disk, k) && FileSmall(s.disk, k))
    && Linked(Lists(s.disk), s.disk.live, s.disk.inodes)
  }

  lemma {:induction false} MappedCount(s: State, k: nat, n: nat)
    requires Core(s) && Ptrs(s.disk) > 0 && forall lb: nat | lb < n :: PhysOf(s.disk, k, lb) != 0
    ensures |DataBlocks(s.disk, k, n)| == n && DataBlocks(s.disk, k, n) <= Below(|s.disk.blocks|) - {0}
  {
    hide Core, PhysOf, DataBlocks, NonZero;
    if n == 0 {
      NoDataYet(s.disk, k);
    } else {
      MappedCount(s, k, n - 1);
      var b := PhysOf(s.disk, k, n - 1);
      DataBlocksNext(s, k, n - 1);
      NonZeroIs(b);
      OwnedInside(s, b);
    }
  }

  /** A directory is smaller than the image, so one more block does not take its
      size out of 32 bits. */
  lemma DirFits(s: State, k: nat)
    requires Valid(s) && DirOk(s.disk, k) && NoHoles(s.disk, k) && SmallImage(s.disk)
    ensures s.disk.inodes[k].size + s.disk.bs <= MAX_IMAGE
  {
    hide Core, Sized, Tails, PhysOf, DataBlocks, DirBlocks, Below;
    var d := s.disk;
    var n := DirBlocks(d, k);
    MappedCount(s, k, n);
    SubsetSize(DataBlocks(d, k, n), Below(|d.blocks|) - {0});
    assert |Below(|d.blocks|) - {0}| == |d.blocks| - 1;
    TimesMore(n, |d.blocks|, d.bs);
  }

  lemma TimesMore(n: nat, m: nat, bs: nat)
    requires n < m
    ensures n * bs + bs <= m * bs
  {
    MulSign(m - n, bs);
    assert (m - n) * bs == m * bs - n * bs;
  }

  /** Every size in a sound image is a 32-bit number, and stays one when a
      directory grows. */
  lemma SizesSmall(s: State, k: nat)
    requires Sound(s) && k in s.disk.live
    ensures k < |s.disk.inodes| && s.disk.inodes[k].size < WORD
    ensures DirAt(s.disk, k) ==> s.disk.inodes[k].size + s.disk.bs < WORD
  {
    hide Core, Sized, Tails, DirOk, NoHoles, Linked;
    CoreInode(s, k);
    assert DirSound(s.disk, k) && FileSmall(s.disk, k);
    if DirAt(s.disk, k) {
      DirFits(s, k);
    }
  }

  // ---------------------------------------------------------------------
  // Operations
  // ---------------------------------------------------------------------

  /** An inode that an operation does not concern lists what it listed. */
  lemma Listed(s: State, t: State, x: nat)
    requires Valid(s) && Valid(t) && Untouched(s, t, x) && s.disk.bs == t.disk.bs
    requires Ptrs(s.disk) > 0 && DirSound(s.disk, x) && FileSmall(s.disk, x)
    ensures Ptrs(t.disk) > 0 && ListOf(t.disk, x) == ListOf(s.disk, x) && DirSound(t.disk, x) && FileSmall(t.disk, x)
  {
    hide Core, Sized, Tails, SameFile, Entries, NoHoles;
    if DirAt(s.disk, x) {
      DirFrame(s, t, x);
    }
  }

  /** All inodes but `a` and `b` are as they were. */
  ghost predicate AllBut(s: State, t: State, a: nat, b: nat) {
    forall l: nat | l != a && l != b :: Untouched(s, t, l)
  }

  lemma ListedBut(s: State, t: State, a: nat, b: nat)
    requires Sound(s) && Valid(t) && s.disk.bs == t.disk.bs && AllBut(s, t, a, b)
    ensures Ptrs(t.disk) > 0
    ensures forall x: nat | x != a && x != b ::
              ListOf(t.disk, x) == ListOf(s.disk, x) && DirSound(t.disk, x) && FileSmall(t.disk, x)
  {
    hide Valid, Untouched, ListOf, DirSound, FileSmall, Linked;
    forall x: nat | x != a && x != b
      ensures ListOf(t.disk, x) == ListOf(s.disk, x) && DirSound(t.disk, x) && FileSmall(t.disk, x)
    {
      assert DirSound(s.disk, x) && FileSmall(s.disk, x);
      Listed(s, t, x);
    }
  }

  /** `t` is sound if its lists and link counts are. */
  lemma SoundBy(s: State, t: State, ls: seq<seq<Dirent>>)
    requires Sound(s) && Valid(t) && SameGeometry(s, t) && |ls| == |t.disk.inodes| && Ptrs(t.disk) > 0
    requires forall k: nat :: DirSound(t.disk, k) && FileSmall(t.disk, k)
    requires forall k: nat | k < |ls| :: ls[k] == ListOf(t.disk, k)
    ensures Lists(t.disk) == ls && (Sound(t) <==> Linked(ls, t.disk.live, t.disk.inodes))
  {
    hide Valid, DirSound, FileSmall, Linked, ListOf;
  }

  /** Directory `k` after an operation on its entries. */
  ghost predicate DirKept(s: State, t: State, k: nat) {
    && DirOk(t.disk, k) && NoHoles(t.disk, k) && k in t.disk.live
    && k < |s.disk.inodes| && t.disk.inodes[k].mode == s.disk.inodes[k].mode
  }

  lemma KeptListed(s: State, t: State, k: nat)
    requires DirAt(s.disk, k) && DirKept(s, t, k)
    ensures Ptrs(t.disk) > 0 && DirAt(t.disk, k) && ListOf(t.disk, k) == Entries(t.disk, k)
    ensures DirSound(t.disk, k) && FileSmall(t.disk, k)
  {
    hide DirOk, NoHoles, Entries;
    DirOkInode(t.disk, k);
  }

  /** What Create does keeps the image sound. */
  lemma SoundCreate(s: State, t: State, k: nat, e: Dirent, j: nat)
    requires Sound(s) && DirAt(s.disk, k) && Valid(t) && SameGeometry(s, t) && DirKept(s, t, k)
    requires t.disk.inodes[k].links == s.disk.inodes[k].links && AllBut(s, t, k, j)
    requires j !in s.disk.live && t.disk.live == s.disk.live + {j} && j < |t.disk.inodes| && e.ino == j + 1
    requires !IsDirectory(t.disk.inodes[j]) && t.disk.inodes[j].links == 1 && t.disk.inodes[j].size == 0
    requires EntryAdded(Entries(s.disk, k), Entries(t.disk, k), e)
    ensures Sound(t)
  {
    hide Valid, DirOk, NoHoles, DirKept, Entries, EntryAdded, AllBut, Linked;
    ListedBut(s, t, k, j);
    KeptListed(s, t, k);
    var ls := Lists(s.disk);
    var l := Entries(t.disk, k);
    SoundBy(s, t, ls[k := l]);
    ButLinks(s, t, k, j, s.disk.live);
    LinkFile(ls, s.disk.live, s.disk.inodes, t.disk.inodes, k, l, e, j);
  }

  lemma ButLinks(s: State, t: State, a: nat, b: nat, live: set<nat>)
    requires AllBut(s, t, a, b) && |s.disk.inodes| == |t.disk.inodes|
    ensures SameLinks(s.disk.inodes, t.disk.inodes, live - {a, b})
    ensures a < |s.disk.inodes| && t.disk.inodes[a].links == s.disk.inodes[a].links ==>
              SameLinks(s.disk.inodes, t.disk.inodes, live - {b})
  {
    hide SameFile;
    assert forall x | x in live - {a, b} :: Untouched(s, t, x);
  }

  /** An operation that failed keeps it sound. */
  lemma SoundFail(s: State, t: State, k: nat)
    requires Sound(s) && DirAt(s.disk, k) && Valid(t) && SameGeometry(s, t) && DirKept(s, t, k)
    requires t.disk.inodes[k].links == s.disk.inodes[k].links && t.disk.live == s.disk.live
    requires forall l: nat | l != k && l in s.disk.live :: Untouched(s, t, l)
    requires Entries(t.disk, k) == Entries(s.disk, k)
    ensures Sound(t)
  {
    hide Valid, DirOk, NoHoles, DirKept, Entries, Untouched;
    KeptListed(s, t, k);
    forall x: nat
      ensures ListOf(t.disk, x) == ListOf(s.disk, x) && DirSound(t.disk, x) && FileSmall(t.disk, x)
    {
      assert DirSound(s.disk, x) && FileSmall(s.disk, x);
      if x != k && x in s.disk.live {
        Listed(s, t, x);
      }
    }
    hide ListOf, DirSound, FileSmall;
    SoundBy(s, t, Lists(s.disk));
    forall j | j in s.disk.live
      ensures Enough(Lists(s.disk), t.disk.inodes, j)
    {
      assert Enough(Lists(s.disk), s.disk.inodes, j);
      if j != k {
        UntouchedInode(s, t, j);
      }
    }
  }

  lemma UntouchedInode(s: State, t: State, l: nat)
    requires Untouched(s, t, l) && l < |s.disk.inodes|
    ensures |t.disk.inodes| == |s.disk.inodes| && t.disk.inodes[l] == s.disk.inodes[l]
  {
    hide SameFile;
  }

  /** What Mkdir does keeps the image sound if and only if the parent had less than
      65535 links. */
  lemma SoundMkdir(s: State, t: State, k: nat, e: Dirent, j: nat)
    requires Sound(s) && DirAt(s.disk, k) && Valid(t) && SameGeometry(s, t) && DirKept(s, t, k)
    requires AllBut(s, t, k, j) && t.disk.inodes[k].links == (s.disk.inodes[k].links + 1) % 0x1_0000
    requires j !in s.disk.live && t.disk.live == s.disk.live + {j} && j < |t.disk.inodes| && e.ino == j + 1
    requires DirOk(t.disk, j) && NoHoles(t.disk, j) && IsDirectory(t.disk.inodes[j]) && t.disk.inodes[j].links == 2
    requires Entries(t.disk, j) == [Dot(j + 1), DotDot(k + 1)]
    requires EntryAdded(Entries(s.disk, k), Entries(t.disk, k), e)
    ensures Sound(t) <==> s.disk.inodes[k].links < 0xFFFF
  {
    hide Valid, DirOk, NoHoles, DirKept, Entries, EntryAdded, AllBut, Linked;
    ListedBut(s, t, k, j);
    KeptListed(s, t, k);
    var ls := Lists(s.disk);
    var l := Entries(t.disk, k);
    SoundBy(s, t, ls[k := l][j := [Dot(j + 1), DotDot(k + 1)]]);
    ButLinks(s, t, k, j, s.disk.live);
    assert s.disk.live - {k, j} == s.disk.live - {k};
    LinkDir(ls, s.disk.live, s.disk.inodes, t.disk.inodes, k, l, e, j);
  }

  /** What Write does to a file keeps the image sound. */
  lemma SoundWrite(s: State, t: State, k: nat)
    requires Sound(s) && Valid(t) && OthersSame(s, t, k) && t.disk.live == s.disk.live
    requires k in s.disk.live && k < |s.disk.inodes| && !IsDirectory(s.disk.inodes[k])
    requires t.disk.inodes[k].mode == s.disk.inodes[k].mode && t.disk.inodes[k].links == s.disk.inodes[k].links
    requires t.disk.inodes[k].size < WORD
    ensures Sound(t)
  {
    hide Valid, Entries, DirOk, NoHoles, SameFile;
    forall l: nat | l != k
      ensures Untouched(s, t, l)
    {
      OthersUntouched(s, t, k, l);
    }
    hide OthersSame, Untouched;
    OthersGeometry(s, t, k);
    ListedBut(s, t, k, k);
    SoundBy(s, t, Lists(s.disk));
    ButLinks(s, t, k, k, s.disk.live);
    forall j | j in s.disk.live
      ensures Enough(Lists(s.disk), t.disk.inodes, j)
    {
      assert Enough(Lists(s.disk), s.disk.inodes, j);
    }
  }

  /** The first entry of a name that is there. */
  lemma LookupRemoved(l: seq<Dirent>, name: seq<Byte>) returns (e: Dirent, r: seq<Dirent>)
    requires Lookup(l, name).Some?
    ensures EntryRemoved(l, r, name, e) && Lookup(l, name) == Some(e.ino)
  {
    hide Unnamed;
    LookupNone(l, name);
    var i := FirstNamed(l, name);
    e, r := l[i], Removed(l, i);
    hide Lookup;
    LookupAt(l, i);
  }

  lemma {:induction false} FirstNamed(l: seq<Dirent>, name: seq<Byte>) returns (i: nat)
    requires !Unnamed(l, name)
    ensures i < |l| && l[i].name == name && Unnamed(l[..i], name)
  {
    if l[0].name == name {
      return 0;
    }
    assert l == [l[0]] + l[1..];
    UnnamedJoin([l[0]], l[1..], name);
    var x := FirstNamed(l[1..], name);
    assert l[..x + 1] == [l[0]] + l[1..][..x];
    UnnamedJoin([l[0]], l[1..][..x], name);
    return x + 1;
  }

  /** Every name of a directory in a sound image leads to an inode in use. */
  lemma SoundFound(s: State, k: nat, name: seq<Byte>)
    requires Sound(s) && DirAt(s.disk, k) && Lookup(Entries(s.disk, k), name).Some?
    ensures var ino := Lookup(Entries(s.disk, k), name).value;
            0 < ino && ino - 1 in s.disk.live && ino - 1 < |s.disk.inodes| && s.disk.inodes[ino - 1].links > 0
  {
    hide Valid, Entries, DirOk, NoHoles, Lookup, EntryRemoved, Total;
    var ls := Lists(s.disk);
    var e, r := LookupRemoved(ls[k], name);
    RemovedFrom(ls[k], r, name, e);
    NamedOnce(ls, k, e);
    assert Enough(ls, s.disk.inodes, e.ino - 1);
  }

  /** Unlink while the inode has further links. */
  lemma SoundLess(s: State, t: State, k: nat, name: seq<Byte>, e: Dirent)
    requires Sound(s) && DirAt(s.disk, k) && Valid(t) && SameGeometry(s, t) && DirKept(s, t, k)
    requires e.ino > 0 && e.ino - 1 in s.disk.live && e.ino - 1 < |s.disk.inodes| && AllBut(s, t, k, e.ino - 1)
    requires var j := e.ino - 1;
             && s.disk.inodes[j].links > 1 && SameUse(s.disk, t.disk)
             && t.disk.inodes[j] == s.disk.inodes[j].(links := s.disk.inodes[j].links - 1)
             && (j != k ==> t.disk.inodes[k] == s.disk.inodes[k] && SameFile(s.disk, t.disk, j))
    requires EntryRemoved(Entries(s.disk, k), Entries(t.disk, k), name, e)
    ensures Sound(t)
  {
    hide Valid, DirOk, NoHoles, DirKept, Entries, EntryRemoved, AllBut, Linked, SameFile;
    var j := e.ino - 1;
    ListedBut(s, t, k, j);
    KeptListed(s, t, k);
    assert DirSound(s.disk, j) && FileSmall(s.disk, j);
    if j != k && DirAt(s.disk, j) {
      DirOkInode(s.disk, j);
      FrameAt(s, t, j);
    }
    var ls := Lists(s.disk);
    var l := Entries(t.disk, k);
    SoundBy(s, t, ls[k := l]);
    ButLinks(s, t, k, j, s.disk.live);
    assert k == j ==> s.disk.live - {k, j} == s.disk.live - {j};
    LinkLess(ls, s.disk.live, s.disk.inodes, t.disk.inodes, k, l, name, e);
  }

  lemma FrameAt(s: State, t: State, j: nat)
    requires Valid(s) && Valid(t) && s.disk.bs == t.disk.bs && DirOk(s.disk, j) && Ptrs(t.disk) > 0
    requires j < |t.disk.inodes| && t.disk.inodes[j].size == s.disk.inodes[j].size && SameFile(s.disk, t.disk, j)
    requires j !in t.disk.loose
    ensures DirOk(t.disk, j) && Entries(t.disk, j) == Entries(s.disk, j) && NoHoles(t.disk, j) == NoHoles(s.disk, j)
  {
    DirFrame(s, t, j);
  }

  /** Unlink of the last link of another inode than the directory. */
  lemma SoundGone(s: State, t: State, k: nat, name: seq<Byte>, e: Dirent)
    requires Sound(s) && DirAt(s.disk, k) && Valid(t) && SameGeometry(s, t) && DirKept(s, t, k)
    requires e.ino > 0 && e.ino - 1 in s.disk.live && e.ino - 1 < |s.disk.inodes| && AllBut(s, t, k, e.ino - 1)
    requires var j := e.ino - 1;
             j != k && s.disk.inodes[j].links == 1 && t.disk.live == s.disk.live - {j}
             && t.disk.inodes[k] == s.disk.inodes[k]
    requires EntryRemoved(Entries(s.disk, k), Entries(t.disk, k), name, e)
    ensures Sound(t)
  {
    hide Valid, DirOk, NoHoles, DirKept, Entries, EntryRemoved, AllBut, Linked;
    var j := e.ino - 1;
    ListedBut(s, t, k, j);
    KeptListed(s, t, k);
    var ls := Lists(s.disk);
    var l := Entries(t.disk, k);
    SoundBy(s, t, ls[k := l][j := []]);
    ButLinks(s, t, k, j, s.disk.live);
    LinkGone(ls, s.disk.live, s.disk.inodes, t.disk.inodes, k, l, name, e);
  }

  /** Unlink of the last link of the directory itself, by its own '.'. */
  lemma SoundSelf(s: State, t: State, k: nat, name: seq<Byte>)
    requires Sound(s) && DirAt(s.disk, k) && Valid(t) && SameGeometry(s, t) && AllBut(s, t, k, k)
    requires s.disk.inodes[k].links == 1 && t.disk.live == s.disk.live - {k}
    requires Lookup(Entries(s.disk, k), name) == Some(k + 1)
    ensures Sound(t)
  {
    hide Valid, DirOk, NoHoles, Entries, EntryRemoved, AllBut, Linked, Lookup;
    ListedBut(s, t, k, k);
    var ls := Lists(s.disk);
    var e, r := LookupRemoved(ls[k], name);
    assert ls[k := r][k := []] == ls[k := []];
    SoundBy(s, t, ls[k := []]);
    ButLinks(s, t, k, k, s.disk.live);
    assert s.disk.live - {k, k} == s.disk.live - {k};
    LinkGone(ls, s.disk.live, s.disk.inodes, t.disk.inodes, k, r, name, e);
  }

  // ---------------------------------------------------------------------
  // An image to start with
  // ---------------------------------------------------------------------

  /** A root directory and nothing else, with at least the links that it needs. */
  lemma SoundRoot(t: State, k: nat)
    requires Valid(t) && Ptrs(t.disk) > 0 && SmallImage(t.disk) && t.disk.bs < 0x1_0000 && |t.disk.inodes| < 0xFFFF_FFFF
    requires t.disk.live == {k} && DirAt(t.disk, k) && DirOk(t.disk, k) && NoHoles(t.disk, k)
    requires 2 <= t.disk.inodes[k].links <= 0xFFFF && Entries(t.disk, k) == [Dot(k + 1), DotDot(k + 1)]
    ensures Sound(t)
  {
    hide Valid, DirOk, NoHoles, Entries;
    var ls := Lists(t.disk);
    forall x: nat
      ensures DirSound(t.disk, x) && FileSmall(t.disk, x)
    {
    }
    var none := ls[k := []];
    forall x | 0 <= x < |none|
      ensures Count(none[x], k + 1) == 0
    {
    }
    TotalNone(none, k + 1);
    DotsCount(k + 1, k + 1, k + 1);
    TotalPut(ls, k, [], k + 1);
    CountOne(Dot(k + 1), k + 1);
    assert Enough(ls, t.disk.inodes, k);
  }

  /** An image without files whose first inode number is set aside. */
  function BlankImage(bs: nat, n: nat, m: nat): State
    requires m > 0
  {
    FreshImage(bs, n, m).(ibits := Bits.Take(Bits.AllFree(m), 0))
  }

  lemma BlankImageSmall(bs: nat, n: nat, m: nat)
    requires (n + 1) * bs <= MAX_IMAGE && m > 0 && bs > 0
    ensures SmallImage(BlankImage(bs, n, m).disk) && n < 0x1_0000_0000
  {
    MulSign(bs, n + 1);
  }

  lemma BlankValid(bs: nat, n: nat, m: nat)
    requires 1024 <= bs < 0x4_0000 && bs % 1024 == 0 && 0 < n < 0x1_0000_0000 && 1 < m
    ensures var s := BlankImage(bs, n, m);
            && Valid(s) && !Bits.Full(s.bbits) && !Bits.Full(s.ibits) && s.bbits.sb == n && s.ibits.sb == m - 1
            && forall x: nat :: Bits.IsSet(s.ibits, x) <==> x == 0
  {
    hide Bits.Counted, Bits.Full, Bits.Take;
    FreshValid(bs, n, m);
    Bits.AllFreeCounted(n);
    Bits.AllFreeCounted(m);
    var s := FreshImage(bs, n, m);
    assert forall x: nat :: !Bits.IsSet(s.ibits, x);
    TakenValid(s, 0);
    Bits.TakeCounted(s.ibits, 0);
    Bits.FullCount(s.bbits);
    Bits.FullCount(BlankImage(bs, n, m).ibits);
  }
}
