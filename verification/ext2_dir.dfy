/** Directory blocks of fs/ext2.c: records laid end to end by their rec_len.

A record whose inode number is 0 is a free slot. The scans of the source step
from record to record; they agree on what a block holds only as long as the
lengths tile the block exactly, through slot reuse, splitting and deletion. */
module Ext2Dir {
  import opened Wrappers
  import opened Bytes
  import opened Ext2Map

  /** A live directory entry. */
  datatype Dirent = Dirent(name: seq<Byte>, ino: nat, kind: Byte)

  const HEADER: nat := 8

  function InoAt(b: Block, o: nat): nat
    requires o + HEADER <= |b|
  {
    FromLe32(b[o], b[o + 1], b[o + 2], b[o + 3])
  }

  function LenAt(b: Block, o: nat): nat
    requires o + HEADER <= |b|
  {
    b[o + 4] as int + 0x100 * b[o + 5] as int
  }

  function NameLenAt(b: Block, o: nat): nat
    requires o + HEADER <= |b|
  {
    b[o + 6] as int
  }

  /** (8 + n + 3) & ~3: the space a record with an `n`-byte name needs. */
  function Needed(n: nat): (r: nat)
    ensures r % 4 == 0 && HEADER + n <= r < HEADER + n + 4
  {
    (HEADER + n + 3) / 4 * 4
  }

  /** A record of `b` starts at `o` and stays inside the block. */
  predicate Record(b: Block, o: nat) {
    && o + HEADER <= |b| && HEADER <= LenAt(b, o) && LenAt(b, o) % 4 == 0 && o + LenAt(b, o) <= |b|
    && (InoAt(b, o) != 0 ==> HEADER + NameLenAt(b, o) <= LenAt(b, o))
  }

  /** Records lead from `o` to exactly `end`. */
  predicate Chain(b: Block, o: nat, end: nat)
    decreases |b| - o
  {
    o == end || (o < end && Record(b, o) && Chain(b, o + LenAt(b, o), end))
  }

  function DirentAt(b: Block, o: nat): Dirent
    requires Record(b, o) && InoAt(b, o) != 0
  {
    Dirent(b[o + HEADER..o + HEADER + NameLenAt(b, o)], InoAt(b, o), b[o + 7])
  }

  function EntryAt(b: Block, o: nat): seq<Dirent>
    requires Record(b, o)
  {
    if InoAt(b, o) == 0 then [] else [DirentAt(b, o)]
  }

  /** The live entries between `o` and `end`. */
  function Walk(b: Block, o: nat, end: nat): seq<Dirent>
    requires Chain(b, o, end)
    decreases |b| - o
  {
    if o == end then [] else EntryAt(b, o) + Walk(b, o + LenAt(b, o), end)
  }

  /** The records tile the block exactly. */
  predicate Tiled(b: Block) {
    Chain(b, 0, |b|)
  }

  /** All live entries of a block. */
  function Live(b: Block): seq<Dirent>
    requires Tiled(b)
  {
    Walk(b, 0, |b|)
  }

  lemma {:induction false} ChainInside(b: Block, o: nat, end: nat)
    requires Chain(b, o, end) && o <= |b|
    ensures o <= end <= |b|
    decreases |b| - o
  {
    if o != end {
      ChainInside(b, o + LenAt(b, o), end);
    }
  }

  /** Two stretches of records join. */
  lemma {:induction false} ChainJoin(b: Block, o: nat, mid: nat, end: nat)
    requires Chain(b, o, mid) && Chain(b, mid, end) && o <= |b|
    ensures Chain(b, o, end) && Walk(b, o, end) == Walk(b, o, mid) + Walk(b, mid, end)
    decreases |b| - o
  {
    hide EntryAt, LenAt;
    if o != mid {
      var next := o + LenAt(b, o);
      ChainJoin(b, next, mid, end);
      ChainInside(b, next, mid);
      ChainInside(b, mid, end);
      var e, w, v := EntryAt(b, o), Walk(b, next, mid), Walk(b, mid, end);
      assert e + (w + v) == (e + w) + v;
    }
  }

  /** Bytes outside a stretch do not matter to it. */
  ghost predicate Agree(b: Block, c: Block, from: nat, to: nat) {
    |b| == |c| && to <= |b| && forall i | from <= i < to :: b[i] == c[i]
  }

  lemma RecordFrame(b: Block, c: Block, o: nat)
    requires Record(b, o) && Agree(b, c, o, o + LenAt(b, o))
    ensures Record(c, o) && LenAt(c, o) == LenAt(b, o) && EntryAt(c, o) == EntryAt(b, o)
  {
    assert forall i | o <= i < o + HEADER :: c[i] == b[i];
    if InoAt(b, o) != 0 {
      assert b[o + HEADER..o + HEADER + NameLenAt(b, o)] == c[o + HEADER..o + HEADER + NameLenAt(b, o)];
    }
  }

  lemma {:induction false} ChainFrame(b: Block, c: Block, o: nat, end: nat)
    requires Chain(b, o, end) && o <= |b| && Agree(b, c, o, end)
    ensures Chain(c, o, end) && Walk(c, o, end) == Walk(b, o, end)
    decreases |b| - o
  {
    if o != end {
      ChainInside(b, o + LenAt(b, o), end);
      RecordFrame(b, c, o);
      ChainFrame(b, c, o + LenAt(b, o), end);
    }
  }

  /** One record as a stretch. */
  lemma ChainOne(b: Block, o: nat)
    requires Record(b, o)
    ensures Chain(b, o, o + LenAt(b, o)) && Walk(b, o, o + LenAt(b, o)) == EntryAt(b, o)
  {
    assert Chain(b, o + LenAt(b, o), o + LenAt(b, o));
  }

  function Cat(p: seq<Dirent>, m: seq<Dirent>, q: seq<Dirent>): seq<Dirent> {
    p + (m + q)
  }

  /** Replacing the record at `o` by other records of the same total length
      leaves the rest of the block as it was. */
  lemma Replaced(b: Block, c: Block, o: nat, end: nat)
    requires Chain(b, 0, o) && Record(b, o) && end == o + LenAt(b, o) && Chain(b, end, |b|)
    requires Agree(b, c, 0, o) && Agree(b, c, end, |b|) && Chain(c, o, end)
    ensures Tiled(b) && Tiled(c)
    ensures Live(b) == Cat(Walk(b, 0, o), EntryAt(b, o), Walk(b, end, |b|))
    ensures Live(c) == Cat(Walk(b, 0, o), Walk(c, o, end), Walk(b, end, |b|))
  {
    ChainOne(b, o);
    hide Walk, Chain, EntryAt, LenAt;
    ChainJoin(b, o, end, |b|);
    ChainJoin(b, 0, o, |b|);
    ChainFrame(b, c, 0, o);
    ChainFrame(b, c, end, |b|);
    ChainJoin(c, o, end, |c|);
    ChainJoin(c, 0, o, |c|);
  }

  // ---------------------------------------------------------------------
  // Changing records
  // ---------------------------------------------------------------------

  /** `e` can be stored: a 32-bit inode number other than 0, a name of at most 255 bytes. */
  predicate Storable(e: Dirent) {
    0 < e.ino < 0x1_0000_0000 && |e.name| < 0x100
  }

  function Header(ino: nat, len: nat, nameLen: nat, kind: Byte): (h: Block)
    requires ino < 0x1_0000_0000 && len < 0x1_0000 && nameLen < 0x100
    ensures |h| == HEADER
  {
    var v1 := ino / 0x100;
    var v2 := v1 / 0x100;
    [ino % 0x100, v1 % 0x100, v2 % 0x100, v2 / 0x100, len % 0x100, len / 0x100, nameLen, kind]
  }

  /** Write a record of length `len` holding `e` at `o`. */
  function PutRecord(b: Block, o: nat, len: nat, e: Dirent): (c: Block)
    requires Storable(e) && len < 0x1_0000 && o + HEADER + |e.name| <= |b|
    ensures |c| == |b|
  {
    Splice(b, o, Header(e.ino, len, |e.name|, e.kind) + e.name)
  }

  lemma PutRecordAt(b: Block, o: nat, len: nat, e: Dirent)
    requires Storable(e) && HEADER + |e.name| <= len < 0x1_0000 && len % 4 == 0 && o + len <= |b|
    ensures var c := PutRecord(b, o, len, e);
            && Record(c, o) && LenAt(c, o) == len && EntryAt(c, o) == [e]
            && Agree(b, c, 0, o) && Agree(b, c, o + len, |b|)
  {
    var h := Header(e.ino, len, |e.name|, e.kind);
    var c := PutRecord(b, o, len, e);
    assert forall i | 0 <= i < HEADER :: c[o + i] == h[i];
    FromToLe32(e.ino);
    assert c[o + 4] == h[4] && c[o + 5] == h[5] && c[o + 6] == h[6] && c[o + 7] == h[7];
    assert c[o + HEADER..o + HEADER + |e.name|] == e.name;
  }

  /** Shrink the record at `o` to `len` bytes. */
  function SetLen(b: Block, o: nat, len: nat): (c: Block)
    requires o + HEADER <= |b| && len < 0x1_0000
    ensures |c| == |b|
  {
    b[o + 4 := len % 0x100][o + 5 := len / 0x100]
  }

  lemma SetLenAt(b: Block, o: nat, len: nat)
    requires Record(b, o) && HEADER <= len <= LenAt(b, o) && len % 4 == 0 && len < 0x1_0000
    requires InoAt(b, o) != 0 ==> HEADER + NameLenAt(b, o) <= len
    ensures var c := SetLen(b, o, len);
            && Record(c, o) && LenAt(c, o) == len && EntryAt(c, o) == EntryAt(b, o)
            && Agree(b, c, 0, o) && Agree(b, c, o + len, |b|)
  {
    var c := SetLen(b, o, len);
    if InoAt(b, o) != 0 {
      assert b[o + HEADER..o + HEADER + NameLenAt(b, o)] == c[o + HEADER..o + HEADER + NameLenAt(b, o)];
    }
  }

  /** Mark the record at `o` deleted. */
  function ClearIno(b: Block, o: nat): (c: Block)
    requires o + HEADER <= |b|
    ensures |c| == |b|
  {
    b[o := 0][o + 1 := 0][o + 2 := 0][o + 3 := 0]
  }

  lemma ClearInoAt(b: Block, o: nat)
    requires Record(b, o)
    ensures var c := ClearIno(b, o);
            && Record(c, o) && LenAt(c, o) == LenAt(b, o) && EntryAt(c, o) == []
            && Agree(b, c, 0, o) && Agree(b, c, o + LenAt(b, o), |b|)
  {
  }

  // ---------------------------------------------------------------------
  // Adding an entry to a block
  // ---------------------------------------------------------------------

  /** The record at `o` has room for `needed` bytes: a free slot that is large
      enough, or a live record with that much padding. */
  predicate Fits(b: Block, o: nat, needed: nat)
    requires Record(b, o)
  {
    if InoAt(b, o) == 0 then LenAt(b, o) >= needed
    else LenAt(b, o) - Needed(NameLenAt(b, o)) >= needed
  }

  /** A removed record leaves room for every name that is no longer than its own. */
  lemma RemovedFits(b: Block, o: nat, n: nat)
    requires Record(b, o) && InoAt(b, o) != 0 && n <= NameLenAt(b, o)
    ensures Record(ClearIno(b, o), o) && Fits(ClearIno(b, o), o, Needed(n))
  {
    hide Needed;
    ClearInoAt(b, o);
    NeededMono(n, NameLenAt(b, o));
  }

  lemma NeededMono(n: nat, m: nat)
    requires n <= m
    ensures Needed(n) <= Needed(m)
    ensures forall len: nat | len % 4 == 0 && HEADER + m <= len :: Needed(m) <= len
  {
  }

  /** No record of the block has room. */
  ghost predicate FullFor(b: Block, needed: nat) {
    forall o: nat | o < |b| && Chain(b, 0, o) :: Record(b, o) && !Fits(b, o, needed)
  }

  function AddAt(b: Block, o: nat, e: Dirent): (c: Block)
    requires Record(b, o) && Storable(e) && Fits(b, o, Needed(|e.name|))
    ensures |c| == |b|
  {
    if InoAt(b, o) == 0 then PutRecord(b, o, LenAt(b, o), e)
    else
      var used := Needed(NameLenAt(b, o));
      PutRecord(SetLen(b, o, used), o + used, LenAt(b, o) - used, e)
  }

  /** `e` put into `l` before position `i`. */
  function Inserted(l: seq<Dirent>, i: nat, e: Dirent): seq<Dirent>
    requires i <= |l|
  {
    l[..i] + ([e] + l[i..])
  }

  lemma InsertedMid(l: seq<Dirent>, r: seq<Dirent>, p: seq<Dirent>, m: seq<Dirent>, q: seq<Dirent>, e: Dirent)
    requires l == Cat(p, m, q) && r == Cat(p, m + [e], q)
    ensures |p| + |m| <= |l| && r == Inserted(l, |p| + |m|, e)
  {
    assert l[..|p| + |m|] == p + m;
    assert l[|p| + |m|..] == q;
    assert p + m + ([e] + q) == p + ((m + [e]) + q);
  }

  /** The records in place of the one at `o` hold what it held, and `e`. */
  lemma AddAtLocal(b: Block, o: nat, e: Dirent)
    requires Record(b, o) && Storable(e) && Fits(b, o, Needed(|e.name|))
    ensures var c := AddAt(b, o, e); var end := o + LenAt(b, o);
            && Agree(b, c, 0, o) && Agree(b, c, end, |b|)
            && Chain(c, o, end) && Walk(c, o, end) == EntryAt(b, o) + [e]
  {
    var c := AddAt(b, o, e);
    var len := LenAt(b, o);
    if InoAt(b, o) == 0 {
      PutRecordAt(b, o, len, e);
      ChainOne(c, o);
    } else {
      AddAtSplit(b, o, e);
    }
  }

  lemma AddAtSplit(b: Block, o: nat, e: Dirent)
    requires Record(b, o) && Storable(e) && Fits(b, o, Needed(|e.name|)) && InoAt(b, o) != 0
    ensures var c := AddAt(b, o, e); var end := o + LenAt(b, o);
            && Agree(b, c, 0, o) && Agree(b, c, end, |b|)
            && Chain(c, o, end) && Walk(c, o, end) == EntryAt(b, o) + [e]
  {
    var c, len, used := AddAt(b, o, e), LenAt(b, o), Needed(NameLenAt(b, o));
    SplitRecords(b, o, e);
    hide AddAt, LenAt, EntryAt, Record, InoAt, NameLenAt;
    ChainTwo(c, o, used, len);
  }

  lemma ChainTwo(c: Block, o: nat, used: nat, len: nat)
    requires Record(c, o) && LenAt(c, o) == used <= len && Record(c, o + used) && LenAt(c, o + used) == len - used
    ensures Chain(c, o, o + len) && Walk(c, o, o + len) == EntryAt(c, o) + EntryAt(c, o + used)
  {
    ChainOne(c, o);
    ChainOne(c, o + used);
    hide Walk, Chain, EntryAt, LenAt;
    ChainJoin(c, o, o + used, o + len);
  }

  lemma LenRange(b: Block, o: nat)
    requires Record(b, o)
    ensures LenAt(b, o) < 0x1_0000
  {
  }

  lemma SplitRecords(b: Block, o: nat, e: Dirent)
    requires Record(b, o) && Storable(e) && Fits(b, o, Needed(|e.name|)) && InoAt(b, o) != 0
    ensures var c := AddAt(b, o, e); var used := Needed(NameLenAt(b, o)); var len := LenAt(b, o);
            && Record(c, o) && LenAt(c, o) == used && EntryAt(c, o) == EntryAt(b, o)
            && used <= len && Record(c, o + used) && LenAt(c, o + used) == len - used && EntryAt(c, o + used) == [e]
            && Agree(b, c, 0, o) && Agree(b, c, o + len, |b|)
  {
    hide PutRecord, SetLen, InoAt, NameLenAt, EntryAt, LenAt;
    LenRange(b, o);
    var c, len, used := AddAt(b, o, e), LenAt(b, o), Needed(NameLenAt(b, o));
    var m := SetLen(b, o, used);
    SetLenAt(b, o, used);
    PutRecordAt(m, o + used, len - used, e);
    RecordFrame(m, c, o);
  }

  /** Adding an entry keeps the tiling and inserts exactly that entry. */
  lemma AddAtLive(b: Block, o: nat, e: Dirent)
    requires Chain(b, 0, o) && Record(b, o) && Chain(b, o + LenAt(b, o), |b|)
    requires Storable(e) && Fits(b, o, Needed(|e.name|))
    ensures Tiled(b) && Tiled(AddAt(b, o, e))
    ensures var i := |Walk(b, 0, o)| + |EntryAt(b, o)|;
            i <= |Live(b)| && Live(AddAt(b, o, e)) == Inserted(Live(b), i, e)
  {
    hide AddAt, Walk, Chain, EntryAt, LenAt, Fits, Inserted, Live, Tiled, Agree, Cat;
    var c, end := AddAt(b, o, e), o + LenAt(b, o);
    AddAtLocal(b, o, e);
    Replaced(b, c, o, end);
    InsertedMid(Live(b), Live(c), Walk(b, 0, o), EntryAt(b, o), Walk(b, end, |b|), e);
  }

  /** The slack scan of ext2_dir_add_entry: the first record with room. */
  method FindSlot(b: Block, needed: nat) returns (r: Option<nat>)
    requires Tiled(b)
    ensures r.Some? ==>
              && Chain(b, 0, r.value) && Record(b, r.value) && Chain(b, r.value + LenAt(b, r.value), |b|)
              && Fits(b, r.value, needed)
    ensures r.None? ==> FullFor(b, needed)
  {
    var o := 0;
    while o + HEADER <= |b|
      invariant o <= |b| && Chain(b, 0, o) && Chain(b, o, |b|)
      invariant forall p: nat | p < o && Chain(b, 0, p) :: Record(b, p) && !Fits(b, p, needed)
      decreases |b| - o
    {
      if Fits(b, o, needed) {
        return Some(o);
      }
      ScanStep(b, o);
      o := o + LenAt(b, o);
    }
    return None;
  }

  /** Stepping over one record skips no record. */
  lemma ScanStep(b: Block, o: nat)
    requires Chain(b, 0, o) && Record(b, o)
    ensures Chain(b, 0, o + LenAt(b, o))
    ensures forall p: nat | Chain(b, 0, p) && p < o + LenAt(b, o) :: p <= o
  {
    ChainOne(b, o);
    ChainJoin(b, 0, o, o + LenAt(b, o));
    forall p: nat | Chain(b, 0, p) && p < o + LenAt(b, o)
      ensures p <= o
    {
      if p > o {
        ChainComparable(b, 0, o, p);
      }
    }
  }

  /** A stretch of records that ends past `o`, where a record starts, ends past that record. */
  lemma {:induction false} ChainComparable(b: Block, a: nat, o: nat, p: nat)
    requires Chain(b, a, o) && Record(b, o) && Chain(b, a, p) && a <= |b| && p > o
    ensures p >= o + LenAt(b, o)
    decreases |b| - a
  {
    if a == o {
      ChainInside(b, a + LenAt(b, a), p);
    } else {
      ChainComparable(b, a + LenAt(b, a), o, p);
    }
  }

  // ---------------------------------------------------------------------
  // Finding and removing an entry in a block
  // ---------------------------------------------------------------------

  ghost predicate Unnamed(l: seq<Dirent>, name: seq<Byte>) {
    forall i | 0 <= i < |l| :: l[i].name != name
  }

  lemma UnnamedJoin(p: seq<Dirent>, q: seq<Dirent>, name: seq<Byte>)
    ensures Unnamed(p + q, name) <==> Unnamed(p, name) && Unnamed(q, name)
  {
    var l := p + q;
    assert forall i | 0 <= i < |p| :: l[i] == p[i];
    assert forall i | 0 <= i < |q| :: l[|p| + i] == q[i];
  }

  /** The live record at `o` has the name `name`. */
  predicate Names(b: Block, o: nat, name: seq<Byte>)
    requires Record(b, o)
  {
    InoAt(b, o) != 0 && DirentAt(b, o).name == name
  }

  /** The name scan of ext2_finddir and ext2_unlink_op: the first live record
      with the name. */
  method FindName(b: Block, name: seq<Byte>) returns (r: Option<nat>)
    requires Tiled(b)
    ensures r.Some? ==>
              && Chain(b, 0, r.value) && Record(b, r.value) && Chain(b, r.value + LenAt(b, r.value), |b|)
              && Names(b, r.value, name) && Unnamed(Walk(b, 0, r.value), name)
    ensures r.None? ==> Unnamed(Live(b), name)
  {
    var o := 0;
    while o + HEADER <= |b|
      invariant o <= |b| && Chain(b, 0, o) && Chain(b, o, |b|)
      invariant Unnamed(Walk(b, 0, o), name)
      decreases |b| - o
    {
      if Names(b, o, name) {
        return Some(o);
      }
      NameStep(b, o, name);
      o := o + LenAt(b, o);
    }
    return None;
  }

  lemma EntryUnnamed(b: Block, o: nat, name: seq<Byte>)
    requires Record(b, o) && !Names(b, o, name)
    ensures Unnamed(EntryAt(b, o), name)
  {
  }

  lemma NameStep(b: Block, o: nat, name: seq<Byte>)
    requires Chain(b, 0, o) && Record(b, o) && !Names(b, o, name) && Unnamed(Walk(b, 0, o), name)
    ensures Chain(b, 0, o + LenAt(b, o)) && Unnamed(Walk(b, 0, o + LenAt(b, o)), name)
  {
    hide Chain, Walk, EntryAt, LenAt, Names;
    EntryUnnamed(b, o, name);
    ChainOne(b, o);
    ChainJoin(b, 0, o, o + LenAt(b, o));
    UnnamedJoin(Walk(b, 0, o), EntryAt(b, o), name);
  }

  function Removed(l: seq<Dirent>, i: nat): seq<Dirent>
    requires i < |l|
  {
    l[..i] + l[i + 1..]
  }

  lemma RemovedMid(l: seq<Dirent>, r: seq<Dirent>, p: seq<Dirent>, e: Dirent, q: seq<Dirent>)
    requires l == Cat(p, [e], q) && r == Cat(p, [], q)
    ensures |p| < |l| && l[|p|] == e && r == Removed(l, |p|)
  {
    assert l[..|p|] == p;
    assert l[|p| + 1..] == q;
    assert [] + q == q;
  }

  /** Deleting a record keeps the tiling and removes exactly that entry. */
  lemma ClearInoLive(b: Block, o: nat)
    requires Chain(b, 0, o) && Record(b, o) && Chain(b, o + LenAt(b, o), |b|) && InoAt(b, o) != 0
    ensures Tiled(b) && Tiled(ClearIno(b, o))
    ensures var i := |Walk(b, 0, o)|;
            i < |Live(b)| && Live(b)[i] == DirentAt(b, o) && Live(ClearIno(b, o)) == Removed(Live(b), i)
  {
    hide Walk, Chain, Live, Tiled, Agree, Cat, Removed;
    var c, end := ClearIno(b, o), o + LenAt(b, o);
    ClearInoAt(b, o);
    ChainOne(c, o);
    Replaced(b, c, o, end);
    RemovedMid(Live(b), Live(c), Walk(b, 0, o), DirentAt(b, o), Walk(b, end, |b|));
  }

  /** The counting scan of ext2_readdir inside one block: the `n`-th live entry,
      or how many there are. */
  method NthIn(b: Block, n: nat) returns (r: Option<Dirent>, count: nat)
    requires Tiled(b)
    ensures r == if n < |Live(b)| then Some(Live(b)[n]) else None
    ensures r.None? ==> count == |Live(b)|
  {
    var o := 0;
    count := 0;
    r := None;
    while o < |b|
      invariant o <= |b| && Chain(b, 0, o) && Chain(b, o, |b|)
      invariant count == |Walk(b, 0, o)| <= n
      decreases |b| - o
    {
      ChainOne(b, o);
      ChainJoin(b, 0, o, o + LenAt(b, o));
      if InoAt(b, o) != 0 {
        if count == n {
          NthFound(b, o);
          return Some(DirentAt(b, o)), count;
        }
        count := count + 1;
      }
      o := o + LenAt(b, o);
    }
  }

  lemma NthFound(b: Block, o: nat)
    requires Chain(b, 0, o) && Record(b, o) && Chain(b, o + LenAt(b, o), |b|) && InoAt(b, o) != 0
    ensures Tiled(b) && |Walk(b, 0, o)| < |Live(b)| && Live(b)[|Walk(b, 0, o)|] == DirentAt(b, o)
  {
    ClearInoLive(b, o);
  }
}
