/** The FAT32 driver of fs/fat32.c: the buffered table, cluster allocation,
freeing, and file reads and writes along a chain. */
module Fat32 {
  import opened Bytes
  import opened Fat32Chains
  import opened Fat32Disk
  import opened Fat32File
  import opened Fat32Dirent

  datatype WriteResult = NoSpace | Wrote(n: nat)

  /** What a write of `len` bytes at `at` comes to when the file can have up to `n` clusters. */
  function Outcome(g: Geometry, n: nat, at: nat, len: nat): WriteResult {
    if Pos(g, n) <= at then NoSpace else Wrote(Least(len, Pos(g, n) - at))
  }

  lemma OutcomeNone(g: Geometry, n: nat, at: nat, len: nat, clusterOff: nat)
    requires n <= clusterOff && Pos(g, clusterOff) <= at
    ensures Outcome(g, n, at, len) == NoSpace
  {
    PosMono(g, n, clusterOff);
  }

  /** `done` bytes were written into `k` of the `n` clusters. */
  lemma OutcomeDone(g: Geometry, n: nat, at: nat, len: nat, done: nat, k: nat, clusterOff: nat)
    requires clusterOff < k <= n && done <= len && at + done <= Pos(g, k)
    requires at < Pos(g, clusterOff) + ClusterSize(g) && (done < len ==> k == n && at + done == Pos(g, n))
    ensures Outcome(g, n, at, len) == Wrote(done)
  {
    PosMono(g, clusterOff, k);
    PosMono(g, k, n);
  }

  lemma SpotIs(g: Geometry, off: nat, clusterOff: nat, byteOff: nat)
    requires g.spc > 0 && clusterOff == ClusterOf(g, off) % WORD && byteOff == OffsetOf(g, off)
    ensures byteOff < ClusterSize(g) && Spot(g, off) == Pos(g, clusterOff) + byteOff
  {
    Split(g, off);
  }

  class Fat32Fs {
    const g: Geometry
    var disk: Sectors
    var buf: seq<Byte>
    var bufLba: nat
    var bufDirty: bool
    var hint: nat
    var free: nat

    ghost var chains: Chains
    ghost var places: Places

    /** The logical sectors: the disk under the buffer. */
    ghost function M(): Sectors
      reads this
    {
      Merged(disk, buf, bufLba)
    }

    /** The logical table. */
    ghost function Table(): Fat
      reads this
    {
      FatOf(g, M())
    }

    ghost predicate Mounted()
      reads this
    {
      Fits(g, disk) && Buffered(g, disk, buf, bufLba, bufDirty)
    }

    /** fat32_load_sector: no entry changes, whichever sector was in the buffer. */
    method LoadSector(lba: nat)
      requires Mounted() && g.fatLba <= lba < g.dataLba
      modifies this`disk, this`buf, this`bufLba, this`bufDirty
      ensures Mounted() && M() == old(M()) && |disk| == old(|disk|) && bufLba == lba
      ensures lba < |disk| && buf == M()[lba] && bufDirty == (old(bufDirty) && old(bufLba) == lba)
    {
      if bufLba == lba {
        return;
      }
      if bufDirty {
        disk := disk[bufLba := buf];
        bufDirty := false;
      }
      buf := disk[lba];
      bufLba := lba;
    }

    /** fat32_next_cluster. */
    method NextCluster(c: nat) returns (next: nat)
      requires Mounted() && c < Clusters(g)
      modifies this`disk, this`buf, this`bufLba, this`bufDirty
      ensures Mounted() && M() == old(M()) && |disk| == old(|disk|)
      ensures next == Table()[c]
    {
      LoadSector(FatSector(g, c));
      next := Word(buf, FatIndex(c)) % MASK;
    }

    /** fat32_set_fat: the table changes at index `c` only. */
    method SetFat(c: nat, v: nat)
      requires Mounted() && c < Clusters(g)
      modifies this`disk, this`buf, this`bufLba, this`bufDirty
      ensures Mounted() && |disk| == old(|disk|)
      ensures Table() == old(Table())[c := v % MASK]
      ensures SameClusters(g, old(M()), M())
    {
      hide Word, PutWord, FatIndex, FatOf, Cluster;
      LoadSector(FatSector(g, c));
      ghost var m := M();
      MergedFits(g, disk, buf, bufLba);
      FatPut(g, m, c, v);
      buf := PutWord(buf, FatIndex(c), v % MASK);
      bufDirty := true;
      assert M() == PutEntry(g, m, c, v);
      PutEntryClusters(g, m, c, v);
    }

    /** fat32_sync: what is on the disk is the logical table. */
    method Sync()
      requires Mounted()
      modifies this`disk, this`bufDirty
      ensures Mounted() && M() == old(M()) && disk == M() && !bufDirty
    {
      if bufDirty {
        disk := disk[bufLba := buf];
        bufDirty := false;
      }
    }

    /** fat32_read_cluster. */
    method ReadCluster(c: nat) returns (out: seq<Byte>)
      requires Mounted() && 2 <= c < Clusters(g)
      ensures out == Cluster(g, M(), c)
    {
      hide LbaOf;
      LbaInside(g, disk, c);
      var lba := LbaOf(g, c);
      ClusterUnbuffered(g, disk, buf, bufLba, c);
      out := [];
      for i := 0 to g.spc
        invariant |out| == i * SECTOR
        invariant forall x: nat | x < |out| :: out[x] == ByteOf(disk, lba, x)
      {
        out := out + disk[lba + i];
      }
    }

    /** fat32_write_cluster. */
    method WriteCluster(c: nat, data: seq<Byte>)
      requires Mounted() && 2 <= c < Clusters(g) && |data| == ClusterSize(g)
      modifies this`disk
      ensures Mounted() && |disk| == old(|disk|)
      ensures Cluster(g, M(), c) == data && OnlyCluster(g, old(M()), M(), c)
    {
      hide LbaOf, FatOf, Cluster;
      LbaInside(g, disk, c);
      var lba := LbaOf(g, c);
      for i := 0 to g.spc
        invariant |disk| == old(|disk|) && Fits(g, disk) && Buffered(g, disk, buf, bufLba, bufDirty)
        invariant forall l | 0 <= l < |disk| && !(lba <= l < lba + i) :: disk[l] == old(disk)[l]
        invariant forall x: nat | x < i * SECTOR :: data[x] == ByteOf(disk, lba, x)
      {
        disk := disk[lba + i := data[i * SECTOR..(i + 1) * SECTOR]];
      }
      ClusterIs(g, disk, c, data);
      ClusterUnbuffered(g, disk, buf, bufLba, c);
      MergedFits(g, old(disk), buf, bufLba);
      OutsideOnly(g, old(M()), M(), c);
    }

    // -------------------------------------------------------------------
    // Allocation
    // -------------------------------------------------------------------

    /** The invariant of every run. */
    ghost predicate Valid()
      reads this
    {
      Mounted() && Forest(Table(), chains, places) && hint <= Clusters(g)
    }

    /** How many clusters are free, and that the count says so. */
    ghost function Left(): nat
      reads this
    {
      CountFree(Table())
    }

    ghost predicate Exact()
      reads this
    {
      free == Left()
    }

    /** fat32_init on a volume whose table holds `chains`. */
    constructor (g: Geometry, disk: Sectors, hint: nat, free: nat, ghost chains: Chains, ghost places: Places)
      requires Fits(g, disk) && Forest(FatOf(g, disk), chains, places) && hint <= Clusters(g)
      ensures Valid() && M() == disk && this.g == g && this.chains == chains && this.free == free && this.hint == hint
    {
      this.g, this.disk, this.hint, this.free := g, disk, hint, free;
      buf, bufLba, bufDirty := Zeros(SECTOR), NO_LBA, false;
      this.chains, this.places := chains, places;
    }

    /** The scan of fat32_alloc_cluster: the first free entry in `from..to`. */
    method FindFree(from: nat, to: nat) returns (c: nat)
      requires Mounted() && from <= to <= Clusters(g)
      modifies this`disk, this`buf, this`bufLba, this`bufDirty
      ensures Mounted() && M() == old(M())
      ensures from <= c <= to && (forall x: nat | from <= x < c :: Table()[x] != FREE)
      ensures c < to ==> Table()[c] == FREE
    {
      hide FatOf, Fits, Buffered, Merged;
      ghost var t := Table();
      c := from;
      while c < to
        invariant Mounted() && M() == old(M())
        invariant from <= c <= to && forall x: nat | from <= x < c :: t[x] != FREE
      {
        var val := NextCluster(c);
        if val == FREE {
          return;
        }
        c := c + 1;
      }
    }

    /** Mark the free cluster `c` as the last one of its chain, behind `prev` if
        that is not 0. */
    method Link(c: nat, prev: nat)
      requires Mounted() && 2 <= c < Clusters(g) && Table()[c] == FREE
      requires prev == 0 || (2 <= prev < Clusters(g) && Table()[prev] != FREE)
      modifies this`disk, this`buf, this`bufLba, this`bufDirty, this`hint, this`free
      ensures Mounted() && SameClusters(g, old(M()), M()) && hint == c + 1
      ensures Table() == Joined(old(Table()), c, prev)
      ensures Left() == old(Left()) - 1 && (old(Exact()) ==> Exact())
    {
      hide FatOf, Cluster, CountFree, Fits, Buffered, Merged;
      ghost var t, m := Table(), M();
      SmallNumbers(g, disk, c);
      CountFreeUpdate(t, c, EOC);
      SetFat(c, EOC);
      if prev != 0 {
        ghost var m1 := M();
        CountFreeUpdate(t[c := EOC], prev, c);
        SetFat(prev, c);
        SameClustersTransitive(g, m, m1, M());
      }
      hint := c + 1;
      if free > 0 {
        free := free - 1;
      }
    }

    /** The chains follow what `Link` did to the table `t`. */
    ghost method Adopt(c: nat, prev: nat, t: Fat)
      requires Forest(t, chains, places) && IsCluster(t, c) && t[c] == FREE
      requires prev == 0 || IsTail(chains, places, prev)
      modifies this`chains, this`places
      ensures prev < |t| && Forest(Joined(t, c, prev), chains, places)
      ensures chains == Extended(old(chains), old(places), prev, c) && c in places && c !in old(places)
      ensures IsTail(chains, places, c)
    {
      hide Forest;
      if prev != 0 {
        TailOf(t, chains, places, prev);
        NewTail(t, chains, places, places[prev].0, c);
        NewTailIs(chains, places, prev, c);
        var h := places[prev].0;
        chains, places := chains[h := chains[h] + [c]], places[c := (h, |chains[h]|)];
      } else {
        NewHead(t, chains, places, c);
        NewHeadIs(chains, places, c);
        chains, places := chains[c := [c]], places[c := (c, 0)];
      }
    }

    /** fat32_alloc_cluster: a free cluster, searched from the hint and then from
        the start; 0 exactly when there is none. */
    method AllocCluster(prev: nat) returns (c: nat)
      requires Valid() && (prev == 0 || IsTail(chains, places, prev))
      modifies this`disk, this`buf, this`bufLba, this`bufDirty, this`hint, this`free, this`chains, this`places
      ensures Valid()
      ensures c == 0 <==> NoneFree(old(Table()))
      ensures c == 0 ==> M() == old(M()) && chains == old(chains) && places == old(places)
      ensures c != 0 ==>
                && 2 <= c < Clusters(g) && old(Table()[c] == FREE)
                && chains == Extended(old(chains), old(places), prev, c) && c in places && c !in old(places)
                && IsTail(chains, places, c)
                && (forall x: nat | 2 <= x < Clusters(g) && x != c :: Cluster(g, M(), x) == old(Cluster(g, M(), x)))
                && Cluster(g, M(), c) == (if c >= old(hint) then Zeros(ClusterSize(g)) else old(Cluster(g, M(), c)))
                && (forall x: nat | 2 <= x < Clusters(g) && old(Table()[x] == FREE) ::
                      if c >= old(hint) then x < old(hint) || c <= x else c <= x < old(hint))
                && hint == c + 1
      ensures Left() == (if c == 0 then 0 else old(Left()) - 1) && (old(Exact()) ==> Exact())
    {
      hide FatOf, Cluster, CountFree, Fits, Buffered, Forest, IsTail, Merged, NoneFree, Zeros;
      ghost var t := Table();
      if prev != 0 {
        TailOf(t, chains, places, prev);
      }
      var start := if hint > 2 then hint else 2;
      c := FindFree(start, Clusters(g));
      assert Table() == t;
      if c < Clusters(g) {
        SomeFree(t, c);
        Link(c, prev);
        Adopt(c, prev, t);
        WriteCluster(c, Zeros(ClusterSize(g)));
        return;
      }
      c := FindFree(2, start);
      assert Table() == t;
      if c < start {
        SomeFree(t, c);
        Link(c, prev);
        Adopt(c, prev, t);
        return;
      }
      NoFree(t, start);
      NoneCount(t);
      return 0;
    }

    /** fat32_free_chain: every cluster of the chain becomes free, and no other. */
    method FreeChain(start: nat)
      requires Valid() && (start < 2 || start >= EOC_MIN || start in chains)
      modifies this`disk, this`buf, this`bufLba, this`bufDirty, this`free, this`chains, this`places
      ensures Valid() && SameClusters(g, old(M()), M())
      ensures start in old(chains) ==>
                && Freed(old(Table()), Table(), old(chains)[start], |old(chains)[start]|)
                && chains == old(chains) - {start}
      ensures start !in old(chains) ==> Table() == old(Table()) && chains == old(chains)
      ensures old(Exact()) ==> Exact()
    {
      hide FatOf, Cluster, CountFree, Fits, Buffered, Forest, Freed;
      ghost var t, m, f := Table(), M(), free;
      ghost var l := if start in chains then chains[start] else [];
      ghost var i := 0;
      var c := start;
      FreedNone(t, l);
      HeadOf(t, chains, places, start);
      while 2 <= c < EOC_MIN
        invariant Mounted() && SameClusters(g, m, M()) && i <= |l|
        invariant i < |l| ==> start in chains && c == l[i] && 2 <= c < |t| <= EOC_MIN
        invariant i == |l| ==> !(2 <= c < EOC_MIN)
        invariant Freed(t, Table(), l, i)
        invariant free - CountFree(Table()) == f - CountFree(t)
        decreases |l| - i
        modifies this`disk, this`buf, this`bufLba, this`bufDirty, this`free
      {
        var next := NextCluster(c);
        FreedNext(t, Table(), chains, places, start, i);
        CountFreeUpdate(Table(), c, FREE);
        SetFat(c, FREE);
        free := free + 1;
        c := next;
        i := i + 1;
      }
      if start in chains {
        ChainFreed(t, Table(), chains, places, start);
        chains, places := chains - {start}, PlacesWithout(chains, places, start);
      } else {
        FreedSame(t, Table());
      }
    }

    // -------------------------------------------------------------------
    // Files
    // -------------------------------------------------------------------

    /** The cluster after `c`, the `i`-th of chain `h`, allocated if the chain
        ends there; 0 if that is not possible. */
    method Advance(c: nat, ghost h: nat, ghost i: nat) returns (next: nat)
      requires Valid() && h in chains && i < |chains[h]| && c == chains[h][i]
      modifies this`disk, this`buf, this`bufLba, this`bufDirty, this`hint, this`free, this`chains, this`places
      ensures Valid() && GrewBy(g, old(M()), old(chains), M(), chains, h, next)
      ensures next != 0 ==> h in chains && i + 1 < |chains[h]| && next == chains[h][i + 1] && 2 <= next < Clusters(g)
      ensures next == 0 ==> NoneFree(old(Table())) && M() == old(M()) && chains == old(chains) && |chains[h]| == i + 1
      ensures h in chains && Left() + |chains[h]| == old(Left() + |chains[h]|) && (next == 0 ==> Left() == 0)
      ensures old(Exact()) ==> Exact()
    {
      hide FatOf, Cluster, CountFree, Fits, Buffered, Forest, Merged, NoneFree;
      ghost var t := Table();
      NextInChain(t, chains, places, h, i);
      next := NextCluster(c);
      HeadOf(t, chains, places, h);
      if next >= EOC_MIN || next < 2 {
        EndIsTail(t, chains, places, h, i);
        NotOnChain(t, chains, places, h);
        next := AllocCluster(c);
      }
    }

    /** Cluster numbers 0 and 1 are no clusters, and their table entries lead nowhere. */
    ghost predicate NoChain(inode: nat)
      requires Fits(g, disk)
      reads this
    {
      inode < 2 && Table()[inode] >= EOC_MIN
    }

    /** _fat32_vfs_read of a file whose chain starts at `inode`; below 2 there is none. */
    method Read(inode: nat, size: nat, off: nat, len: nat) returns (out: seq<Byte>)
      requires Valid() && (off < size ==> inode in chains || NoChain(inode))
      modifies this`disk, this`buf, this`bufLba, this`bufDirty
      ensures Valid() && M() == old(M()) && g.spc > 0
      ensures off >= size || inode !in chains ==> out == []
      ensures off < size && inode in chains ==>
                && Shows(g, M(), chains[inode], off, out)
                && |out| == Least(Least(len, size - off),
                  if Pos(g, |chains[inode]|) > off then Pos(g, |chains[inode]|) - off else 0)
    {
      hide FatOf, Cluster, Fits, Buffered, Forest, Merged, ClusterOf, OffsetOf, Pos, Shows;
      SpcPositive(g, disk);
      out := [];
      if off >= size {
        return;
      }
      var n := if off + len > size then size - off else len;
      ghost var t, m, l := Table(), M(), ChainOf(chains, inode);
      ShowsNothing(g, m, l, off);
      var clusterOff: nat, byteOff: nat := ClusterOf(g, off), OffsetOf(g, off);
      Split(g, off);
      NoLowHeads(t, chains, places);
      if inode in chains {
        HeadOf(t, chains, places, inode);
      }
      var c := inode;
      var i := 0;
      while i < clusterOff && c < EOC_MIN
        invariant Mounted() && M() == m && i <= clusterOff && (inode in chains ==> i <= |l|)
        invariant i < |l| ==> c == l[i] && 2 <= c < |t| <= EOC_MIN
        invariant inode in chains && i == |l| ==> c >= EOC_MIN
        invariant inode !in chains ==> (i == 0 && c == inode) || c >= EOC_MIN
      {
        if inode in chains {
          NextInChain(t, chains, places, inode, i);
        }
        c := NextCluster(c);
        i := i + 1;
      }
      if inode in chains {
        ReadStart(g, l, i, clusterOff, byteOff, off);
      }
      while |out| < n && 2 <= c < EOC_MIN
        invariant Mounted() && M() == m && |out| <= n
        invariant inode !in chains ==> out == [] && (c < 2 || c >= EOC_MIN)
        invariant inode in chains ==> i <= |l| && (i == |l| ==> c >= EOC_MIN)
        invariant i < |l| ==> c == l[i] && 2 <= c < |t| <= EOC_MIN
        invariant Shows(g, m, l, off, out) && byteOff <= ClusterSize(g)
        invariant i < |l| && |out| < n ==> byteOff < ClusterSize(g) && Pos(g, i) + byteOff == off + |out|
        invariant inode in chains && |out| < n && i == |l| ==>
                    off + |out| == Pos(g, |l|) || (out == [] && Pos(g, |l|) <= off)
        invariant |out| > 0 ==> off + |out| <= Pos(g, |l|)
        decreases |l| - i
      {
        var cbuf := ReadCluster(c);
        var copy := if ClusterSize(g) - byteOff > n - |out| then n - |out| else ClusterSize(g) - byteOff;
        ShowsMore(g, m, l, off, out, i, byteOff, copy);
        PosNext(g, i, |l|);
        out := out + cbuf[byteOff..byteOff + copy];
        byteOff := 0;
        NextInChain(t, chains, places, inode, i);
        c := NextCluster(c);
        i := i + 1;
      }
    }

    /** A step along the chain while a file is written, extending the chain at its end. */
    method Onward(c: nat, h: nat, ghost i: nat, ghost at: nat, ghost done: seq<Byte>, ghost m0: Sectors,
                  ghost chains0: Chains, ghost l0: seq<nat>) returns (next: nat)
      requires Valid() && h in chains && g.spc > 0 && i < |chains[h]| && c == chains[h][i]
      requires UnderWay(g, m0, chains0, l0, M(), chains, h, at, done)
      requires done == [] || at + |done| <= Pos(g, |chains[h]|)
      modifies this`disk, this`buf, this`bufLba, this`bufDirty, this`hint, this`free, this`chains, this`places
      ensures Valid() && h in chains && UnderWay(g, m0, chains0, l0, M(), chains, h, at, done)
      ensures next != 0 ==> i + 1 < |chains[h]| && next == chains[h][i + 1]
      ensures next == 0 ==> NoneFree(Table()) && Left() == 0 && |chains[h]| == i + 1
      ensures old(|chains[h]|) <= |chains[h]| && Left() + |chains[h]| == old(Left() + |chains[h]|)
      ensures old(Exact()) ==> Exact()
    {
      hide FatOf, Fits, Buffered, Forest, Merged, UnderWay, GrewBy, NoneFree, CountFree, Pos;
      ghost var m, ch, t, pl := M(), chains, Table(), places;
      next := Advance(c, h, i);
      UnderWayGrew(g, m0, chains0, l0, m, ch, M(), chains, h, next, at, done, t, pl);
    }

    /** The walk of _fat32_vfs_write to the cluster with index `clusterOff`,
        extending the chain where it is too short. */
    method Seek(h: nat, clusterOff: nat, ghost at: nat, ghost m0: Sectors, ghost chains0: Chains, ghost l0: seq<nat>)
      returns (c: nat)
      requires Valid() && h in chains && g.spc > 0
      requires UnderWay(g, m0, chains0, l0, M(), chains, h, at, [])
      modifies this`disk, this`buf, this`bufLba, this`bufDirty, this`hint, this`free, this`chains, this`places
      ensures Valid() && h in chains && UnderWay(g, m0, chains0, l0, M(), chains, h, at, [])
      ensures c != 0 ==> clusterOff < |chains[h]| && c == chains[h][clusterOff]
      ensures c == 0 ==> NoneFree(Table()) && Left() == 0 && |chains[h]| <= clusterOff
      ensures Left() + |chains[h]| == old(Left() + |chains[h]|) && (old(Exact()) ==> Exact())
    {
      hide FatOf, Fits, Buffered, Forest, Merged, UnderWay, NoneFree, CountFree;
      HeadOf(Table(), chains, places, h);
      c := h;
      for ci := 0 to clusterOff
        invariant Valid() && h in chains && UnderWay(g, m0, chains0, l0, M(), chains, h, at, [])
        invariant ci < |chains[h]| && c == chains[h][ci] && c != 0
        invariant Left() + |chains[h]| == old(Left() + |chains[h]|) && (old(Exact()) ==> Exact())
      {
        c := Onward(c, h, ci, at, [], m0, chains0, l0);
        if c == 0 {
          return;
        }
      }
    }

    /** Copy `chunk` into cluster `c` at `boff`, reading the cluster first unless
        all of it is overwritten. */
    method PutChunk(c: nat, boff: nat, chunk: seq<Byte>)
      requires Valid() && 2 <= c < Clusters(g) && boff + |chunk| <= ClusterSize(g)
      modifies this`disk
      ensures Valid() && Table() == old(Table())
      ensures Cluster(g, M(), c) == Splice(old(Cluster(g, M(), c)), boff, chunk) && OnlyCluster(g, old(M()), M(), c)
    {
      hide FatOf, Fits, Buffered, Forest, Merged, Cluster;
      var cbuf := Zeros(ClusterSize(g));
      if boff != 0 || |chunk| < ClusterSize(g) {
        cbuf := ReadCluster(c);
      }
      ghost var was := Cluster(g, M(), c);
      assert Splice(cbuf, boff, chunk) == Splice(was, boff, chunk);
      WriteCluster(c, Splice(cbuf, boff, chunk));
    }

    /** The same for the `i`-th cluster of a file that is being written. */
    method PutPart(c: nat, boff: nat, chunk: seq<Byte>, ghost h: nat, ghost i: nat, ghost at: nat,
                   ghost done: seq<Byte>, ghost m0: Sectors, ghost chains0: Chains, ghost l0: seq<nat>)
      requires Valid() && h in chains && g.spc > 0 && i < |chains[h]| && c == chains[h][i]
      requires UnderWay(g, m0, chains0, l0, M(), chains, h, at, done)
      requires boff + |chunk| <= ClusterSize(g) && Pos(g, i) + boff == at + |done|
      modifies this`disk
      ensures Valid() && Table() == old(Table())
      ensures UnderWay(g, m0, chains0, l0, M(), chains, h, at, done + chunk)
      ensures at + |done + chunk| <= Pos(g, |chains[h]|)
    {
      hide FatOf, Fits, Buffered, Forest, Merged, UnderWay, Pos, Cluster, Splice, OnlyCluster;
      ghost var m, t := M(), Table();
      NextInChain(t, chains, places, h, i);
      PutChunk(c, boff, chunk);
      UnderWayChunk(g, m0, chains0, l0, m, chains, M(), h, i, boff, at, done, chunk, t, places);
    }

    /** The write loop of _fat32_vfs_write, starting in cluster `first` at `boff`. A
        short write stops where the chain ends, with no cluster left. */
    method WriteFrom(h: nat, first: nat, boff: nat, ghost at: nat, data: seq<Byte>, ghost ci: nat,
                     ghost m0: Sectors, ghost chains0: Chains, ghost l0: seq<nat>) returns (done: nat)
      requires Valid() && h in chains && g.spc > 0 && data != []
      requires UnderWay(g, m0, chains0, l0, M(), chains, h, at, [])
      requires ci < |chains[h]| && first == chains[h][ci] && boff < ClusterSize(g) && Pos(g, ci) + boff == at
      modifies this`disk, this`buf, this`bufLba, this`bufDirty, this`hint, this`free, this`chains, this`places
      ensures Valid() && h in chains && done <= |data| && ci < |chains[h]|
      ensures UnderWay(g, m0, chains0, l0, M(), chains, h, at, data[..done]) && at + done <= Pos(g, |chains[h]|)
      ensures done < |data| ==> NoneFree(Table()) && Left() == 0 && at + done == Pos(g, |chains[h]|)
      ensures Left() + |chains[h]| == old(Left() + |chains[h]|) && (old(Exact()) ==> Exact())
    {
      hide FatOf, Fits, Buffered, Forest, Merged, UnderWay, NoneFree, Pos, ClusterSize, CountFree;
      SpcPositive(g, disk);
      var c: nat, byteOff: nat := first, boff;
      ghost var i: nat := ci;
      done := 0;
      assert data[..0] == [];
      while done < |data|
        invariant Valid() && h in chains && done <= |data| && ci < |chains[h]|
        invariant UnderWay(g, m0, chains0, l0, M(), chains, h, at, data[..done])
        invariant done < |data| ==>
                    && i < |chains[h]| && c == chains[h][i]
                    && 0 <= byteOff < ClusterSize(g) && Pos(g, i) + byteOff == at + done
        invariant done > 0 ==> at + done <= Pos(g, |chains[h]|)
        invariant Left() + |chains[h]| == old(Left() + |chains[h]|) && (old(Exact()) ==> Exact())
        decreases |data| - done
      {
        var copy := if ClusterSize(g) - byteOff > |data| - done then |data| - done else ClusterSize(g) - byteOff;
        PutPart(c, byteOff, data[done..done + copy], h, i, at, data[..done], m0, chains0, l0);
        assert data[..done] + data[done..done + copy] == data[..done + copy];
        done := done + copy;
        byteOff := 0;
        if done < |data| {
          ghost var n := |chains[h]|;
          c := Onward(c, h, i, at, data[..done], m0, chains0, l0);
          PosNext(g, i, i + 1);
          PosMono(g, n, |chains[h]|);
          if c == 0 {
            break;
          }
          i := i + 1;
        }
      }
    }

    /** The data part of _fat32_vfs_write: `data` at `off` into the file whose chain
        starts at `inode`; a new file has no chain. How much is written depends on
        the clusters that are left and on those that the file has. */
    method WriteFile(inode: nat, size: nat, off: nat, data: seq<Byte>) returns (r: WriteResult, inode': nat, size': nat)
      requires Valid() && (inode >= 2 ==> inode in chains)
      modifies this`disk, this`buf, this`bufLba, this`bufDirty, this`hint, this`free, this`chains, this`places
      ensures Valid() && g.spc > 0 && (old(Exact()) ==> Exact())
      ensures data == [] ==>
                r == Wrote(0) && inode' == inode && size' == size && M() == old(M()) && chains == old(chains)
      ensures data != [] ==>
                && r == Outcome(g, old(Left() + |ChainOf(chains, inode)|), Spot(g, off), |data|)
                && Left() + |ChainOf(chains, inode')| == old(Left() + |ChainOf(chains, inode)|)
      ensures r.NoSpace? ==>
                && size' == size && NoneFree(Table())
                && Unwritten(g, old(M()), old(chains), M(), chains, inode, inode', Spot(g, off))
      ensures r.Wrote? && data != [] ==>
                && inode' in chains && 2 <= inode' < WORD && OtherChains(old(chains), chains, inode')
                && (if inode >= 2 then inode' == inode else inode' !in old(chains))
                && r.n <= |data| && (r.n < |data| ==> NoneFree(Table()))
                && Writing(g, old(M()), old(ChainOf(chains, inode)), M(), chains[inode'], Spot(g, off), data[..r.n])
                && Spot(g, off) + r.n <= Pos(g, |chains[inode']|)
                && size' == SizeAfter(size, off + |data|)
    {
      hide FatOf, Fits, Buffered, Forest, Merged, ClusterOf, OffsetOf, Pos, Writing, NoneFree, OtherChains, Cluster,
        CountFree, IsTail, Spot, Outcome;
      SpcPositive(g, disk);
      inode', size' := inode, size;
      if data == [] {
        return Wrote(0), inode, size;
      }
      ghost var m0, chains0, l0, at := M(), chains, ChainOf(chains, inode), Spot(g, off);
      ghost var room := Left() + |l0|;
      var clusterOff: nat, byteOff: nat := ClusterOf(g, off) % WORD, OffsetOf(g, off);
      SpotIs(g, off, clusterOff, byteOff);
      NoLowHeads(Table(), chains, places);
      if inode < 2 {
        FreshHeads(Table(), chains, places);
        var c := AllocCluster(0);
        if c < 2 {
          OutcomeNone(g, room, at, |data|, clusterOff);
          return NoSpace, inode, size;
        }
        UnderWayNew(g, m0, chains0, M(), c, at);
        inode' := c;
      } else {
        UnderWayStart(g, m0, chains0, inode, at);
      }
      var c := Seek(inode', clusterOff, at, m0, chains0, l0);
      if c < 2 {
        NoLowClusters(Table(), chains, places, inode');
        OutcomeNone(g, room, at, |data|, clusterOff);
        return NoSpace, inode', size;
      }
      var done := WriteFrom(inode', c, byteOff, at, data, clusterOff, m0, chains0, l0);
      OutcomeDone(g, room, at, |data|, done, |chains[inode']|, clusterOff);
      size' := if off + |data| > size then (off + |data|) % WORD else size;
      HeadOf(Table(), chains, places, inode');
      return Wrote(done), inode', size';
    }

    /** The rest of it: first cluster and size go into the directory entry `idx` of
        the directory that starts at `dir`, if the file has one there. */
    method WriteDirent(dir: nat, idx: nat, first: nat, size: nat)
      requires Valid() && g.spc > 0 && (dir != 0 ==> dir in chains) && first < WORD && size < WORD
      modifies this`disk, this`buf, this`bufLba, this`bufDirty
      ensures Valid() && Table() == old(Table())
      ensures Stamp(g, old(M()), M(), Home(g, chains, dir, idx), DirOffset(g, idx), first, size)
      ensures dir != 0 && HasRecord(g, chains[dir], idx) ==>
                Recorded(g, M(), chains[dir], idx, first, size) && OnlyRecord(g, old(M()), M(), chains[dir], idx)
      ensures dir == 0 || !HasRecord(g, chains[dir], idx) ==> M() == old(M())
    {
      hide FatOf, Cluster, Fits, Buffered, Forest, Merged, DirIndex, DirOffset, Stamped, HasRecord, Recorded,
        OnlyRecord;
      if dir != 0 {
        HasRecordIs(g, chains[dir], idx);
        ChainClusters(Table(), chains, places, dir);
      }
      if dir == 0 || idx == NO_ENTRY {
        return;
      }
      ghost var t, m, l := Table(), M(), chains[dir];
      var dirCi, o := DirIndex(g, idx), DirOffset(g, idx);
      DirentInside(g, idx);
      HeadOf(t, chains, places, dir);
      var dc := dir;
      var i := 0;
      while i < dirCi && dc != 0
        invariant Mounted() && M() == m && i <= dirCi && i <= |l| && Table() == t
        invariant i < |l| ==> dc == l[i] && 2 <= dc < |t| <= EOC_MIN
        invariant i == |l| ==> dc == 0
        decreases dirCi - i, dc
      {
        NextInChain(t, chains, places, dir, i);
        dc := NextCluster(dc);
        i := i + 1;
        if dc >= EOC_MIN || dc < 2 {
          dc := 0;
        }
      }
      if dc >= 2 {
        var dbuf := ReadCluster(dc);
        WriteCluster(dc, Stamped(dbuf, o, first, size));
        StampRecord(g, m, M(), l, idx, first, size);
        StampOnly(g, m, M(), l, idx, first, size);
      }
    }

    /** _fat32_vfs_write. `mid` is what the sectors show before the directory entry
        is brought up to date. */
    method Write(inode: nat, size: nat, off: nat, data: seq<Byte>, dir: nat, idx: nat)
      returns (r: WriteResult, inode': nat, size': nat, ghost mid: Sectors)
      requires Valid() && (inode >= 2 ==> inode in chains) && size < WORD
      requires dir != 0 ==> dir in chains && dir != inode
      modifies this`disk, this`buf, this`bufLba, this`bufDirty, this`hint, this`free, this`chains, this`places
      ensures Valid() && g.spc > 0 && (old(Exact()) ==> Exact())
      ensures data == [] ==>
                r == Wrote(0) && inode' == inode && size' == size && M() == old(M()) && chains == old(chains)
      ensures data != [] ==>
                && r == Outcome(g, old(Left() + |ChainOf(chains, inode)|), Spot(g, off), |data|)
                && Left() + |ChainOf(chains, inode')| == old(Left() + |ChainOf(chains, inode)|)
      ensures r.NoSpace? ==>
                && size' == size && NoneFree(Table())
                && Unwritten(g, old(M()), old(chains), M(), chains, inode, inode', Spot(g, off))
      ensures r.Wrote? && data != [] ==>
                && inode' in chains && 2 <= inode' < WORD && OtherChains(old(chains), chains, inode')
                && (if inode >= 2 then inode' == inode else inode' !in old(chains))
                && r.n <= |data| && (r.n < |data| ==> NoneFree(Table()))
                && size' == SizeAfter(size, off + |data|) < WORD && Spot(g, off) + r.n <= Pos(g, |chains[inode']|)
                && Writing(g, old(M()), old(ChainOf(chains, inode)), mid, chains[inode'], Spot(g, off), data[..r.n])
                && Stamp(g, mid, M(), Home(g, chains, dir, idx), DirOffset(g, idx), inode', size')
                && SameOn(g, mid, M(), chains[inode']) && disk == M()
      ensures r.Wrote? && data != [] && dir != 0 ==>
                && dir in chains && chains[dir] == old(chains[dir])
                && OnlyRecord(g, old(M()), M(), chains[dir], idx)
                && (if HasRecord(g, chains[dir], idx) then Recorded(g, M(), chains[dir], idx, inode', size')
                    else M() == mid)
    {
      hide FatOf, Fits, Buffered, Forest, Merged, Pos, NoneFree, Cluster, Stamp, Home, DirOffset, FileByte, Writing,
        OtherChains, SameOn, Spot, Outcome, CountFree, HasRecord, Recorded, OnlyRecord;
      r, inode', size' := WriteFile(inode, size, off, data);
      mid := M();
      if r.NoSpace? || data == [] {
        return;
      }
      SizeAfterIs(size, off + |data|);
      OtherChainsKeep(old(chains), chains, inode', dir);
      if dir != 0 {
        DirectoryKept(g, old(M()), old(ChainOf(chains, inode)), mid, Table(), chains, places, inode', dir, idx,
                      Spot(g, off), data[..r.n]);
      }
      WriteDirent(dir, idx, inode', size');
      if dir != 0 && HasRecord(g, chains[dir], idx) {
        OnlyRecordMore(g, old(M()), mid, M(), chains[dir], idx);
      }
      ChainClusters(Table(), chains, places, inode');
      if Home(g, chains, dir, idx) >= 2 {
        HomeApart(g, Table(), chains, places, dir, idx, inode');
      }
      StampElsewhere(g, mid, M(), Home(g, chains, dir, idx), DirOffset(g, idx), inode', size', chains[inode']);
      Sync();
    }

    /** A write of all the data is read back exactly if and only if it ends below 2^32. */
    method WriteThenRead(inode: nat, size: nat, off: nat, data: seq<Byte>, dir: nat, idx: nat)
      returns (r: WriteResult, inode': nat, size': nat, out: seq<Byte>)
      requires Valid() && (inode >= 2 ==> inode in chains) && size < WORD
      requires dir != 0 ==> dir in chains && dir != inode
      modifies this`disk, this`buf, this`bufLba, this`bufDirty, this`hint, this`free, this`chains, this`places
      ensures Valid() && (r == Wrote(|data|) && data != [] ==> (out == data <==> off + |data| < WORD))
    {
      hide Valid, Pos, Writing, NoneFree, OtherChains, Cluster, Merged, FatOf, Stamp, Home, DirOffset, FileByte, SameOn,
        Spot, SizeAfter, Outcome;
      out := [];
      ghost var mid;
      r, inode', size', mid := Write(inode, size, off, data, dir, idx);
      if r == Wrote(|data|) && data != [] {
        out := Read(inode', size', off, |data|);
        SizeAfterIs(size, off + |data|);
        if off + |data| < WORD {
          SpotSame(g, off);
          assert data[..|data|] == data;
          WritingData(g, old(M()), old(ChainOf(chains, inode)), mid, chains[inode'], off, data);
          ShowsElsewhere(g, mid, M(), chains[inode'], off, data);
          ReadBack(g, M(), chains[inode'], off, data, out);
        }
      }
    }

    /** After a write, byte `x` of the old file is read if and only if it lies below the
        new size: all of them, if and only if `size <= size'`. */
    method WriteThenReadOld(inode: nat, size: nat, off: nat, data: seq<Byte>, dir: nat, idx: nat, x: nat)
      returns (r: WriteResult, inode': nat, size': nat, out: seq<Byte>)
      requires Valid() && inode in chains && inode >= 2 && size < WORD
      requires dir != 0 ==> dir in chains && dir != inode
      requires x < size && g.spc > 0 && x < Pos(g, |chains[inode]|)
      modifies this`disk, this`buf, this`bufLba, this`bufDirty, this`hint, this`free, this`chains, this`places
      ensures Valid() && (r.Wrote? ==> size' == if data == [] then size else SizeAfter(size, off + |data|))
      ensures r.Wrote? && !(Spot(g, off) <= x < Spot(g, off) + r.n) ==>
                out == if x < size' then [old(FileByte(g, M(), chains[inode], x))] else []
    {
      hide Valid, Pos, Writing, NoneFree, OtherChains, Cluster, Merged, FatOf, Stamp, Home, DirOffset, FileByte, SameOn,
        Spot, SizeAfter, Outcome;
      out := [];
      ghost var mid;
      r, inode', size', mid := Write(inode, size, off, data, dir, idx);
      if r.Wrote? {
        if data == [] {
          mid := M();
          WritingStart(g, mid, chains[inode], Spot(g, off));
          SameOnSelf(g, mid, chains[inode]);
        }
        out := Read(inode', size', x, 1);
        OldByte(g, old(M()), old(chains[inode]), mid, M(), chains[inode'], Spot(g, off), data[..r.n], x, out);
      }
    }
  }
}
