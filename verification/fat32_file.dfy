/** A FAT32 file as a flat array: the clusters of its chain, end to end. */
module Fat32File {
  import opened Arith
  import opened Bytes
  import opened Fat32Chains
  import opened Fat32Disk

  function Pos(g: Geometry, ci: nat): nat {
    ci * ClusterSize(g)
  }

  function ClusterOf(g: Geometry, x: nat): nat
    requires g.spc > 0
  {
    x / ClusterSize(g)
  }

  function OffsetOf(g: Geometry, x: nat): nat
    requires g.spc > 0
  {
    x % ClusterSize(g)
  }

  lemma Split(g: Geometry, x: nat)
    requires g.spc > 0
    ensures OffsetOf(g, x) < ClusterSize(g) && Pos(g, ClusterOf(g, x)) + OffsetOf(g, x) == x
  {
    assert x == x / ClusterSize(g) * ClusterSize(g) + x % ClusterSize(g);
  }

  lemma Join(g: Geometry, ci: nat, y: nat)
    requires g.spc > 0 && y < ClusterSize(g)
    ensures ClusterOf(g, Pos(g, ci) + y) == ci && OffsetOf(g, Pos(g, ci) + y) == y
  {
    DivUnique(ci * ClusterSize(g) + y, ClusterSize(g), ci, y);
  }

  const WORD: nat := 0x1_0000_0000

  /** Where a write at `off` lands: the cluster index has 32 bits. */
  function Spot(g: Geometry, off: nat): nat
    requires g.spc > 0
  {
    Pos(g, ClusterOf(g, off) % WORD) + OffsetOf(g, off)
  }

  lemma SpotSame(g: Geometry, off: nat)
    requires g.spc > 0 && off < WORD
    ensures Spot(g, off) == off
  {
    Split(g, off);
    var n := ClusterOf(g, off);
    MulSign(ClusterSize(g), n);
    DivUnique(n, WORD, 0, n);
  }

  /** In general it lands at the remainder. */
  lemma SpotIsRemainder(g: Geometry, off: nat)
    requires g.spc > 0
    ensures WORD * ClusterSize(g) > 0 && Spot(g, off) == off % (WORD * ClusterSize(g))
  {
    var cs, n := ClusterSize(g), ClusterOf(g, off);
    var q, r, o := n / WORD, n % WORD, OffsetOf(g, off);
    Split(g, off);
    SpotSum(cs, n, q, r, o);
    DivUnique(off, WORD * cs, q, r * cs + o);
  }

  lemma SpotSum(cs: nat, n: nat, q: nat, r: nat, o: nat)
    requires cs > 0 && n == q * WORD + r && r < WORD && o < cs
    ensures n * cs + o == q * (WORD * cs) + (r * cs + o) && r * cs + o < WORD * cs
  {
    MulSign(WORD - r, cs);
    assert (WORD - r) * cs == WORD * cs - r * cs;
    assert (q * WORD + r) * cs == q * (WORD * cs) + r * cs;
  }

  /** The size after a write up to `end`, in 32 bits. */
  function SizeAfter(size: nat, end: nat): nat {
    if end > size then end % WORD else size
  }

  lemma SizeAfterIs(size: nat, end: nat)
    requires size < WORD
    ensures SizeAfter(size, end) < WORD
    ensures end <= SizeAfter(size, end) <==> end < WORD
    ensures end < WORD ==> size <= SizeAfter(size, end)
  {
    if end < WORD {
      DivUnique(end, WORD, 0, end);
    }
  }

  /** Byte `y` of the `ci`-th cluster of chain `l`. */
  function CellAt(g: Geometry, m: Sectors, l: seq<nat>, ci: nat, y: nat): Byte {
    if ci < |l| && l[ci] >= 2 && y < ClusterSize(g) then Cluster(g, m, l[ci])[y] else 0
  }

  /** Byte `x` of the file with chain `l`. */
  function FileByte(g: Geometry, m: Sectors, l: seq<nat>, x: nat): Byte
    requires g.spc > 0
  {
    CellAt(g, m, l, ClusterOf(g, x), OffsetOf(g, x))
  }

  lemma PosMono(g: Geometry, a: nat, b: nat)
    ensures a < b ==> Pos(g, a) + ClusterSize(g) <= Pos(g, b)
    ensures a <= b ==> Pos(g, a) <= Pos(g, b)
  {
    MulSign(b - a, ClusterSize(g));
    assert (b - a) * ClusterSize(g) == b * ClusterSize(g) - a * ClusterSize(g);
  }

  lemma InsideChain(g: Geometry, l: seq<nat>, x: nat)
    requires g.spc > 0 && x < Pos(g, |l|)
    ensures ClusterOf(g, x) < |l|
  {
    Split(g, x);
    PosMono(g, |l|, ClusterOf(g, x));
  }

  /** `out` is the file from `off` on. */
  ghost predicate Shows(g: Geometry, m: Sectors, l: seq<nat>, off: nat, out: seq<Byte>)
    requires g.spc > 0
  {
    forall i: nat | i < |out| :: out[i] == FileByte(g, m, l, off + i)
  }

  lemma ShowsMore(g: Geometry, m: Sectors, l: seq<nat>, off: nat, out: seq<Byte>, ci: nat, boff: nat, n: nat)
    requires g.spc > 0 && Shows(g, m, l, off, out) && ci < |l| && l[ci] >= 2
    requires boff + n <= ClusterSize(g) && Pos(g, ci) + boff == off + |out|
    ensures Shows(g, m, l, off, out + Cluster(g, m, l[ci])[boff..boff + n])
  {
    hide ClusterOf, OffsetOf, Cluster, Pos;
    var more := Cluster(g, m, l[ci])[boff..boff + n];
    forall i: nat | i < |out + more|
      ensures (out + more)[i] == FileByte(g, m, l, off + i)
    {
      if i >= |out| {
        Join(g, ci, boff + (i - |out|));
        assert off + i == Pos(g, ci) + (boff + (i - |out|));
      }
    }
  }

  // ---------------------------------------------------------------------
  // Writing
  // ---------------------------------------------------------------------

  /** A cluster that was just allocated is blank or shows what it did before. */
  predicate Fresh(g: Geometry, m: Sectors, e: Sectors, c: nat) {
    c >= 2 && (Cluster(g, e, c) == Zeros(ClusterSize(g)) || Cluster(g, e, c) == Cluster(g, m, c))
  }

  /** The file shows `done` at `off`, and elsewhere up to the end of the old
      chain `l0` what it showed in `m0`; behind it, zeros or what the new clusters
      held before. Clusters off the chain are untouched. */
  ghost predicate Writing(g: Geometry, m0: Sectors, l0: seq<nat>, m: Sectors, l: seq<nat>, off: nat, done: seq<Byte>)
    requires g.spc > 0
  {
    && l0 <= l
    && (forall x: nat | off <= x < off + |done| :: FileByte(g, m, l, x) == done[x - off])
    && (forall x: nat | x < Pos(g, |l0|) && !(off <= x < off + |done|) ::
          FileByte(g, m, l, x) == FileByte(g, m0, l0, x))
    && (forall x: nat | Pos(g, |l0|) <= x && !(off <= x < off + |done|) ::
          FileByte(g, m, l, x) == 0 || FileByte(g, m, l, x) == FileByte(g, m0, l, x))
    && (forall c: nat | 2 <= c < Clusters(g) && c !in l :: Cluster(g, m, c) == Cluster(g, m0, c))
  }

  /** Only clusters outside `l` may differ. */
  ghost predicate SameOn(g: Geometry, m: Sectors, e: Sectors, l: seq<nat>) {
    forall i | 0 <= i < |l| && l[i] >= 2 :: Cluster(g, e, l[i]) == Cluster(g, m, l[i])
  }

  lemma SameOnSelf(g: Geometry, m: Sectors, l: seq<nat>)
    ensures SameOn(g, m, m, l)
  {
    hide Cluster;
  }

  lemma FileByteSame(g: Geometry, m: Sectors, e: Sectors, l: seq<nat>, k: seq<nat>, x: nat)
    requires g.spc > 0 && l <= k && SameOn(g, m, e, l) && x < Pos(g, |l|)
    ensures FileByte(g, e, k, x) == FileByte(g, m, l, x)
  {
    hide Cluster, ClusterOf, OffsetOf, Pos;
    InsideChain(g, l, x);
  }

  /** Hanging one more cluster onto the chain. */
  lemma WritingGrown(g: Geometry, m0: Sectors, l0: seq<nat>, m: Sectors, l: seq<nat>, e: Sectors, c: nat, off: nat,
                     done: seq<Byte>)
    requires g.spc > 0 && Writing(g, m0, l0, m, l, off, done) && (done == [] || off + |done| <= Pos(g, |l|))
    requires forall x: nat | 2 <= x < Clusters(g) && x != c :: Cluster(g, e, x) == Cluster(g, m, x)
    requires c !in l && c < Clusters(g) && (forall i | 0 <= i < |l| :: 2 <= l[i] < Clusters(g)) && Fresh(g, m, e, c)
    ensures Writing(g, m0, l0, e, l + [c], off, done)
  {
    hide Cluster, ClusterOf, OffsetOf, Pos, FileByte, CellAt;
    var k := l + [c];
    assert SameOn(g, m, e, l);
    PosMono(g, |l0|, |l|);
    forall x: nat | off <= x < off + |done|
      ensures FileByte(g, e, k, x) == done[x - off]
    {
      FileByteSame(g, m, e, l, k, x);
    }
    forall x: nat | x < Pos(g, |l0|) && !(off <= x < off + |done|)
      ensures FileByte(g, e, k, x) == FileByte(g, m0, l0, x)
    {
      FileByteSame(g, m, e, l, k, x);
    }
    forall x: nat | Pos(g, |l0|) <= x && !(off <= x < off + |done|)
      ensures FileByte(g, e, k, x) == 0 || FileByte(g, e, k, x) == FileByte(g, m0, k, x)
    {
      if x < Pos(g, |l|) {
        FileByteSame(g, m, e, l, k, x);
        SameOnSelf(g, m0, l);
        FileByteSame(g, m0, m0, l, k, x);
      } else {
        FileByteLast(g, m0, m, e, l, c, x);
      }
    }
    assert c in k;
    assert forall x :: x in l ==> x in k;
  }

  lemma FileByteLast(g: Geometry, m0: Sectors, m: Sectors, e: Sectors, l: seq<nat>, c: nat, x: nat)
    requires g.spc > 0 && Fresh(g, m, e, c) && Cluster(g, m, c) == Cluster(g, m0, c) && Pos(g, |l|) <= x
    ensures FileByte(g, e, l + [c], x) == 0 || FileByte(g, e, l + [c], x) == FileByte(g, m0, l + [c], x)
  {
    hide Cluster, ClusterOf, OffsetOf, Pos;
    Split(g, x);
    PosMono(g, ClusterOf(g, x), |l|);
  }

  /** Writing part of the `ci`-th cluster. */
  lemma FileByteWritten(g: Geometry, m: Sectors, e: Sectors, l: seq<nat>, ci: nat, boff: nat, chunk: seq<Byte>, x: nat)
    requires g.spc > 0 && ci < |l| && (forall i | 0 <= i < |l| :: 2 <= l[i] < Clusters(g))
    requires forall i | 0 <= i < |l| && i != ci :: l[i] != l[ci]
    requires boff + |chunk| <= ClusterSize(g)
    requires Cluster(g, e, l[ci]) == Splice(Cluster(g, m, l[ci]), boff, chunk)
    requires forall c: nat | 2 <= c < Clusters(g) && c != l[ci] :: Cluster(g, e, c) == Cluster(g, m, c)
    ensures FileByte(g, e, l, x) ==
            if Pos(g, ci) + boff <= x < Pos(g, ci) + boff + |chunk| then chunk[x - Pos(g, ci) - boff]
            else FileByte(g, m, l, x)
  {
    hide Cluster, ClusterOf, OffsetOf, Pos;
    Split(g, x);
    var cx, y := ClusterOf(g, x), OffsetOf(g, x);
    if Pos(g, ci) + boff <= x < Pos(g, ci) + boff + |chunk| {
      Join(g, ci, x - Pos(g, ci));
    }
  }

  lemma WritingChunk(g: Geometry, m0: Sectors, l0: seq<nat>, m: Sectors, l: seq<nat>, e: Sectors,
                     ci: nat, boff: nat, off: nat, done: seq<Byte>, chunk: seq<Byte>)
    requires g.spc > 0 && Writing(g, m0, l0, m, l, off, done)
    requires ci < |l| && (forall i | 0 <= i < |l| :: 2 <= l[i] < Clusters(g))
    requires forall i | 0 <= i < |l| && i != ci :: l[i] != l[ci]
    requires boff + |chunk| <= ClusterSize(g) && Pos(g, ci) + boff == off + |done|
    requires Cluster(g, e, l[ci]) == Splice(Cluster(g, m, l[ci]), boff, chunk)
    requires forall c: nat | 2 <= c < Clusters(g) && c != l[ci] :: Cluster(g, e, c) == Cluster(g, m, c)
    ensures Writing(g, m0, l0, e, l, off, done + chunk)
  {
    hide Cluster, ClusterOf, OffsetOf, Pos, FileByte, CellAt;
    forall x: nat
      ensures FileByte(g, e, l, x) ==
              if off + |done| <= x < off + |done| + |chunk| then chunk[x - off - |done|] else FileByte(g, m, l, x)
    {
      FileByteWritten(g, m, e, l, ci, boff, chunk, x);
    }
    forall x: nat | off <= x < off + |done + chunk|
      ensures FileByte(g, e, l, x) == (done + chunk)[x - off]
    {
    }
  }

  lemma WritingStart(g: Geometry, m: Sectors, l: seq<nat>, off: nat)
    requires g.spc > 0
    ensures Writing(g, m, l, m, l, off, [])
  {
    hide Cluster, FileByte, Pos;
  }

  /** Clusters of a chain exist and are distinct. */
  lemma ChainClusters(fat: Fat, chains: Chains, places: Places, h: nat)
    requires Forest(fat, chains, places) && h in chains
    ensures forall i | 0 <= i < |chains[h]| :: 2 <= chains[h][i] < |fat|
    ensures forall i, j | 0 <= i < j < |chains[h]| :: chains[h][i] != chains[h][j]
  {
    forall i | 0 <= i < |chains[h]|
      ensures 2 <= chains[h][i] < |fat|
    {
      NextInChain(fat, chains, places, h, i);
    }
    forall i, j | 0 <= i < j < |chains[h]|
      ensures chains[h][i] != chains[h][j]
    {
      if chains[h][i] == chains[h][j] {
        ForestDisjoint(fat, chains, places, h, i, h, j);
      }
    }
  }

  /** A write to one file leaves every other file as it was. */
  lemma OtherFilesKept(g: Geometry, m0: Sectors, l0: seq<nat>, m: Sectors, fat: Fat, chains: Chains, places: Places,
                       h: nat, other: nat, off: nat, done: seq<Byte>, x: nat)
    requires g.spc > 0 && Forest(fat, chains, places) && |fat| == Clusters(g) && h in chains && other in chains
             && h != other
    requires Writing(g, m0, l0, m, chains[h], off, done)
    ensures FileByte(g, m, chains[other], x) == FileByte(g, m0, chains[other], x)
  {
    hide Cluster, ClusterOf, OffsetOf, Forest;
    ChainClusters(fat, chains, places, other);
    var ci := ClusterOf(g, x);
    if ci < |chains[other]| {
      ForestApart(fat, chains, places, other, ci, h);
    }
  }

  lemma ForestApart(fat: Fat, chains: Chains, places: Places, h: nat, i: nat, other: nat)
    requires Forest(fat, chains, places) && h in chains && other in chains && h != other && i < |chains[h]|
    ensures chains[h][i] !in chains[other]
  {
    forall j: nat | j < |chains[other]|
      ensures chains[other][j] != chains[h][i]
    {
      if chains[other][j] == chains[h][i] {
        ForestDisjoint(fat, chains, places, h, i, other, j);
      }
    }
  }

  /** Reading where the data shows gives the data. */
  lemma ReadBack(g: Geometry, m: Sectors, l: seq<nat>, off: nat, data: seq<Byte>, out: seq<Byte>)
    requires g.spc > 0 && |out| == |data| && Shows(g, m, l, off, out)
    requires forall x: nat | off <= x < off + |data| :: FileByte(g, m, l, x) == data[x - off]
    ensures out == data
  {
    hide FileByte;
    forall i: nat | i < |out|
      ensures out[i] == data[i]
    {
      assert FileByte(g, m, l, off + i) == data[off + i - off];
    }
  }

  lemma WritingData(g: Geometry, m0: Sectors, l0: seq<nat>, m: Sectors, l: seq<nat>, off: nat, data: seq<Byte>)
    requires g.spc > 0 && Writing(g, m0, l0, m, l, off, data)
    ensures forall x: nat | off <= x < off + |data| :: FileByte(g, m, l, x) == data[x - off]
  {
    hide FileByte;
  }

  lemma OtherChainsKeep(chains: Chains, next: Chains, h: nat, other: nat)
    requires OtherChains(chains, next, h)
    ensures other in chains && other != h ==> other in next && next[other] == chains[other]
  {
    assert other in chains && other != h ==> other in chains - {h};
  }

  // ---------------------------------------------------------------------
  // Chains that grow while a file is written
  // ---------------------------------------------------------------------

  /** `e`, `next` differ from `m`, `chains` at most by one new cluster `c` at the
      end of chain `h`. */
  ghost predicate GrewBy(g: Geometry, m: Sectors, chains: Chains, e: Sectors, next: Chains, h: nat, c: nat) {
    && h in chains
    && ((e == m && next == chains)
        || (&& c !in chains[h] && c < Clusters(g) && next == chains[h := chains[h] + [c]] && Fresh(g, m, e, c)
            && forall x: nat | 2 <= x < Clusters(g) && x != c :: Cluster(g, e, x) == Cluster(g, m, x)))
  }

  /** Chains other than `h` are the same. */
  ghost predicate OtherChains(chains: Chains, next: Chains, h: nat) {
    h in next && next - {h} == chains - {h}
  }

  lemma OtherChainsGrew(chains: Chains, mid: Chains, next: Chains, h: nat, g: Geometry, m: Sectors, e: Sectors, c: nat)
    requires OtherChains(chains, mid, h) && GrewBy(g, m, mid, e, next, h, c)
    ensures OtherChains(chains, next, h) && mid[h] <= next[h]
  {
    hide Cluster;
  }

  lemma WritingGrew(g: Geometry, m0: Sectors, l0: seq<nat>, m: Sectors, chains: Chains, e: Sectors, next: Chains,
                    h: nat, c: nat, off: nat, done: seq<Byte>, fat: Fat, places: Places)
    requires g.spc > 0 && GrewBy(g, m, chains, e, next, h, c) && Forest(fat, chains, places) && |fat| == Clusters(g)
    requires Writing(g, m0, l0, m, chains[h], off, done) && (done == [] || off + |done| <= Pos(g, |chains[h]|))
    ensures h in next && Writing(g, m0, l0, e, next[h], off, done)
  {
    hide Cluster, Forest, Writing, Pos;
    ChainClusters(fat, chains, places, h);
    if !(e == m && next == chains) {
      WritingGrown(g, m0, l0, m, chains[h], e, c, off, done);
    }
  }

  function Least(a: nat, b: nat): nat {
    if a < b then a else b
  }

  lemma ShowsNothing(g: Geometry, m: Sectors, l: seq<nat>, off: nat)
    requires g.spc > 0
    ensures Shows(g, m, l, off, [])
  {
  }

  lemma SpcPositive(g: Geometry, disk: Sectors)
    requires Fits(g, disk)
    ensures g.spc > 0 && ClusterSize(g) > 0
  {
  }

  /** After the walk to the starting cluster: there, or at the end of a chain that is too short. */
  lemma ReadStart(g: Geometry, l: seq<nat>, i: nat, clusterOff: nat, byteOff: nat, off: nat)
    requires i <= |l| && (i == clusterOff || i == |l|) && i <= clusterOff && Pos(g, clusterOff) + byteOff == off
    ensures i < |l| ==> Pos(g, i) + byteOff == off
    ensures i == |l| ==> Pos(g, |l|) <= off
    ensures i < |l| ==> Pos(g, i) + ClusterSize(g) <= Pos(g, |l|)
  {
    PosMono(g, |l|, clusterOff);
    PosMono(g, i, |l|);
  }

  lemma PosNext(g: Geometry, i: nat, n: nat)
    requires i < n
    ensures Pos(g, i + 1) == Pos(g, i) + ClusterSize(g) <= Pos(g, n)
  {
    PosMono(g, i, n);
    assert (i + 1) * ClusterSize(g) == i * ClusterSize(g) + ClusterSize(g);
  }

  /** The chain of a file; a file without clusters has none. */
  function ChainOf(chains: Chains, h: nat): seq<nat> {
    if h in chains then chains[h] else []
  }

  /** A write under way: the file shows `done`, the other chains are as they were. */
  ghost predicate UnderWay(g: Geometry, m0: Sectors, chains0: Chains, l0: seq<nat>, m: Sectors, chains: Chains,
                           h: nat, off: nat, done: seq<Byte>)
    requires g.spc > 0
  {
    OtherChains(chains0, chains, h) && Writing(g, m0, l0, m, chains[h], off, done)
  }

  /** A write to the file at `inode` that found no space: its chain may have grown,
      or have been started, but no byte of a file differs and no other chain does. */
  ghost predicate Unwritten(g: Geometry, m0: Sectors, chains0: Chains, m: Sectors, chains: Chains,
                            inode: nat, h: nat, off: nat)
    requires g.spc > 0
  {
    && (if inode >= 2 then h == inode else h !in chains0)
    && (if h < 2 then m == m0 && chains == chains0
        else UnderWay(g, m0, chains0, ChainOf(chains0, inode), m, chains, h, off, []))
  }

  lemma UnderWayStart(g: Geometry, m: Sectors, chains: Chains, h: nat, off: nat)
    requires g.spc > 0 && h in chains
    ensures UnderWay(g, m, chains, chains[h], m, chains, h, off, [])
  {
    hide Writing;
    WritingStart(g, m, chains[h], off);
  }

  lemma UnderWayNew(g: Geometry, m: Sectors, chains: Chains, e: Sectors, c: nat, off: nat)
    requires g.spc > 0 && 2 <= c < Clusters(g)
    requires forall x: nat | 2 <= x < Clusters(g) && x != c :: Cluster(g, e, x) == Cluster(g, m, x)
    requires Fresh(g, m, e, c)
    ensures UnderWay(g, m, chains, [], e, chains[c := [c]], c, off, [])
  {
    hide Writing, Cluster, Fresh;
    WritingStart(g, m, [], off);
    WritingGrown(g, m, [], m, [], e, c, off, []);
    assert [] + [c] == [c];
    var next := chains[c := [c]];
    assert next - {c} == chains - {c};
  }

  lemma UnderWayGrew(g: Geometry, m0: Sectors, chains0: Chains, l0: seq<nat>, m: Sectors, chains: Chains,
                     e: Sectors, next: Chains, h: nat, c: nat, off: nat, done: seq<Byte>, fat: Fat, places: Places)
    requires g.spc > 0 && UnderWay(g, m0, chains0, l0, m, chains, h, off, done)
    requires GrewBy(g, m, chains, e, next, h, c) && Forest(fat, chains, places) && |fat| == Clusters(g)
    requires done == [] || off + |done| <= Pos(g, |chains[h]|)
    ensures UnderWay(g, m0, chains0, l0, e, next, h, off, done)
    ensures h in next && h in chains && |chains[h]| <= |next[h]|
  {
    hide Writing, GrewBy, Forest, Pos, OtherChains;
    OtherChainsHas(chains0, chains, h);
    OtherChainsGrew(chains0, chains, next, h, g, m, e, c);
    WritingGrew(g, m0, l0, m, chains, e, next, h, c, off, done, fat, places);
  }

  lemma OtherChainsHas(chains: Chains, next: Chains, h: nat)
    requires OtherChains(chains, next, h)
    ensures h in next
  {
  }

  lemma UnderWayChunk(g: Geometry, m0: Sectors, chains0: Chains, l0: seq<nat>, m: Sectors, chains: Chains,
                      e: Sectors, h: nat, ci: nat, boff: nat, off: nat, done: seq<Byte>, chunk: seq<Byte>,
                      fat: Fat, places: Places)
    requires g.spc > 0 && UnderWay(g, m0, chains0, l0, m, chains, h, off, done)
    requires Forest(fat, chains, places) && |fat| == Clusters(g) && h in chains && ci < |chains[h]|
    requires boff + |chunk| <= ClusterSize(g) && Pos(g, ci) + boff == off + |done| && chains[h][ci] >= 2
    requires Cluster(g, e, chains[h][ci]) == Splice(Cluster(g, m, chains[h][ci]), boff, chunk)
    requires OnlyCluster(g, m, e, chains[h][ci])
    ensures UnderWay(g, m0, chains0, l0, e, chains, h, off, done + chunk)
    ensures off + |done + chunk| <= Pos(g, |chains[h]|)
  {
    hide Writing, Forest, Cluster, Pos, OtherChains, FatOf;
    ChainClusters(fat, chains, places, h);
    WritingChunk(g, m0, l0, m, chains[h], e, ci, boff, off, done, chunk);
    PosNext(g, ci, |chains[h]|);
  }
}
