/** The file allocation table of fs/fat32.c as a set of chains.

Every cluster of a chain holds the number of the next one, and the last one an
end mark. `Chains` lists the clusters of each chain under its first cluster;
`Places` tells for each chained cluster where it is, so two chains can neither
share a cluster nor run into themselves. */
module Fat32Chains {

  const FREE: nat := 0
  const EOC_MIN: nat := 0x0FFF_FFF8
  const EOC: nat := 0x0FFF_FFFF
  const MASK: nat := 0x1000_0000

  /** The value of the entry of each cluster; entries 0 and 1 are reserved. */
  type Fat = seq<nat>
  type Chains = map<nat, seq<nat>>
  type Places = map<nat, (nat, nat)>

  predicate IsCluster(fat: Fat, c: nat) {
    2 <= c < |fat|
  }

  /** Entry `i` of chain `l` leads to entry `i + 1`, or ends the chain. */
  predicate Linked(fat: Fat, l: seq<nat>, i: nat)
    requires i < |l| && IsCluster(fat, l[i])
  {
    if i + 1 < |l| then fat[l[i]] == l[i + 1] else fat[l[i]] >= EOC_MIN
  }

  /** Chain `h` is where `places` says it is. */
  predicate ChainAt(fat: Fat, chains: Chains, places: Places, h: nat, i: nat) {
    h in chains && i < |chains[h]| ==>
      && IsCluster(fat, chains[h][i]) && chains[h][i] in places && places[chains[h][i]] == (h, i)
      && Linked(fat, chains[h], i)
  }

  predicate PlaceAt(chains: Chains, places: Places, c: nat) {
    c in places ==>
      places[c].0 in chains && places[c].1 < |chains[places[c].0]| && chains[places[c].0][places[c].1] == c
  }

  /** Disjoint acyclic chains, each ending in an end mark. */
  ghost predicate Forest(fat: Fat, chains: Chains, places: Places) {
    && |fat| <= EOC_MIN
    && (forall h | h in chains :: |chains[h]| > 0 && chains[h][0] == h)
    && (forall h: nat, i: nat {:trigger ChainAt(fat, chains, places, h, i)} :: ChainAt(fat, chains, places, h, i))
    && (forall c: nat {:trigger PlaceAt(chains, places, c)} :: PlaceAt(chains, places, c))
  }

  /** No cluster is on two chains or twice on one. */
  lemma ForestDisjoint(fat: Fat, chains: Chains, places: Places, g: nat, i: nat, h: nat, j: nat)
    requires Forest(fat, chains, places)
    requires g in chains && i < |chains[g]| && h in chains && j < |chains[h]| && chains[g][i] == chains[h][j]
    ensures g == h && i == j
  {
    assert ChainAt(fat, chains, places, g, i) && ChainAt(fat, chains, places, h, j);
  }

  /** A chained cluster is not free. */
  lemma ChainedNotFree(fat: Fat, chains: Chains, places: Places, c: nat)
    requires Forest(fat, chains, places) && c in places
    ensures IsCluster(fat, c) && fat[c] != FREE
  {
    assert PlaceAt(chains, places, c);
    var (h, i) := places[c];
    assert ChainAt(fat, chains, places, h, i);
    assert ChainAt(fat, chains, places, h, i + 1);
  }

  /** Following one link. */
  lemma NextInChain(fat: Fat, chains: Chains, places: Places, h: nat, i: nat)
    requires Forest(fat, chains, places) && h in chains && i < |chains[h]|
    ensures IsCluster(fat, chains[h][i])
    ensures i + 1 < |chains[h]| ==> fat[chains[h][i]] == chains[h][i + 1] && IsCluster(fat, chains[h][i + 1])
    ensures i + 1 == |chains[h]| ==> fat[chains[h][i]] >= EOC_MIN
  {
    assert ChainAt(fat, chains, places, h, i);
    assert ChainAt(fat, chains, places, h, i + 1);
  }

  // ---------------------------------------------------------------------
  // A free cluster joins
  // ---------------------------------------------------------------------

  /** A free cluster becomes a chain of its own. */
  lemma NewHead(fat: Fat, chains: Chains, places: Places, c: nat)
    requires Forest(fat, chains, places) && IsCluster(fat, c) && fat[c] == FREE
    ensures c !in chains && c !in places
    ensures Forest(fat[c := EOC], chains[c := [c]], places[c := (c, 0)])
  {
    if c in places {
      ChainedNotFree(fat, chains, places, c);
    }
    assert ChainAt(fat, chains, places, c, 0);
    var fat', chains', places' := fat[c := EOC], chains[c := [c]], places[c := (c, 0)];
    forall h: nat, i: nat
      ensures ChainAt(fat', chains', places', h, i)
    {
      assert ChainAt(fat, chains, places, h, i);
      assert ChainAt(fat, chains, places, h, i + 1);
    }
    forall x: nat
      ensures PlaceAt(chains', places', x)
    {
      assert PlaceAt(chains, places, x);
    }
  }

  /** A free cluster is hung onto the last cluster of chain `g`. */
  lemma NewTail(fat: Fat, chains: Chains, places: Places, g: nat, c: nat)
    requires Forest(fat, chains, places) && IsCluster(fat, c) && fat[c] == FREE && g in chains
    ensures var last := chains[g][|chains[g]| - 1];
            && c !in places && last < |fat|
            && Forest(fat[c := EOC][last := c], chains[g := chains[g] + [c]], places[c := (g, |chains[g]|)])
  {
    if c in places {
      ChainedNotFree(fat, chains, places, c);
    }
    var n := |chains[g]|;
    var last := chains[g][n - 1];
    assert ChainAt(fat, chains, places, g, n - 1);
    var fat', chains', places' := fat[c := EOC][last := c], chains[g := chains[g] + [c]], places[c := (g, n)];
    forall h: nat, i: nat
      ensures ChainAt(fat', chains', places', h, i)
    {
      assert ChainAt(fat, chains, places, h, i);
      assert ChainAt(fat, chains, places, h, i + 1);
    }
    forall x: nat
      ensures PlaceAt(chains', places', x)
    {
      assert PlaceAt(chains, places, x);
    }
  }

  // ---------------------------------------------------------------------
  // Freeing a chain
  // ---------------------------------------------------------------------

  /** `fat` with the first `n` clusters of `l` freed. */
  ghost predicate Freed(fat: Fat, fat': Fat, l: seq<nat>, n: nat) {
    && |fat'| == |fat| && n <= |l|
    && forall c | 0 <= c < |fat| :: fat'[c] == if c in l[..n] then FREE else fat[c]
  }

  /** The chains and places without chain `h`. */
  function PlacesWithout(chains: Chains, places: Places, h: nat): Places {
    map c | c in places && places[c].0 != h :: places[c]
  }

  lemma ChainFreed(fat: Fat, fat': Fat, chains: Chains, places: Places, h: nat)
    requires Forest(fat, chains, places) && h in chains && Freed(fat, fat', chains[h], |chains[h]|)
    ensures Forest(fat', chains - {h}, PlacesWithout(chains, places, h))
  {
    var l := chains[h];
    assert l[..|l|] == l;
    var chains', places' := chains - {h}, PlacesWithout(chains, places, h);
    forall g: nat, i: nat
      ensures ChainAt(fat', chains', places', g, i)
    {
      assert ChainAt(fat, chains, places, g, i);
      if g in chains' && i < |chains[g]| {
        var c := chains[g][i];
        if c in l {
          var j: nat :| j < |l| && l[j] == c;
          ForestDisjoint(fat, chains, places, g, i, h, j);
        }
      }
    }
    forall x: nat
      ensures PlaceAt(chains', places', x)
    {
      assert PlaceAt(chains, places, x);
    }
  }

  // ---------------------------------------------------------------------
  // Counting free entries
  // ---------------------------------------------------------------------

  function CountFree(fat: Fat): nat {
    if |fat| <= 2 then 0
    else CountFree(fat[..|fat| - 1]) + if fat[|fat| - 1] == FREE then 1 else 0
  }

  lemma {:induction false} CountFreeUpdate(fat: Fat, c: nat, v: nat)
    requires IsCluster(fat, c)
    ensures CountFree(fat[c := v]) == CountFree(fat) - (if fat[c] == FREE then 1 else 0) + (if v == FREE then 1 else 0)
    decreases |fat|
  {
    var g := fat[c := v];
    if c == |fat| - 1 {
      assert g[..|g| - 1] == fat[..|fat| - 1];
    } else {
      assert g[..|g| - 1] == fat[..|fat| - 1][c := v];
      CountFreeUpdate(fat[..|fat| - 1], c, v);
    }
  }

  /** `c` is the last cluster of its chain. */
  predicate IsTail(chains: Chains, places: Places, c: nat) {
    && c in places && places[c].0 in chains && |chains[places[c].0]| == places[c].1 + 1
    && chains[places[c].0][places[c].1] == c
  }

  /** The chains after `c` joins: alone, or behind `prev`. */
  function Extended(chains: Chains, places: Places, prev: nat, c: nat): Chains
    requires prev == 0 || IsTail(chains, places, prev)
  {
    if prev == 0 then chains[c := [c]]
    else chains[places[prev].0 := chains[places[prev].0] + [c]]
  }

  lemma TailOf(fat: Fat, chains: Chains, places: Places, c: nat)
    requires Forest(fat, chains, places) && IsTail(chains, places, c)
    ensures IsCluster(fat, c) && fat[c] >= EOC_MIN && fat[c] != FREE
  {
    NextInChain(fat, chains, places, places[c].0, places[c].1);
  }

  lemma HeadOf(fat: Fat, chains: Chains, places: Places, h: nat)
    requires Forest(fat, chains, places)
    ensures h in chains ==> |chains[h]| > 0 && chains[h][0] == h && IsCluster(fat, h) && |fat| <= EOC_MIN
  {
    assert ChainAt(fat, chains, places, h, 0);
  }

  lemma FreedNone(fat: Fat, l: seq<nat>)
    ensures Freed(fat, fat, l, 0)
  {
  }

  lemma FreedSame(fat: Fat, fat': Fat)
    requires Freed(fat, fat', [], 0)
    ensures fat' == fat
  {
  }

  /** The next cluster to free still holds its link, since it comes only once. */
  lemma FreedNext(fat: Fat, fat': Fat, chains: Chains, places: Places, h: nat, i: nat)
    requires Forest(fat, chains, places) && h in chains && i < |chains[h]| && Freed(fat, fat', chains[h], i)
    ensures var l := chains[h]; var c := l[i];
            && IsCluster(fat, c) && |fat'| == |fat| && fat'[c] == fat[c] != FREE
            && (i + 1 < |l| ==> fat[c] == l[i + 1] && IsCluster(fat, l[i + 1]))
            && (i + 1 == |l| ==> fat[c] >= EOC_MIN)
            && Freed(fat, fat'[c := FREE], l, i + 1)
  {
    var l := chains[h];
    var c := l[i];
    NextInChain(fat, chains, places, h, i);
    if c in l[..i] {
      var j: nat :| j < i && l[..i][j] == c;
      ForestDisjoint(fat, chains, places, h, j, h, i);
    }
    assert l[..i + 1] == l[..i] + [c];
  }

  ghost predicate NoneFree(fat: Fat) {
    forall c: nat | IsCluster(fat, c) :: fat[c] != FREE
  }

  lemma {:induction false} NoneCount(fat: Fat)
    requires NoneFree(fat)
    ensures CountFree(fat) == 0
    decreases |fat|
  {
    if |fat| > 2 {
      var rest := fat[..|fat| - 1];
      assert forall c: nat | IsCluster(rest, c) :: IsCluster(fat, c) && rest[c] == fat[c];
      NoneCount(rest);
      assert IsCluster(fat, |fat| - 1);
    }
  }

  lemma SomeFree(fat: Fat, c: nat)
    requires IsCluster(fat, c) && fat[c] == FREE
    ensures !NoneFree(fat)
  {
  }

  lemma NoFree(fat: Fat, start: nat)
    requires forall x: nat | 2 <= x < start && x < |fat| :: fat[x] != FREE
    requires forall x: nat | start <= x < |fat| :: fat[x] != FREE
    ensures NoneFree(fat)
  {
  }

  /** The table after the free cluster `c` ends a chain, behind `prev` or alone. */
  function Joined(fat: Fat, c: nat, prev: nat): Fat
    requires c < |fat| && prev < |fat|
  {
    if prev == 0 then fat[c := EOC] else fat[c := EOC][prev := c]
  }

  lemma NewHeadIs(chains: Chains, places: Places, c: nat)
    ensures IsTail(chains[c := [c]], places[c := (c, 0)], c)
  {
  }

  lemma NewTailIs(chains: Chains, places: Places, prev: nat, c: nat)
    requires IsTail(chains, places, prev)
    ensures places[prev].0 in chains
    ensures var h := places[prev].0;
            IsTail(chains[h := chains[h] + [c]], places[c := (h, |chains[h]|)], c)
  {
  }

  lemma EndIsTail(fat: Fat, chains: Chains, places: Places, h: nat, i: nat)
    requires Forest(fat, chains, places) && h in chains && i < |chains[h]| && chains[h][i] < |fat|
    requires fat[chains[h][i]] >= EOC_MIN || fat[chains[h][i]] < 2
    ensures i + 1 == |chains[h]| && IsTail(chains, places, chains[h][i])
    ensures places[chains[h][i]] == (h, i) && chains[h][i] != 0
  {
    assert ChainAt(fat, chains, places, h, i) && ChainAt(fat, chains, places, h, i + 1);
  }

  /** What is on a chain has a place. */
  lemma NotOnChain(fat: Fat, chains: Chains, places: Places, h: nat)
    requires Forest(fat, chains, places) && h in chains
    ensures forall c | c in chains[h] :: c in places
  {
    forall c | c in chains[h]
      ensures c in places
    {
      var i: nat :| i < |chains[h]| && chains[h][i] == c;
      assert ChainAt(fat, chains, places, h, i);
    }
  }

  /** A cluster that is on no chain is no chain's head. */
  lemma FreshHeads(fat: Fat, chains: Chains, places: Places)
    requires Forest(fat, chains, places)
    ensures chains.Keys <= places.Keys
  {
    forall h | h in chains
      ensures h in places
    {
      HeadOf(fat, chains, places, h);
      assert ChainAt(fat, chains, places, h, 0);
    }
  }

  lemma NoLowHeads(fat: Fat, chains: Chains, places: Places)
    requires Forest(fat, chains, places)
    ensures forall h | h in chains :: h >= 2
  {
    forall h | h in chains
      ensures h >= 2
    {
      HeadOf(fat, chains, places, h);
    }
  }

  lemma NoLowClusters(fat: Fat, chains: Chains, places: Places, h: nat)
    requires Forest(fat, chains, places) && h in chains
    ensures forall i: nat | i < |chains[h]| :: chains[h][i] >= 2
  {
    forall i: nat | i < |chains[h]|
      ensures chains[h][i] >= 2
    {
      NextInChain(fat, chains, places, h, i);
    }
  }
}
