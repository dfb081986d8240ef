/** The capability table of kernel/cap.c.

The table is a flat array of slots that encodes a forest: a derived capability
names its parent by id, keeps one reference on it, and never holds more rights.
`Forest` is the abstract view of the valid slots, keyed by capability id; the
class `CapTable` holds the array and is proved against that view.

Two recursions change the table while its invariant is broken: `Release`
cascades towards the root, `Revoke` cascades towards the leaves and calls
`Release` on the way. Both work under `Sound`, the part of the invariant that
survives a parent link whose target is already gone. */
module Capabilities {
  import opened Sets
  import opened Wrappers

  const INVALID_ID: nat := 0
  const NULL: nat := 0
  const MAX_ID: nat := 0xFFFF_FFFF

  /** A rights mask is the set of its bit numbers. */
  type Rights = set<nat>
  const RIGHT_READ: nat := 0
  const RIGHT_WRITE: nat := 1
  const RIGHT_GRANT: nat := 4
  const RIGHT_MANAGE: nat := 6

  datatype Cap = Cap(
    id: nat, kind: nat, rights: Rights, target: nat, parent: nat,
    refCount: nat, owner: nat, valid: bool)

  /** The valid capabilities by id. */
  type Forest = map<nat, Cap>

  /** References held from outside the table, by id. */
  type References = map<nat, nat>

  // ---------------------------------------------------------------------
  // The derivation forest
  // ---------------------------------------------------------------------

  function Children(f: Forest, p: nat): set<nat> {
    set x | x in f && f[x].parent == p
  }

  function External(ext: References, x: nat): nat {
    if x in ext then ext[x] else 0
  }

  /** One outside reference on `id` less, where `id` is valid. */
  function Surrendered(f: Forest, ext: References, id: nat): References {
    if id in f && External(ext, id) >= 1 then ext[id := External(ext, id) - 1] else ext
  }

  /** `c` may be derived from `p`: same object, no right that `p` lacks. */
  predicate Attenuates(c: Cap, p: Cap) {
    c.rights <= p.rights && c.kind == p.kind && c.target == p.target
  }

  /** The parent of `x`, where it is valid, has all that `x` has. */
  predicate Attenuated(f: Forest, x: nat) {
    x in f && f[x].parent in f ==> Attenuates(f[x], f[f[x].parent])
  }

  /** Ids are positive and grow from parent to child, so the links are acyclic. */
  ghost predicate WellFormed(f: Forest) {
    && (forall x | x in f :: 0 < x && f[x].id == x && f[x].valid && f[x].parent < x)
    && (forall x {:trigger Attenuated(f, x)} :: Attenuated(f, x))
  }

  /** The count of `x` is the number of outside references plus the number of
      children, plus one that is about to be dropped if `x` is `due`. */
  ghost predicate Balanced(f: Forest, ext: References, due: nat, x: nat) {
    x in f ==>
      && f[x].refCount >= 1
      && f[x].refCount == External(ext, x) + |Children(f, x)| + (if x == due then 1 else 0)
  }

  ghost predicate Accounted(f: Forest, ext: References, due: nat) {
    forall x {:trigger Balanced(f, ext, due, x)} :: Balanced(f, ext, due, x)
  }

  /** The parent link of `x` names a valid capability. */
  predicate LinkValid(f: Forest, x: nat) {
    x in f ==> f[x].parent == INVALID_ID || f[x].parent in f
  }

  /** Every parent link of a valid capability names a valid capability. */
  ghost predicate Linked(f: Forest) {
    forall x {:trigger LinkValid(f, x)} :: LinkValid(f, x)
  }

  /** If `x` is still there, so is its parent, unless that was missing before. */
  predicate KeepsParent(f: Forest, g: Forest, x: nat) {
    x in g && x in f && f[x].parent in f ==> f[x].parent in g
  }

  ghost predicate Sound(f: Forest, ext: References, due: nat) {
    WellFormed(f) && Accounted(f, ext, due)
  }

  /** `a` is on the ancestor chain of `x`, which includes `x`. */
  ghost predicate Descends(f: Forest, x: nat, a: nat)
    decreases x
  {
    x in f && (x == a || (f[x].parent < x && Descends(f, f[x].parent, a)))
  }

  /** `g` keeps some of the capabilities of `f` and changes only their counts. */
  ghost predicate Within(g: Forest, f: Forest) {
    forall x | x in g :: x in f && g[x] == f[x].(refCount := g[x].refCount)
  }

  /** What dropping one reference on `id` may remove. */
  ghost predicate Released(f: Forest, g: Forest, ext: References, id: nat) {
    && Within(g, f)
    && forall x | x in f && x !in g ::
         Descends(f, id, x) && External(ext, x) == 0 && Children(g, x) == {}
  }

  /** What revoking `id` may remove, and that it leaves no link newly dangling. */
  ghost predicate Revoked(f: Forest, g: Forest, ext: References, id: nat) {
    && Within(g, f)
    && id !in g
    && (forall x | x in f && x !in g ::
          || Descends(f, x, id)
          || (Descends(f, id, x) && External(ext, x) == 0 && Children(g, x) == {}))
    && (forall x {:trigger KeepsParent(f, g, x)} :: KeepsParent(f, g, x))
  }

  /** The survivors of a revocation are exactly the capabilities that are
      neither descendants of `id` nor ancestors left without any reference, and
      none of them has `id` on its ancestor chain. */
  ghost predicate RevocationExact(f: Forest, g: Forest, ext: References, id: nat) {
    && (forall x | x in f ::
          x !in g <==>
          || Descends(f, x, id)
          || (Descends(f, id, x) && External(ext, x) == 0 && Children(f, x) !! g.Keys))
    && (forall x :: !Descends(g, x, id))
  }

  /** A release removes exactly the ancestors of `id`, itself included, that it
      leaves without any reference. */
  ghost predicate ReleaseExact(f: Forest, g: Forest, ext: References, id: nat) {
    && Within(g, f)
    && forall x | x in f ::
         x !in g <==> Descends(f, id, x) && External(ext, x) == 0 && Children(f, x) !! g.Keys
  }

  lemma {:induction false} DescendsWithin(g: Forest, f: Forest, x: nat, a: nat)
    requires Within(g, f) && Descends(g, x, a)
    ensures Descends(f, x, a)
    decreases x
  {
    if x != a {
      DescendsWithin(g, f, g[x].parent, a);
    }
  }

  lemma {:induction false} DescendsTransitive(f: Forest, x: nat, y: nat, z: nat)
    requires Descends(f, x, y) && Descends(f, y, z)
    ensures Descends(f, x, z)
    decreases x
  {
    if x != y {
      DescendsTransitive(f, f[x].parent, y, z);
    }
  }

  /** Along any derivation chain rights only shrink, while type and object stay
      those of the ancestor. */
  lemma {:induction false} ChainAttenuates(f: Forest, x: nat, a: nat)
    requires WellFormed(f) && Descends(f, x, a)
    ensures a in f && Attenuates(f[x], f[a])
    decreases x
  {
    if x != a {
      assert Attenuated(f, x);
      ChainAttenuates(f, f[x].parent, a);
    }
  }

  lemma WithinWellFormed(g: Forest, f: Forest)
    requires Within(g, f) && WellFormed(f)
    ensures WellFormed(g)
  {
    forall x
      ensures Attenuated(g, x)
    {
      assert Attenuated(f, x);
    }
  }

  /** Removing one capability makes its parent's count one too high. */
  lemma RemoveOne(f: Forest, ext: References, due: nat, id: nat)
    requires Sound(f, ext, due) && id in f
    requires due == id || due == INVALID_ID
    ensures Sound(f - {id}, ext, f[id].parent)
    ensures Within(f - {id}, f)
  {
    var g := f - {id};
    WithinWellFormed(g, f);
    forall x
      ensures Balanced(g, ext, f[id].parent, x)
    {
      assert Balanced(f, ext, due, x);
      assert x in g ==> Children(g, x) == Children(f, x) - {id};
    }
  }

  /** A changed count moves no link. */
  lemma RecountOne(f: Forest, id: nat, n: nat)
    requires WellFormed(f) && id in f
    ensures var g := f[id := f[id].(refCount := n)];
            && g.Keys == f.Keys && WellFormed(g)
            && (Linked(f) ==> Linked(g))
  {
    var g := f[id := f[id].(refCount := n)];
    WithinWellFormed(g, f);
    if Linked(f) {
      forall x
        ensures LinkValid(g, x)
      {
        assert LinkValid(f, x);
      }
    }
  }

  /** The count of `id` follows a change of what is owed to it. */
  lemma RecountSound(f: Forest, ext: References, due: nat, ext': References, due': nat, id: nat, n: nat)
    requires Sound(f, ext, due) && id in f && n >= 1
    requires n - External(ext', id) - (if due' == id then 1 else 0)
          == f[id].refCount - External(ext, id) - (if due == id then 1 else 0)
    requires forall x | x in f && x != id :: External(ext', x) == External(ext, x) && (x == due <==> x == due')
    ensures var g := f[id := f[id].(refCount := n)];
            && Sound(g, ext', due') && g.Keys == f.Keys && |g| == |f|
            && (Linked(f) ==> Linked(g))
  {
    var g := f[id := f[id].(refCount := n)];
    RecountOne(f, id, n);
    assert |g.Keys| == |f.Keys|;
    hide WellFormed, Linked;
    forall x
      ensures Balanced(g, ext', due', x)
    {
      assert Balanced(f, ext, due, x);
      assert Children(g, x) == Children(f, x);
    }
  }

  lemma TransferSound(f: Forest, ext: References, id: nat, newOwner: nat)
    requires Sound(f, ext, INVALID_ID) && Linked(f) && id in f
    ensures var g := f[id := f[id].(owner := newOwner)];
            Sound(g, ext, INVALID_ID) && Linked(g) && g.Keys == f.Keys && |g| == |f|
  {
    var g := f[id := f[id].(owner := newOwner)];
    assert |g.Keys| == |f.Keys|;
    forall x
      ensures Balanced(g, ext, INVALID_ID, x) && Attenuated(g, x) && LinkValid(g, x)
    {
      assert Balanced(f, ext, INVALID_ID, x) && Attenuated(f, x) && LinkValid(f, x);
      assert Children(g, x) == Children(f, x);
    }
  }

  lemma SoundAt(f: Forest, ext: References, due: nat, x: nat)
    requires Sound(f, ext, due) && x in f
    ensures WellFormed(f) && f[x].refCount >= 1 && f[x].parent < x && f[x].id == x
  {
    assert Balanced(f, ext, due, x);
  }

  lemma RecountReleased(f: Forest, ext: References, id: nat, n: nat)
    requires id in f
    ensures Released(f, f[id := f[id].(refCount := n)], ext, id)
  {
  }

  lemma ReleasedNone(f: Forest, ext: References)
    requires Sound(f, ext, INVALID_ID)
    ensures Released(f, f, ext, INVALID_ID)
  {
  }

  lemma NothingDue(f: Forest, ext: References, due: nat)
    requires Sound(f, ext, due) && due !in f
    ensures Sound(f, ext, INVALID_ID) && Released(f, f, ext, due)
  {
    forall x
      ensures Balanced(f, ext, INVALID_ID, x)
    {
      assert Balanced(f, ext, due, x);
    }
  }

  /** Giving up an outside reference leaves one to be dropped. */
  lemma Owe(f: Forest, ext: References, id: nat)
    requires Sound(f, ext, INVALID_ID)
    requires id in f ==> External(ext, id) >= 1
    ensures Sound(f, Surrendered(f, ext, id), id)
  {
    var ext' := Surrendered(f, ext, id);
    forall x
      ensures Balanced(f, ext', id, x)
    {
      assert Balanced(f, ext, INVALID_ID, x);
    }
  }

  /** One step of the upward cascade: `id` goes, then its parent is released. */
  lemma ReleaseCompose(f: Forest, g: Forest, ext: References, id: nat)
    requires Sound(f, ext, id) && id in f && f[id].refCount == 1
    requires Released(f - {id}, g, ext, f[id].parent)
    ensures Released(f, g, ext, id)
  {
    var f1 := f - {id};
    assert Balanced(f, ext, id, id);
    assert Children(f, id) == {};
    forall x | x in f && x !in g
      ensures Descends(f, id, x) && External(ext, x) == 0 && Children(g, x) == {}
    {
      if x == id {
        assert Children(g, id) <= Children(f, id);
      } else {
        DescendsWithin(f1, f, f[id].parent, x);
      }
    }
  }

  lemma {:induction false} RevokedExactly(f: Forest, g: Forest, ext: References, id: nat)
    requires Sound(f, ext, INVALID_ID) && Linked(f) && id in f
    requires Revoked(f, g, ext, id) && Sound(g, ext, INVALID_ID)
    ensures Linked(g) && RevocationExact(f, g, ext, id)
  {
    forall x | x in f && Descends(f, x, id)
      ensures x !in g
    {
      DescendantsGone(f, g, ext, id, x);
    }
    forall x | x in g && Children(f, x) !! g.Keys
      ensures External(ext, x) != 0
    {
      assert Balanced(g, ext, INVALID_ID, x);
      assert Children(g, x) <= Children(f, x) * g.Keys;
    }
    forall x
      ensures LinkValid(g, x)
    {
      assert LinkValid(f, x) && KeepsParent(f, g, x);
    }
    forall x | x in f && x !in g && Children(g, x) == {}
      ensures Children(f, x) !! g.Keys
    {
      assert forall y | y in Children(f, x) && y in g :: y in Children(g, x);
    }
    forall x | Descends(g, x, id)
      ensures false
    {
      DescendsEnd(g, x, id);
    }
  }

  lemma ReleasedExactly(f: Forest, g: Forest, ext: References, id: nat)
    requires Released(f, g, ext, id) && Sound(g, ext, INVALID_ID)
    ensures ReleaseExact(f, g, ext, id)
  {
    forall x | x in g && Children(f, x) !! g.Keys
      ensures External(ext, x) != 0
    {
      assert Balanced(g, ext, INVALID_ID, x);
      assert Children(g, x) <= Children(f, x) * g.Keys;
    }
    forall x | x in f && x !in g
      ensures Children(f, x) !! g.Keys
    {
      assert forall y | y in Children(f, x) && y in g :: y in Children(g, x);
    }
  }

  /** A release leaves no link dangling. */
  lemma ReleasedLinked(f: Forest, g: Forest, ext: References, id: nat)
    requires Linked(f) && Released(f, g, ext, id)
    ensures Linked(g)
  {
    forall x
      ensures LinkValid(g, x)
    {
      assert LinkValid(f, x);
      if x in g && g[x].parent in f {
        assert x in Children(g, g[x].parent);
      }
    }
  }

  lemma {:induction false} DescendsEnd(f: Forest, x: nat, a: nat)
    requires Descends(f, x, a)
    ensures a in f
    decreases x
  {
    if x != a {
      DescendsEnd(f, f[x].parent, a);
    }
  }

  lemma {:induction false} DescendantsGone(f: Forest, g: Forest, ext: References, id: nat, x: nat)
    requires WellFormed(f) && Revoked(f, g, ext, id) && Descends(f, x, id)
    ensures x !in g
    decreases x
  {
    if x != id {
      DescendantsGone(f, g, ext, id, f[x].parent);
      assert KeepsParent(f, g, x);
    }
  }

  /** The forest after `p` has derived `id` with the rights `reduced`. */
  function Derived(f: Forest, p: nat, id: nat, reduced: Rights): Forest
    requires p in f
  {
    f[id := Cap(id, f[p].kind, reduced, f[p].target, p, 1, f[p].owner, true)]
     [p := f[p].(refCount := f[p].refCount + 1)]
  }

  /** A new capability, linked under a valid parent or none, moves no other link. */
  lemma AdmitOne(f: Forest, c: Cap)
    requires WellFormed(f) && Linked(f)
    requires c.valid && c.parent < c.id && forall x | x in f :: x < c.id
    requires c.parent == INVALID_ID || (c.parent in f && Attenuates(c, f[c.parent]))
    ensures var g := f[c.id := c];
            && WellFormed(g) && Linked(g)
            && g.Keys == f.Keys + {c.id} && |g| == |f| + 1
  {
    var g := f[c.id := c];
    assert |g.Keys| == |f.Keys + {c.id}|;
    forall x
      ensures Attenuated(g, x) && LinkValid(g, x)
    {
      assert Attenuated(f, x) && LinkValid(f, x);
    }
  }

  lemma CreateSound(f: Forest, ext: References, c: Cap)
    requires Sound(f, ext, INVALID_ID) && Linked(f)
    requires c.valid && c.parent == INVALID_ID && c.refCount == 1 && 0 < c.id
    requires forall x | x in f :: x < c.id
    ensures Sound(f[c.id := c], ext[c.id := 1], INVALID_ID) && Linked(f[c.id := c])
    ensures |f[c.id := c]| == |f| + 1
  {
    AdmitOne(f, c);
    hide WellFormed, Linked;
    var g, ext' := f[c.id := c], ext[c.id := 1];
    forall x
      ensures Balanced(g, ext', INVALID_ID, x)
    {
      assert Balanced(f, ext, INVALID_ID, x);
      assert x in g ==> Children(g, x) == if x in f then Children(f, x) else {};
    }
  }

  lemma DeriveSound(f: Forest, ext: References, p: nat, id: nat, reduced: Rights)
    requires Sound(f, ext, INVALID_ID) && Linked(f) && p in f
    requires forall x | x in f :: x < id
    requires reduced <= f[p].rights
    ensures Sound(Derived(f, p, id, reduced), ext[id := 1], INVALID_ID) && Linked(Derived(f, p, id, reduced))
    ensures |Derived(f, p, id, reduced)| == |f| + 1
  {
    var c := Cap(id, f[p].kind, reduced, f[p].target, p, 1, f[p].owner, true);
    AdmitOne(f, c);
    RecountOne(f[id := c], p, f[p].refCount + 1);
    assert Derived(f, p, id, reduced).Keys == f.Keys + {id};
    assert Accounted(Derived(f, p, id, reduced), ext[id := 1], INVALID_ID) by {
      DeriveAccounted(f, ext, p, id, reduced);
    }
  }

  lemma DeriveAccounted(f: Forest, ext: References, p: nat, id: nat, reduced: Rights)
    requires Sound(f, ext, INVALID_ID) && p in f
    requires forall x | x in f :: x < id
    ensures Accounted(Derived(f, p, id, reduced), ext[id := 1], INVALID_ID)
  {
    var h, ext' := Derived(f, p, id, reduced), ext[id := 1];
    forall x
      ensures Balanced(h, ext', INVALID_ID, x)
    {
      assert Balanced(f, ext, INVALID_ID, x);
      if x in f {
        assert id !in Children(f, x);
        assert Children(h, x) == Children(f, x) + (if x == p then {id} else {});
      } else {
        assert Children(h, id) == {};
      }
    }
  }

  /** Half-way through a revocation of `id`: from `f2`, the forest after the
      upward cascade, only descendants of `id` are gone, and the only links
      left dangling since `f2` are those of whole removed subtrees. */
  ghost predicate RevokingBelow(f: Forest, f2: Forest, g: Forest, id: nat) {
    && id in f && id !in f2
    && Within(f2, f) && Within(g, f2)
    && (forall x | x in f2 && x !in g :: Descends(f, x, id))
    && (forall x {:trigger KeepsParent(f2, g, x)} :: KeepsParent(f2, g, x))
  }

  /** One more child of `id` is revoked, with everything below it. */
  lemma RevokeChild(f: Forest, f2: Forest, g: Forest, h: Forest, ext: References, id: nat, child: nat)
    requires WellFormed(f) && RevokingBelow(f, f2, g, id)
    requires child in g && g[child].parent == id && Revoked(g, h, ext, child)
    ensures RevokingBelow(f, f2, h, id) && child !in h
  {
    forall x | x in f2 && x !in h
      ensures Descends(f, x, id)
    {
      if x in g {
        assert f[child].parent == id && Descends(f, id, id);
        assert Descends(f, child, id);
        assert !Descends(g, id, x);
        if Descends(g, x, child) {
          DescendsWithin(g, f2, x, child);
          DescendsWithin(f2, f, x, child);
          DescendsTransitive(f, x, child, id);
        }
      }
    }
    forall x
      ensures KeepsParent(f2, h, x)
    {
      assert KeepsParent(f2, g, x) && KeepsParent(g, h, x);
    }
  }

  /** Removing `id` and then releasing its parent, seen from before. */
  lemma RevokeReleased(f: Forest, f2: Forest, ext: References, id: nat)
    requires WellFormed(f) && id in f
    requires Released(f - {id}, f2, ext, f[id].parent)
    ensures RevokingBelow(f, f2, f2, id)
    ensures forall x | x in f && x !in f2 && x != id ::
              Descends(f, id, x) && External(ext, x) == 0 && Children(f2, x) == {}
  {
    var f1 := f - {id};
    forall x | x in f && x !in f2 && x != id
      ensures Descends(f, id, x)
    {
      DescendsWithin(f1, f, f[id].parent, x);
    }
  }

  /** When no valid capability names `id` any more, the revocation is done. */
  lemma RevokeCompose(f: Forest, f2: Forest, g: Forest, ext: References, id: nat)
    requires WellFormed(f) && RevokingBelow(f, f2, g, id)
    requires forall x | x in f && x !in f2 && x != id ::
               Descends(f, id, x) && External(ext, x) == 0 && Children(f2, x) == {}
    requires forall x | x in g :: g[x].parent != id
    ensures Revoked(f, g, ext, id)
  {
    forall x | x in f && x !in g && x in f2
      ensures Descends(f, x, id)
    {
    }
    forall x | x in f && x !in f2 && x != id
      ensures Children(g, x) == {}
    {
      assert Children(g, x) <= Children(f2, x);
    }
    forall x
      ensures KeepsParent(f, g, x)
    {
      assert KeepsParent(f2, g, x);
      if x in g && f[x].parent in f {
        assert x in Children(f2, f[x].parent);
      }
    }
  }

  // ---------------------------------------------------------------------
  // The table
  // ---------------------------------------------------------------------

  /** The array `t` and the view agree: `slot` says where each valid id is. */
  ghost predicate Shows(t: seq<Cap>, caps: Forest, slot: map<nat, nat>) {
    && slot.Keys == caps.Keys && INVALID_ID !in caps
    && (forall i | 0 <= i < |t| && t[i].valid :: t[i].id in slot && slot[t[i].id] == i)
    && (forall x | x in caps ::
          && 0 <= slot[x] < |t| && t[slot[x]].valid
          && t[slot[x]].id == x && caps[x] == t[slot[x]])
  }

  lemma ShowsPut(t: seq<Cap>, caps: Forest, slot: map<nat, nat>, c: Cap)
    requires Shows(t, caps, slot) && c.valid && c.id in caps
    ensures Shows(t[slot[c.id] := c], caps[c.id := c], slot)
  {
  }

  lemma ShowsAdd(t: seq<Cap>, caps: Forest, slot: map<nat, nat>, i: nat, c: Cap)
    requires Shows(t, caps, slot) && c.valid && c.id !in caps
    requires i < |t| && !t[i].valid && c.id != INVALID_ID
    ensures Shows(t[i := c], caps[c.id := c], slot[c.id := i])
  {
  }

  lemma ShowsDrop(t: seq<Cap>, caps: Forest, slot: map<nat, nat>, id: nat, c: Cap)
    requires Shows(t, caps, slot) && id in caps && !c.valid
    ensures Shows(t[slot[id] := c], caps - {id}, slot - {id})
  {
  }

  /** Slots keep their identity: no slot becomes valid, no link is rewritten. */
  ghost predicate OnlyInvalidates(t: seq<Cap>, u: seq<Cap>) {
    && |t| == |u|
    && forall i | 0 <= i < |t| && u[i].valid ::
         t[i].valid && u[i].id == t[i].id && u[i].parent == t[i].parent
  }

  lemma OnlyInvalidatesSame(t: seq<Cap>)
    ensures OnlyInvalidates(t, t)
  {
  }

  lemma OnlyInvalidatesTransitive(t: seq<Cap>, u: seq<Cap>, v: seq<Cap>)
    requires OnlyInvalidates(t, u) && OnlyInvalidates(u, v)
    ensures OnlyInvalidates(t, v)
  {
  }

  /** No valid row before `k` has the parent `id`. */
  predicate NoneNames(t: seq<Cap>, k: nat, id: nat)
    requires k <= |t|
  {
    forall j | 0 <= j < k :: !(t[j].valid && t[j].parent == id)
  }

  lemma RowShown(t: seq<Cap>, caps: Forest, slot: map<nat, nat>, k: nat)
    requires Shows(t, caps, slot) && k < |t| && t[k].valid
    ensures t[k].id in caps && caps[t[k].id] == t[k]
  {
  }

  lemma RowSkipped(t: seq<Cap>, k: nat, id: nat)
    requires k <= |t|
    ensures NoneNames(t, 0, id)
    ensures k < |t| && NoneNames(t, k, id) && !(t[k].valid && t[k].parent == id) ==> NoneNames(t, k + 1, id)
  {
  }

  lemma RowCleared(t: seq<Cap>, u: seq<Cap>, caps: Forest, slot: map<nat, nat>, k: nat, id: nat)
    requires OnlyInvalidates(t, u) && k < |t| && NoneNames(t, k, id)
    requires Shows(u, caps, slot) && t[k].id !in caps
    ensures NoneNames(u, k + 1, id)
  {
  }

  lemma NoChildLeft(t: seq<Cap>, caps: Forest, slot: map<nat, nat>, id: nat)
    requires Shows(t, caps, slot) && NoneNames(t, |t|, id)
    ensures forall x | x in caps :: caps[x].parent != id
  {
  }

  lemma RevokingSmaller(f: Forest, f2: Forest, g: Forest, id: nat)
    requires RevokingBelow(f, f2, g, id)
    ensures |g| < |f| && |g| <= |f2|
  {
    assert g.Keys <= f.Keys - {id};
    SubsetSize(g.Keys, f.Keys - {id});
    SubsetSize(g.Keys, f2.Keys);
  }

  /** Ids from `next` on have never been given out. */
  ghost predicate Unused(caps: Forest, next: nat) {
    forall x | x in caps :: x < next
  }

  class CapTable {
    const table: array<Cap>
    var nextId: nat
    var activeCount: int

    ghost var caps: Forest
    ghost var slot: map<nat, nat>
    ghost var ext: References

    ghost predicate Consistent()
      reads this, table
    {
      && Shows(table[..], caps, slot)
      && 1 <= nextId <= MAX_ID
      && Unused(caps, nextId)
    }

    /** The invariant of every run. */
    ghost predicate Valid()
      reads this, table
    {
      && Consistent()
      && Sound(caps, ext, INVALID_ID)
      && Linked(caps)
      && activeCount == |caps|
    }

    constructor (size: nat)
      ensures Valid() && fresh(table) && table.Length == size
      ensures caps == map[] && ext == map[] && nextId == 1
    {
      table := new Cap[size](_ => Cap(0, 0, {}, NULL, INVALID_ID, 0, 0, false));
      nextId := 1;
      activeCount := 0;
      caps, slot, ext := map[], map[], map[];
    }

    method AllocSlot() returns (r: Option<nat>)
      ensures r.Some? ==> r.value < table.Length && !table[r.value].valid
      ensures r.None? <==> forall i | 0 <= i < table.Length :: table[i].valid
    {
      for i := 0 to table.Length
        invariant forall j | 0 <= j < i :: table[j].valid
      {
        if !table[i].valid {
          return Some(i);
        }
      }
      return None;
    }

    method Get(id: nat) returns (r: Option<nat>)
      requires Consistent()
      ensures r.Some? <==> id in caps
      ensures r.Some? ==>
                && id != INVALID_ID && r.value < table.Length && id in slot && r.value == slot[id]
                && table[r.value] == caps[id] && table[r.value].valid && table[r.value].id == id
    {
      if id == INVALID_ID {
        return None;
      }
      for i := 0 to table.Length
        invariant forall j | 0 <= j < i :: !(table[j].valid && table[j].id == id)
      {
        if table[i].valid && table[i].id == id {
          return Some(i);
        }
      }
      return None;
    }

    method Check(id: nat, required: Rights) returns (ok: bool)
      requires Valid()
      ensures ok <==> id in caps && required <= caps[id].rights
    {
      var c := Get(id);
      if c.None? {
        return false;
      }
      return required <= table[c.value].rights;
    }

    /** Put a new valid capability into the free slot `i`. */
    ghost method Admit(i: nat, c: Cap)
      modifies this`caps, this`slot, this`ext
      ensures caps == old(caps)[c.id := c] && slot == old(slot)[c.id := i] && ext == old(ext)[c.id := 1]
    {
      caps, slot, ext := caps[c.id := c], slot[c.id := i], ext[c.id := 1];
    }

    method Create(kind: nat, rights: Rights, target: nat, owner: nat) returns (id: nat)
      requires Valid() && nextId < MAX_ID
      modifies this`nextId, this`activeCount, this`caps, this`slot, this`ext, table
      ensures Valid()
      ensures id == INVALID_ID <==> old(forall i | 0 <= i < table.Length :: table[i].valid)
      ensures id == INVALID_ID ==> caps == old(caps) && ext == old(ext) && nextId == old(nextId)
      ensures id != INVALID_ID ==>
                && id == old(nextId) && nextId == id + 1 && id !in old(caps)
                && caps == old(caps)[id := Cap(id, kind, rights, target, INVALID_ID, 1, owner, true)]
                && ext == old(ext)[id := 1]
    {
      hide Shows, Sound, Linked;
      var s := AllocSlot();
      if s.None? {
        return INVALID_ID;
      }
      id := nextId;
      nextId := nextId + 1;
      table[s.value] := Cap(id, kind, rights, target, INVALID_ID, 1, owner, true);
      activeCount := activeCount + 1;
      Admit(s.value, table[s.value]);
      ShowsAdd(old(table[..]), old(caps), old(slot), s.value, table[s.value]);
      assert table[..] == old(table[..])[s.value := table[s.value]];
      CreateSound(old(caps), old(ext), table[s.value]);
    }

    method Derive(parent: nat, reduced: Rights) returns (id: nat)
      requires Valid() && nextId < MAX_ID
      modifies this`nextId, this`activeCount, this`caps, this`slot, this`ext, table
      ensures Valid()
      ensures id == INVALID_ID <==>
              || parent !in old(caps)
              || !(reduced <= old(caps)[parent].rights)
              || RIGHT_MANAGE !in old(caps)[parent].rights
              || old(forall i | 0 <= i < table.Length :: table[i].valid)
      ensures id == INVALID_ID ==> caps == old(caps) && ext == old(ext) && nextId == old(nextId)
      ensures id != INVALID_ID ==>
                && id == old(nextId) && nextId == id + 1 && id !in old(caps)
                && caps == Derived(old(caps), parent, id, reduced)
                && ext == old(ext)[id := 1]
      ensures id != INVALID_ID ==>
                && caps.Keys == old(caps.Keys) + {id} && caps[id].id == id && caps[id].valid
                && caps[id].rights == reduced && caps[id].refCount == 1 && caps[id].parent == parent
                && caps[id].kind == old(caps)[parent].kind && caps[id].target == old(caps)[parent].target
                && caps[id].owner == old(caps)[parent].owner
                && caps[parent] == old(caps)[parent].(refCount := old(caps)[parent].refCount + 1)
                && (forall x | x in old(caps) && x != parent :: caps[x] == old(caps)[x])
    {
      hide Shows, Sound, Linked;
      var p := Get(parent);
      if p.None? {
        return INVALID_ID;
      }
      var pc := table[p.value];
      if !(reduced <= pc.rights) {
        return INVALID_ID;
      }
      if RIGHT_MANAGE !in pc.rights {
        return INVALID_ID;
      }
      var s := AllocSlot();
      if s.None? {
        return INVALID_ID;
      }
      id := nextId;
      nextId := nextId + 1;
      table[s.value] := Cap(id, pc.kind, reduced, pc.target, parent, 1, pc.owner, true);
      Admit(s.value, table[s.value]);
      ShowsAdd(old(table[..]), old(caps), old(slot), s.value, table[s.value]);
      assert table[..] == old(table[..])[s.value := table[s.value]];
      ghost var mid := table[..];
      ShowsPut(mid, caps, slot, pc.(refCount := pc.refCount + 1));
      table[p.value] := pc.(refCount := pc.refCount + 1);
      assert table[..] == mid[p.value := table[p.value]];
      caps := caps[parent := table[p.value]];
      activeCount := activeCount + 1;
      DeriveSound(old(caps), old(ext), parent, id, reduced);
    }

    method AddRef(id: nat)
      requires Valid()
      modifies this`caps, this`ext, table
      ensures Valid()
      ensures id !in old(caps) ==> caps == old(caps) && ext == old(ext)
      ensures id in old(caps) ==>
                && caps == old(caps)[id := old(caps)[id].(refCount := old(caps)[id].refCount + 1)]
                && ext == old(ext)[id := External(old(ext), id) + 1]
    {
      hide Shows, Sound, Linked;
      var c := Get(id);
      if c.Some? {
        table[c.value] := table[c.value].(refCount := table[c.value].refCount + 1);
        caps := caps[id := table[c.value]];
        ShowsPut(old(table[..]), old(caps), slot, table[c.value]);
        assert table[..] == old(table[..])[c.value := table[c.value]];
        ext := ext[id := External(ext, id) + 1];
        RecountSound(old(caps), old(ext), INVALID_ID, ext, INVALID_ID, id, table[c.value].refCount);
      }
    }

    method Transfer(id: nat, newOwner: nat) returns (r: nat)
      requires Valid()
      modifies this`caps, table
      ensures Valid()
      ensures r == (if id in old(caps) && RIGHT_GRANT in old(caps)[id].rights then id else INVALID_ID)
      ensures caps == if r == INVALID_ID then old(caps) else old(caps)[id := old(caps)[id].(owner := newOwner)]
    {
      hide Shows, Sound, Linked;
      var c := Get(id);
      if c.None? {
        return INVALID_ID;
      }
      if RIGHT_GRANT !in table[c.value].rights {
        return INVALID_ID;
      }
      table[c.value] := table[c.value].(owner := newOwner);
      caps := caps[id := table[c.value]];
      ShowsPut(old(table[..]), old(caps), slot, table[c.value]);
      assert table[..] == old(table[..])[c.value := table[c.value]];
      TransferSound(old(caps), ext, id, newOwner);
      return id;
    }

    /** Rewrite a valid slot without moving it. */
    method Store(i: nat, c: Cap)
      requires Consistent() && c.valid && c.id in caps && i == slot[c.id]
      requires c.parent == caps[c.id].parent
      modifies this`caps, table
      ensures Consistent() && caps == old(caps)[c.id := c]
      ensures OnlyInvalidates(old(table[..]), table[..])
    {
      ShowsPut(table[..], caps, slot, c);
      assert i < table.Length;
      table[i] := c;
      caps := caps[c.id := c];
      assert table[..] == old(table[..])[i := c];
    }

    /** Empty the slot of `id`. */
    method Drop(i: nat, ghost id: nat, c: Cap)
      requires Consistent() && id in caps && i == slot[id] && !c.valid
      modifies this`caps, this`slot, table
      ensures Consistent() && caps == old(caps) - {id} && |caps| == |old(caps)| - 1
      ensures OnlyInvalidates(old(table[..]), table[..])
    {
      ShowsDrop(table[..], caps, slot, id, c);
      assert i < table.Length;
      table[i] := c;
      caps, slot := caps - {id}, slot - {id};
      assert table[..] == old(table[..])[i := c];
      assert caps.Keys == old(caps).Keys - {id};
    }

    /** Drop the reference that `id` is known to hold one too many of. */
    method ReleaseDue(id: nat)
      requires Consistent() && Sound(caps, ext, id)
      modifies this`activeCount, this`caps, this`slot, table
      ensures Consistent() && Sound(caps, ext, INVALID_ID)
      ensures Released(old(caps), caps, ext, id) && (id !in old(caps) ==> caps == old(caps))
      ensures OnlyInvalidates(old(table[..]), table[..])
      ensures activeCount - |caps| == old(activeCount - |caps|)
      decreases id
    {
      hide Shows, Sound, Linked, WellFormed, OnlyInvalidates, Released, Children, Unused, Within;
      var c := Get(id);
      if c.None? {
        NothingDue(caps, ext, id);
        OnlyInvalidatesSame(table[..]);
        return;
      }
      var e := table[c.value];
      SoundAt(caps, ext, id, id);
      if e.refCount > 1 {
        RecountSound(caps, ext, id, ext, INVALID_ID, id, e.refCount - 1);
        RecountReleased(caps, ext, id, e.refCount - 1);
        Store(c.value, e.(refCount := e.refCount - 1));
        return;
      }
      RemoveOne(caps, ext, id, id);
      Drop(c.value, id, e.(refCount := 0, valid := false, target := NULL));
      ghost var mid := table[..];
      if e.parent != INVALID_ID {
        ReleaseDue(e.parent);
      } else {
        ReleasedNone(caps, ext);
        OnlyInvalidatesSame(mid);
      }
      ReleaseCompose(old(caps), caps, ext, id);
      OnlyInvalidatesTransitive(old(table[..]), mid, table[..]);
      activeCount := activeCount - 1;
    }

    /** Drop one outside reference. */
    method Release(id: nat)
      requires Valid()
      requires id in caps ==> External(ext, id) >= 1
      modifies this`activeCount, this`caps, this`slot, this`ext, table
      ensures Valid()
      ensures ext == Surrendered(old(caps), old(ext), id) && nextId == old(nextId)
      ensures ReleaseExact(old(caps), caps, ext, id) && (id !in old(caps) ==> caps == old(caps))
    {
      hide Shows, Sound, Linked, Released, ReleaseExact;
      Owe(caps, ext, id);
      ext := Surrendered(caps, ext, id);
      ReleaseDue(id);
      ReleasedLinked(old(caps), caps, ext, id);
      ReleasedExactly(old(caps), caps, ext, id);
    }

    method Revoke(id: nat) returns (found: bool)
      requires Consistent() && Sound(caps, ext, INVALID_ID)
      modifies this`activeCount, this`caps, this`slot, table
      ensures Consistent() && Sound(caps, ext, INVALID_ID)
      ensures found <==> id in old(caps)
      ensures if found then Revoked(old(caps), caps, ext, id) else caps == old(caps)
      ensures OnlyInvalidates(old(table[..]), table[..])
      ensures activeCount - |caps| == old(activeCount - |caps|)
      ensures old(Linked(caps)) ==> Linked(caps)
      ensures old(Linked(caps)) && found ==> RevocationExact(old(caps), caps, ext, id)
      ensures old(Valid()) ==> Valid()
      decreases |caps|, 0
    {
      hide Shows, Sound, Linked, WellFormed, OnlyInvalidates, RevokingBelow, Released, Revoked, RevocationExact,
           Children, Unused, Within, NoneNames;
      var c := Get(id);
      if c.None? {
        assert OnlyInvalidates(old(table[..]), table[..]) by {
          OnlyInvalidatesSame(table[..]);
        }
        return false;
      }
      ghost var f := caps;
      var e := table[c.value];
      SoundAt(f, ext, INVALID_ID, id);
      RemoveOne(f, ext, INVALID_ID, id);
      Drop(c.value, id, e.(valid := false, target := NULL));
      ghost var mid := table[..];
      activeCount := activeCount - 1;
      if e.parent != INVALID_ID {
        ReleaseDue(e.parent);
      } else {
        ReleasedNone(caps, ext);
        OnlyInvalidatesSame(mid);
      }
      ghost var f2 := caps;
      RevokeReleased(f, f2, ext, id);
      OnlyInvalidatesTransitive(old(table[..]), mid, table[..]);
      RevokingSmaller(f, f2, caps, id);
      mid := table[..];
      RevokeChildren(id, f);
      OnlyInvalidatesTransitive(old(table[..]), mid, table[..]);
      NoChildLeft(table[..], caps, slot, id);
      RevokeCompose(f, f2, caps, ext, id);
      if Linked(f) {
        RevokedExactly(f, caps, ext, id);
      }
      return true;
    }

    /** Revoke every capability that names `id`, which is already gone. */
    method RevokeChildren(id: nat, ghost f: Forest)
      requires Consistent() && Sound(caps, ext, INVALID_ID)
      requires WellFormed(f) && RevokingBelow(f, caps, caps, id)
      modifies this`activeCount, this`caps, this`slot, table
      ensures Consistent() && Sound(caps, ext, INVALID_ID)
      ensures RevokingBelow(f, old(caps), caps, id) && NoneNames(table[..], table.Length, id)
      ensures OnlyInvalidates(old(table[..]), table[..])
      ensures activeCount - |caps| == old(activeCount - |caps|)
      decreases |caps|, 1
    {
      hide Shows, Sound, Linked, WellFormed, OnlyInvalidates, RevokingBelow, Revoked, RevocationExact, Unused,
        NoneNames;
      OnlyInvalidatesSame(table[..]);
      RowSkipped(table[..], 0, id);
      for k := 0 to table.Length
        invariant Consistent() && Sound(caps, ext, INVALID_ID)
        invariant OnlyInvalidates(old(table[..]), table[..])
        invariant activeCount - |caps| == old(activeCount - |caps|)
        invariant RevokingBelow(f, old(caps), caps, id)
        invariant NoneNames(table[..], k, id)
      {
        ghost var before, rows := caps, table[..];
        if table[k].valid && table[k].parent == id {
          ghost var child := table[k].id;
          RevokingSmaller(f, old(caps), caps, id);
          RowShown(rows, caps, slot, k);
          var _ := Revoke(table[k].id);
          RevokeChild(f, old(caps), before, caps, ext, id, child);
          OnlyInvalidatesTransitive(old(table[..]), rows, table[..]);
          RowCleared(rows, table[..], caps, slot, k, id);
        } else {
          RowSkipped(rows, k, id);
        }
      }
    }
  }
}
