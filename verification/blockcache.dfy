/** The write-back sector cache of fs/blockcache.c.

`View` is what the cache promises its users: the slot of a sector if there is
one, else the disk. Lookups, misses and evictions move sectors about and leave
the view alone; a write changes it at one sector; a flush makes the disk equal
to it. */
module BlockCache {
  import opened Wrappers

  type Sector = seq<int>

  /** A drive index and a sector number. */
  type Key = (int, nat)

  const DRIVES: int := 4
  const NEVER: nat := 0xFFFF_FFFF

  datatype Slot = Slot(drive: int, lba: nat, data: Sector, valid: bool, dirty: bool, lastUse: nat)

  /** The sectors that the drives hold. */
  type Disk = map<Key, Sector>

  function KeyOf(s: Slot): Key {
    (s.drive, s.lba)
  }

  /** `place` finds the slot of every cached sector, so no sector has two. */
  ghost predicate Indexed(s: seq<Slot>, place: map<Key, nat>) {
    && (forall i | 0 <= i < |s| && s[i].valid :: KeyOf(s[i]) in place && place[KeyOf(s[i])] == i)
    && (forall k | k in place :: place[k] < |s| && s[place[k]].valid && KeyOf(s[place[k]]) == k)
  }

  /** Cached sectors are on the disk, and clean ones agree with it. */
  ghost predicate Agrees(s: seq<Slot>, disk: Disk) {
    forall i | 0 <= i < |s| && s[i].valid ::
      KeyOf(s[i]) in disk && (!s[i].dirty ==> s[i].data == disk[KeyOf(s[i])])
  }

  /** No slot was used after the clock's time. */
  ghost predicate Timed(s: seq<Slot>, clock: nat) {
    forall i | 0 <= i < |s| :: s[i].lastUse <= clock
  }

  function View(s: seq<Slot>, place: map<Key, nat>, disk: Disk): (v: Disk)
    ensures v.Keys == disk.Keys
  {
    map k | k in disk :: if k in place && place[k] < |s| then s[place[k]].data else disk[k]
  }

  /** The disk with slot `t` written back. */
  function WrittenBack(disk: Disk, t: Slot): Disk {
    disk[KeyOf(t) := t.data]
  }

  // ---------------------------------------------------------------------
  // Single steps
  // ---------------------------------------------------------------------

  lemma IndexedDrop(s: seq<Slot>, place: map<Key, nat>, i: nat, t: Slot)
    requires Indexed(s, place) && i < |s| && s[i].valid && !t.valid
    ensures Indexed(s[i := t], place - {KeyOf(s[i])}) && KeyOf(s[i]) in place && place[KeyOf(s[i])] == i
  {
  }

  lemma AgreesDrop(s: seq<Slot>, disk: Disk, i: nat, t: Slot)
    requires Agrees(s, disk) && i < |s| && !t.valid
    ensures Agrees(s[i := t], disk)
  {
  }

  /** A slot that agrees with the disk can be dropped. */
  lemma DropClean(s: seq<Slot>, place: map<Key, nat>, disk: Disk, i: nat, t: Slot)
    requires Indexed(s, place) && Agrees(s, disk) && i < |s| && s[i].valid && !t.valid
    requires KeyOf(s[i]) in disk && s[i].data == disk[KeyOf(s[i])]
    ensures Indexed(s[i := t], place - {KeyOf(s[i])}) && Agrees(s[i := t], disk)
    ensures View(s[i := t], place - {KeyOf(s[i])}, disk) == View(s, place, disk)
  {
    hide Indexed, Agrees;
    IndexedDrop(s, place, i, t);
    AgreesDrop(s, disk, i, t);
    var k := KeyOf(s[i]);
    var v, w := View(s[i := t], place - {k}, disk), View(s, place, disk);
    forall l | l in v
      ensures v[l] == w[l]
    {
      if l != k && l in place {
        IndexedApart(s, place, l, k);
      }
    }
  }

  /** Writing a slot back makes it clean. */
  lemma WriteBack(s: seq<Slot>, place: map<Key, nat>, disk: Disk, i: nat)
    requires Indexed(s, place) && Agrees(s, disk) && i < |s| && s[i].valid
    ensures var u := s[i := s[i].(dirty := false)]; var e := WrittenBack(disk, s[i]);
            && Indexed(u, place) && Agrees(u, e) && e.Keys == disk.Keys
            && View(u, place, e) == View(s, place, disk)
  {
    hide Indexed, Agrees;
    var t := s[i].(dirty := false);
    Replace(s, place, disk, i, t, WrittenBack(disk, s[i]));
    IndexedSame(s, place, i, t);
    AgreesAt(s, disk, i);
    var v := View(s, place, disk);
    assert v[KeyOf(t)] == t.data;
    assert v[KeyOf(t) := t.data] == v;
  }

  /** A free slot takes in a sector that is not cached. */
  lemma TakeIn(s: seq<Slot>, place: map<Key, nat>, disk: Disk, i: nat, t: Slot)
    requires Indexed(s, place) && Agrees(s, disk) && i < |s| && !s[i].valid
    requires t.valid && KeyOf(t) !in place && KeyOf(t) in disk && t.data == disk[KeyOf(t)]
    ensures Indexed(s[i := t], place[KeyOf(t) := i]) && Agrees(s[i := t], disk)
    ensures View(s[i := t], place[KeyOf(t) := i], disk) == View(s, place, disk)
  {
    hide Indexed, Agrees;
    IndexedAdd(s, place, i, t);
    AgreesAdd(s, disk, i, t);
    var k := KeyOf(t);
    var v, w := View(s[i := t], place[k := i], disk), View(s, place, disk);
    forall l | l in v
      ensures v[l] == w[l]
    {
      if l != k && l in place {
        IndexedAt(s, place, l);
      }
    }
  }

  lemma IndexedAdd(s: seq<Slot>, place: map<Key, nat>, i: nat, t: Slot)
    requires Indexed(s, place) && i < |s| && !s[i].valid && t.valid && KeyOf(t) !in place
    ensures Indexed(s[i := t], place[KeyOf(t) := i])
  {
  }

  lemma AgreesAdd(s: seq<Slot>, disk: Disk, i: nat, t: Slot)
    requires Agrees(s, disk) && i < |s| && KeyOf(t) in disk && t.data == disk[KeyOf(t)]
    ensures Agrees(s[i := t], disk)
  {
  }

  lemma IndexedAt(s: seq<Slot>, place: map<Key, nat>, k: Key)
    requires Indexed(s, place) && k in place
    ensures place[k] < |s| && s[place[k]].valid && KeyOf(s[place[k]]) == k
  {
  }

  /** A sector that is not cached is written on the disk. */
  lemma DiskWrite(s: seq<Slot>, place: map<Key, nat>, disk: Disk, k: Key, data: Sector)
    requires Indexed(s, place) && Agrees(s, disk) && k in disk && k !in place
    ensures var e := disk[k := data];
            Agrees(s, e) && e.Keys == disk.Keys && View(s, place, e) == View(s, place, disk)[k := data]
  {
  }

  lemma IndexedSame(s: seq<Slot>, place: map<Key, nat>, i: nat, t: Slot)
    requires Indexed(s, place) && i < |s| && s[i].valid && t.valid && KeyOf(t) == KeyOf(s[i])
    ensures Indexed(s[i := t], place) && KeyOf(t) in place && place[KeyOf(t)] == i
  {
  }

  lemma AgreesReplaced(s: seq<Slot>, place: map<Key, nat>, disk: Disk, i: nat, t: Slot, e: Disk)
    requires Indexed(s, place) && Agrees(s, disk) && i < |s| && s[i].valid
    requires t.valid && KeyOf(t) == KeyOf(s[i])
    requires (e == disk && t.dirty) || e == WrittenBack(disk, t)
    ensures Agrees(s[i := t], e) && e.Keys == disk.Keys
  {
    var u := s[i := t];
    forall j | 0 <= j < |u| && u[j].valid
      ensures KeyOf(u[j]) in e && (!u[j].dirty ==> u[j].data == e[KeyOf(u[j])])
    {
      assert s[j].valid && KeyOf(u[j]) == KeyOf(s[j]);
    }
  }

  /** A cached sector gets new bytes, still to be written back or already on `e`. */
  lemma Replace(s: seq<Slot>, place: map<Key, nat>, disk: Disk, i: nat, t: Slot, e: Disk)
    requires Indexed(s, place) && Agrees(s, disk) && i < |s| && s[i].valid
    requires t.valid && KeyOf(t) == KeyOf(s[i])
    requires (e == disk && t.dirty) || e == WrittenBack(disk, t)
    ensures Indexed(s[i := t], place) && Agrees(s[i := t], e) && e.Keys == disk.Keys
    ensures View(s[i := t], place, e) == View(s, place, disk)[KeyOf(t) := t.data]
  {
    hide Agrees;
    IndexedSame(s, place, i, t);
    AgreesReplaced(s, place, disk, i, t, e);
    AgreesAt(s, disk, i);
    var v, w := View(s[i := t], place, e), View(s, place, disk)[KeyOf(t) := t.data];
    assert v.Keys == w.Keys;
    hide Indexed;
    forall k | k in v
      ensures v[k] == w[k]
    {
      if k != KeyOf(t) && k in place {
        IndexedApart(s, place, k, KeyOf(t));
      }
    }
  }

  lemma AgreesAt(s: seq<Slot>, disk: Disk, i: nat)
    requires Agrees(s, disk) && i < |s| && s[i].valid
    ensures KeyOf(s[i]) in disk
  {
  }

  lemma IndexedApart(s: seq<Slot>, place: map<Key, nat>, k: Key, l: Key)
    requires Indexed(s, place) && k in place && l in place && k != l
    ensures place[k] != place[l] && place[k] < |s|
  {
  }

  lemma TimedPut(s: seq<Slot>, clock: nat, i: nat, t: Slot)
    requires Timed(s, clock) && i < |s| && t.lastUse <= clock
    ensures Timed(s[i := t], clock)
  {
  }

  lemma TimedAt(s: seq<Slot>, clock: nat, i: nat)
    requires Timed(s, clock) && i < |s|
    ensures s[i].lastUse <= clock
  {
  }

  lemma TimedLater(s: seq<Slot>, clock: nat)
    requires Timed(s, clock)
    ensures Timed(s, clock + 1)
  {
  }

  lemma CleanSlot(s: seq<Slot>, disk: Disk, i: nat)
    requires Agrees(s, disk) && i < |s| && s[i].valid && !s[i].dirty
    ensures KeyOf(s[i]) in disk && s[i].data == disk[KeyOf(s[i])]
  {
  }

  lemma TimedWithout(s: seq<Slot>, clock: nat, drive: int)
    requires Timed(s, clock)
    ensures Timed(Without(s, drive), clock)
  {
  }

  /** Reading a cached sector changes the time of its last use only. */
  lemma Touch(s: seq<Slot>, place: map<Key, nat>, disk: Disk, i: nat, t: Slot)
    requires Indexed(s, place) && Agrees(s, disk) && i < |s| && s[i].valid && t == s[i].(lastUse := t.lastUse)
    ensures Indexed(s[i := t], place) && Agrees(s[i := t], disk)
    ensures View(s[i := t], place, disk) == View(s, place, disk)
  {
    hide Indexed;
    IndexedSame(s, place, i, t);
  }

  /** A flush of `drive` has reached slot `n`: below it nothing of the drive is dirty. */
  ghost predicate FlushedTo(s: seq<Slot>, drive: int, n: nat) {
    forall i | 0 <= i < |s| && i < n && s[i].valid && s[i].drive == drive :: !s[i].dirty
  }

  lemma FlushedNone(s: seq<Slot>, drive: int)
    ensures FlushedTo(s, drive, 0)
  {
  }

  lemma FlushedNext(s: seq<Slot>, drive: int, n: nat, t: seq<Slot>)
    requires FlushedTo(s, drive, n) && n < |s| == |t| && t == s[n := t[n]]
    requires t[n] == if s[n].valid && s[n].dirty && s[n].drive == drive then s[n].(dirty := false) else s[n]
    ensures FlushedTo(t, drive, n + 1)
  {
  }

  /** Where nothing of a drive is dirty, its sectors on the disk are the view. */
  lemma FlushedIsView(s: seq<Slot>, place: map<Key, nat>, disk: Disk, drive: int, k: Key)
    requires Indexed(s, place) && Agrees(s, disk) && FlushedTo(s, drive, |s|) && k in disk && k.0 == drive
    ensures disk[k] == View(s, place, disk)[k]
  {
    if k in place {
      assert s[place[k]].valid;
    }
  }

  /** The slots without those of `drive`. */
  function Without(s: seq<Slot>, drive: int): (r: seq<Slot>)
    ensures |r| == |s|
    ensures forall i | 0 <= i < |s| :: r[i] == if s[i].valid && s[i].drive == drive then s[i].(valid := false) else s[i]
  {
    seq(|s|, i requires 0 <= i < |s| => if s[i].valid && s[i].drive == drive then s[i].(valid := false) else s[i])
  }

  /** Invalidating a drive loses nothing exactly when its dirty slots hold what
      the disk holds; after a flush that is always so. */
  lemma InvalidateLoses(s: seq<Slot>, place: map<Key, nat>, disk: Disk, drive: int)
    requires Indexed(s, place) && Agrees(s, disk)
    ensures var q := map k | k in place && k.0 != drive :: place[k];
            && Indexed(Without(s, drive), q) && Agrees(Without(s, drive), disk)
            && (forall k | k in disk ::
                  View(Without(s, drive), q, disk)[k] == if k.0 == drive then disk[k] else View(s, place, disk)[k])
            && (View(Without(s, drive), q, disk) == View(s, place, disk) <==>
                forall i | 0 <= i < |s| && s[i].valid && s[i].drive == drive :: s[i].data == disk[KeyOf(s[i])])
  {
    var q := map k | k in place && k.0 != drive :: place[k];
    var r := Without(s, drive);
    assert Indexed(r, q);
    assert Agrees(r, disk);
    forall k | k in disk
      ensures View(r, q, disk)[k] == if k.0 == drive then disk[k] else View(s, place, disk)[k]
    {
      if k in q {
        assert s[place[k]].valid;
      }
    }
    hide Indexed;
    InvalidateView(s, place, disk, drive, View(r, q, disk));
  }

  lemma InvalidateView(s: seq<Slot>, place: map<Key, nat>, disk: Disk, drive: int, v: Disk)
    requires Indexed(s, place) && Agrees(s, disk) && v.Keys == disk.Keys
    requires forall k | k in disk :: v[k] == if k.0 == drive then disk[k] else View(s, place, disk)[k]
    ensures v == View(s, place, disk) <==>
            forall i | 0 <= i < |s| && s[i].valid && s[i].drive == drive :: s[i].data == disk[KeyOf(s[i])]
  {
    var w := View(s, place, disk);
    if v == w {
      forall i | 0 <= i < |s| && s[i].valid && s[i].drive == drive
        ensures s[i].data == disk[KeyOf(s[i])]
      {
        assert w[KeyOf(s[i])] == s[i].data;
      }
    }
    if forall i | 0 <= i < |s| && s[i].valid && s[i].drive == drive :: s[i].data == disk[KeyOf(s[i])] {
      forall k | k in v
        ensures v[k] == w[k]
      {
        if k in place {
          assert s[place[k]].valid;
        }
      }
      assert v == w;
    }
  }

  /** What is to be evicted: a free slot, else the clean slot used longest ago,
      else, with all slots dirty, the slot used longest ago. */
  predicate IsVictim(s: seq<Slot>, i: nat) {
    && i < |s|
    && (s[i].valid ==> forall j | 0 <= j < |s| :: s[j].valid)
    && (s[i].valid && !s[i].dirty ==> forall j | 0 <= j < |s| && !s[j].dirty :: s[i].lastUse <= s[j].lastUse)
    && (s[i].valid && s[i].dirty ==> forall j | 0 <= j < |s| :: s[j].dirty && s[i].lastUse <= s[j].lastUse)
  }

  /** The disk after slot `t` was evicted. */
  function EvictedTo(disk: Disk, t: Slot): Disk {
    if t.valid && t.dirty then WrittenBack(disk, t) else disk
  }

  lemma VictimInside(s: seq<Slot>, i: nat)
    requires IsVictim(s, i)
    ensures i < |s|
  {
  }

  class Cache {
    const slots: array<Slot>
    var disk: Disk
    var clock: nat
    ghost var place: map<Key, nat>

    ghost predicate Valid()
      reads this, slots
    {
      && slots.Length > 0 && clock < NEVER
      && Indexed(slots[..], place) && Agrees(slots[..], disk) && Timed(slots[..], clock)
    }

    ghost function V(): Disk
      reads this, slots
    {
      View(slots[..], place, disk)
    }

    /** An empty cache before `d` shows `d`. */
    constructor (n: nat, d: Disk)
      requires n > 0
      ensures Valid() && fresh(slots) && slots.Length == n && disk == d && clock == 0 && V() == d
    {
      slots := new Slot[n](_ => Slot(0, 0, [], false, false, 0));
      disk, clock, place := d, 0, map[];
    }

    /** find_slot. */
    method Find(drive: int, lba: nat) returns (r: Option<nat>)
      requires Valid()
      ensures r.Some? <==> (drive, lba) in place
      ensures r.Some? ==> r.value < slots.Length && place[(drive, lba)] == r.value
      ensures r.Some? ==> slots[r.value].valid && KeyOf(slots[r.value]) == (drive, lba)
    {
      for i := 0 to slots.Length
        invariant forall j | 0 <= j < i :: !(slots[j].valid && KeyOf(slots[j]) == (drive, lba))
      {
        if slots[i].valid && slots[i].drive == drive && slots[i].lba == lba {
          return Some(i);
        }
      }
      assert forall k | k in place :: slots[..][place[k]].valid;
      return None;
    }

    /** The choice of evict_slot: a free slot, else the clean slot used longest
        ago, else, with all slots dirty, the slot used longest ago. */
    method Victim() returns (i: nat)
      requires Valid()
      ensures IsVictim(slots[..], i)
    {
      var best: Option<nat>, oldest := None, NEVER;
      for j := 0 to slots.Length
        invariant forall k | 0 <= k < j :: slots[k].valid
        invariant best.None? ==> oldest == NEVER && forall k | 0 <= k < j :: slots[k].dirty
        invariant best.Some? ==> best.value < j && !slots[best.value].dirty && slots[best.value].lastUse == oldest
        invariant forall k | 0 <= k < j && !slots[k].dirty :: oldest <= slots[k].lastUse
      {
        if !slots[j].valid {
          return j;
        }
        assert slots[..][j].lastUse <= clock;
        if !slots[j].dirty && slots[j].lastUse < oldest {
          oldest := slots[j].lastUse;
          best := Some(j);
        }
      }
      if best.Some? {
        return best.value;
      }
      oldest := NEVER;
      for j := 0 to slots.Length
        invariant best.None? ==> oldest == NEVER && j == 0
        invariant best.Some? ==> best.value < j && slots[best.value].lastUse == oldest
        invariant forall k | 0 <= k < j :: oldest <= slots[k].lastUse
      {
        assert slots[..][j].lastUse <= clock;
        if slots[j].lastUse < oldest {
          oldest := slots[j].lastUse;
          best := Some(j);
        }
      }
      return best.value;
    }

    /** evict_slot: one slot becomes free; what the cache shows stays the same. */
    method Evict() returns (i: nat)
      requires Valid()
      modifies this`disk, this`place, slots
      ensures Valid() && V() == old(V()) && disk.Keys == old(disk).Keys
      ensures IsVictim(old(slots[..]), i) && i < slots.Length && !slots[i].valid
      ensures slots[..] == old(slots[..])[i := slots[i]] && disk == EvictedTo(old(disk), old(slots[..])[i])
      ensures place.Keys <= old(place).Keys
    {
      hide Indexed, Agrees, View, Timed, IsVictim;
      i := Victim();
      VictimInside(slots[..], i);
      if !slots[i].valid {
        assert slots[..] == old(slots[..])[i := slots[i]];
        return;
      }
      TimedAt(slots[..], clock, i);
      if slots[i].dirty {
        WriteBack(slots[..], place, disk, i);
        TimedPut(slots[..], clock, i, slots[i].(dirty := false));
        disk := WrittenBack(disk, slots[i]);
        slots[i] := slots[i].(dirty := false);
        assert slots[..] == old(slots[..])[i := slots[i]];
      }
      CleanSlot(slots[..], disk, i);
      DropClean(slots[..], place, disk, i, slots[i].(valid := false));
      TimedPut(slots[..], clock, i, slots[i].(valid := false));
      ghost var s := slots[..];
      place := place - {KeyOf(slots[i])};
      slots[i] := slots[i].(valid := false);
      assert slots[..] == s[i := slots[i]] == old(slots[..])[i := slots[i]];
    }

    /** Slot `i` becomes `t`, used just now. */
    method Use(i: nat, t: Slot)
      requires i < slots.Length && clock + 1 < NEVER && Timed(slots[..], clock)
      modifies this`clock, slots
      ensures clock == old(clock) + 1 && Timed(slots[..], clock)
      ensures slots[..] == old(slots[..])[i := t.(lastUse := clock)]
    {
      TimedLater(slots[..], clock);
      clock := clock + 1;
      TimedPut(slots[..], clock, i, t.(lastUse := clock));
      slots[i] := t.(lastUse := clock);
      assert slots[..] == old(slots[..])[i := t.(lastUse := clock)];
    }

    /** bcache_get: the slot that now holds the sector, or nothing when the drive
        number is out of range or the drive has no such sector. Either way, what
        the cache shows stays the same. */
    method Get(drive: int, lba: nat) returns (r: Option<nat>)
      requires Valid() && clock + 1 < NEVER
      modifies this`disk, this`place, this`clock, slots
      ensures Valid() && V() == old(V()) && disk.Keys == old(disk).Keys && clock <= old(clock) + 1
      ensures r.Some? <==> 0 <= drive < DRIVES && (drive, lba) in disk
      ensures r.Some? ==> r.value < slots.Length && slots[r.value].valid && KeyOf(slots[r.value]) == (drive, lba)
      ensures r.Some? ==> slots[r.value].data == V()[(drive, lba)] && slots[r.value].lastUse == clock
      ensures r.Some? ==> slots[..] == old(slots[..])[r.value := slots[r.value]]
      ensures r.Some? && (drive, lba) !in old(place) ==> IsVictim(old(slots[..]), r.value)
      ensures (drive, lba) in old(place) ==> disk == old(disk)
      ensures r.Some? ==> slots[r.value].dirty == ((drive, lba) in old(place) && old(slots[..])[r.value].dirty)
    {
      hide Indexed, Agrees, Timed, IsVictim;
      if drive < 0 || drive >= DRIVES {
        return None;
      }
      r := Find(drive, lba);
      if r.Some? {
        AgreesAt(slots[..], disk, r.value);
        Touch(slots[..], place, disk, r.value, slots[r.value].(lastUse := clock + 1));
        Use(r.value, slots[r.value]);
        return;
      }
      var i := Evict();
      if (drive, lba) !in disk {
        return None;
      }
      var t := slots[i].(valid := true, dirty := false, drive := drive, lba := lba, data := disk[(drive, lba)]);
      TakeIn(slots[..], place, disk, i, t.(lastUse := clock + 1));
      Use(i, t);
      assert slots[..] == old(slots[..])[i := slots[i]];
      place := place[(drive, lba) := i];
      return Some(i);
    }

    /** The caller of bcache_get writes through the pointer and calls bcache_dirty. */
    method Modify(drive: int, lba: nat, data: Sector)
      requires Valid() && (drive, lba) in place
      modifies slots
      ensures Valid() && V() == old(V())[(drive, lba) := data]
    {
      hide Indexed, Agrees, View, Timed;
      var r := Find(drive, lba);
      var i := r.value;
      var t := slots[i].(data := data, dirty := true);
      Replace(slots[..], place, disk, i, t, disk);
      TimedAt(slots[..], clock, i);
      TimedPut(slots[..], clock, i, t);
      slots[i] := t;
      assert slots[..] == old(slots[..])[i := t];
    }

    /** bcache_write_through on a sector that the drive has. */
    method WriteThrough(drive: int, lba: nat, data: Sector) returns (ok: bool)
      requires Valid() && clock + 1 < NEVER && (0 <= drive < DRIVES ==> (drive, lba) in disk)
      modifies this`disk, this`place, this`clock, slots
      ensures Valid() && clock <= old(clock) + 1 && disk.Keys == old(disk).Keys
      ensures ok <==> 0 <= drive < DRIVES
      ensures V() == if ok then old(V())[(drive, lba) := data] else old(V())
      ensures ok ==> disk[(drive, lba)] == data && (drive, lba) in place
      ensures ok ==> place[(drive, lba)] < slots.Length && !slots[place[(drive, lba)]].dirty
    {
      hide Indexed, Agrees, View, Timed;
      if drive < 0 || drive >= DRIVES {
        return false;
      }
      ok := true;
      var k := (drive, lba);
      var r := Find(drive, lba);
      if r.Some? {
        var t := slots[r.value].(data := data, dirty := false);
        var e := disk[k := data];
        Replace(slots[..], place, disk, r.value, t.(lastUse := clock + 1), e);
        Use(r.value, t);
        disk := e;
      } else {
        var i := Evict();
        assert k in disk && k !in place;
        var t := slots[i].(valid := true, dirty := false, drive := drive, lba := lba, data := data);
        DiskWrite(slots[..], place, disk, k, data);
        disk := disk[k := data];
        TakeIn(slots[..], place, disk, i, t.(lastUse := clock + 1));
        Use(i, t);
        place := place[k := i];
      }
    }

    /** bcache_flush: the view stays, and on this drive the disk becomes the view. */
    method Flush(drive: int) returns (ok: bool)
      requires Valid()
      modifies this`disk, slots
      ensures Valid() && V() == old(V()) && disk.Keys == old(disk).Keys
      ensures ok <==> 0 <= drive < DRIVES
      ensures forall k | k in disk :: disk[k] == if ok && k.0 == drive then V()[k] else old(disk)[k]
      ensures ok ==> FlushedTo(slots[..], drive, slots.Length)
    {
      hide Indexed, Agrees, View, Timed, FlushedTo;
      if drive < 0 || drive >= DRIVES {
        return false;
      }
      ok := true;
      FlushedNone(slots[..], drive);
      for i := 0 to slots.Length
        invariant Valid() && V() == old(V()) && disk.Keys == old(disk).Keys
        invariant FlushedTo(slots[..], drive, i)
        invariant forall k | k in disk && k.0 != drive :: disk[k] == old(disk)[k]
      {
        ghost var s := slots[..];
        var t := slots[i].(dirty := false);
        if slots[i].valid && slots[i].dirty && slots[i].drive == drive {
          WriteBack(slots[..], place, disk, i);
          TimedAt(slots[..], clock, i);
          TimedPut(slots[..], clock, i, t);
          disk := WrittenBack(disk, slots[i]);
          slots[i] := t;
          assert slots[..] == s[i := t];
        }
        FlushedNext(s, drive, i, slots[..]);
      }
      forall k | k in disk && k.0 == drive
        ensures disk[k] == V()[k]
      {
        FlushedIsView(slots[..], place, disk, drive, k);
      }
    }

    /** bcache_invalidate: the drive's slots are dropped. Nothing is lost if and
        only if every one of them holds what the disk holds. */
    method Invalidate(drive: int)
      requires Valid()
      modifies this`place, slots
      ensures Valid() && slots[..] == Without(old(slots[..]), drive)
      ensures forall k | k in disk :: V()[k] == if k.0 == drive then disk[k] else old(V())[k]
      ensures V() == old(V()) <==>
              forall i | 0 <= i < slots.Length && old(slots[i].valid && slots[i].drive == drive) ::
                old(slots[i].data) == disk[old(KeyOf(slots[i]))]
    {
      hide Indexed, Agrees, View, Timed;
      ghost var s := slots[..];
      for i := 0 to slots.Length
        modifies slots
        invariant forall j | 0 <= j < slots.Length :: slots[j] == if j < i then Without(s, drive)[j] else s[j]
      {
        if slots[i].valid && slots[i].drive == drive {
          slots[i] := slots[i].(valid := false);
        }
      }
      assert slots[..] == Without(s, drive);
      InvalidateLoses(s, place, disk, drive);
      TimedWithout(s, clock, drive);
      place := map k | k in place && k.0 != drive :: place[k];
    }

    /** Flushing a drive and then invalidating it loses nothing. */
    method FlushInvalidate(drive: int)
      requires Valid() && 0 <= drive < DRIVES
      modifies this`place, this`disk, slots
      ensures Valid() && V() == old(V())
      ensures forall i | 0 <= i < slots.Length :: !(slots[i].valid && slots[i].drive == drive)
    {
      hide Indexed, View, Timed;
      var ok := Flush(drive);
      Invalidate(drive);
    }
  }
}
