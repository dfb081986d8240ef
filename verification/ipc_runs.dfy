/** Whole runs of the message ports and the capability table: steps of any number
of tasks, in any order.

The books of a run say which ports were created to last, and which capabilities
belong to nobody's port. Ports beyond the first are the reply ports of calls that
still wait; capabilities beyond the second are those of ports. So whenever the
same calls wait as before, nothing was left behind. */
module IpcRuns {
  import opened Capabilities
  import opened Ipc

  datatype Step =
    | MakePort(owner: nat)
    | DropPort(id: nat)
    | SendTo(id: nat, msg: Msg)
    | ReceiveFrom(id: nat, timeout: nat, waited: nat)
    | ReplyTo(request: Msg, data: Msg)
    | BeginCall(id: nat, msg: Msg, timeout: nat)
    | PassCall(reply: nat)
    | TakeReference(cap: nat)
    | DropReference(cap: nat)
    | MakeCap(kind: nat, rights: Rights, target: nat, owner: nat)
    | DeriveCap(parent: nat, rights: Rights)
    | TransferCap(cap: nat, owner: nat)
    | RevokeCap(cap: nat)

  /** What the steps can see: `calls` has the reply ports of waiting calls. */
  datatype World = World(ports: map<nat, Port>, holder: map<nat, nat>, calls: set<nat>, log: map<nat, Log>,
                         caps: Forest, ext: References, nextId: nat, nextCap: nat)

  datatype Books = Books(lasting: set<nat>, foreign: set<nat>)

  ghost predicate Settled(w: World, b: Books) {
    && w.ports.Keys == b.lasting + w.calls && b.lasting !! w.calls
    && w.caps.Keys == b.foreign + w.holder.Keys && b.foreign !! w.holder.Keys
    && (forall x | x in w.ports :: x < w.nextId)
  }

  /** Nobody but the ports themselves refers to the capabilities of ports. */
  ghost predicate Unshared(w: World) {
    forall c | c in w.holder :: External(w.ext, c) == 1
  }

  /** No port has lost its capability. */
  ghost predicate Intact(w: World) {
    forall x | x in w.ports && w.ports[x].cap != INVALID_ID :: w.ports[x].cap in w.holder
  }

  /** The references that tasks have taken and not yet given back are counted, beside
      the one that each port has on its own capability. */
  ghost predicate Backed(w: World, taken: multiset<nat>) {
    && (forall x | x in taken :: x < w.nextCap)
    && (forall x | x in w.caps :: taken[x] + (if x in w.holder then 1 else 0) <= External(w.ext, x))
  }

  /** No port number is ever used again, ports keep their capabilities, and what a
      port has accepted and delivered is only ever added to. */
  ghost predicate Evolved(w: World, v: World) {
    && w.nextId <= v.nextId && w.nextCap <= v.nextCap && SameCaps(w.ports, v.ports)
    && (forall x | x in v.ports :: x in w.ports || w.nextId <= x)
    && (forall x | x in w.ports && x in v.ports :: Longer(w.log, v.log, x))
  }

  /** A step that makes and drops no port and no capability. */
  ghost predicate Quiet(w: World, v: World) {
    && v.ports.Keys == w.ports.Keys && SameCaps(w.ports, v.ports) && v.holder == w.holder && v.calls == w.calls
    && v.caps.Keys == w.caps.Keys && w.nextId <= v.nextId && w.nextCap <= v.nextCap && LogsGrow(w.ports, w.log, v.log)
  }

  ghost predicate Opened(w: World, v: World, id: nat) {
    && id == w.nextId < v.nextId && v.ports.Keys == w.ports.Keys + {id} && SameCaps(w.ports, v.ports)
    && LogsGrow(w.ports, w.log, v.log) && w.nextCap <= v.nextCap
    && CreatedCap(w.caps, v.caps, w.ext, v.ext, v.ports[id].cap)
    && (v.ports[id].cap == INVALID_ID || v.ports[id].cap == w.nextCap < v.nextCap)
    && v.holder == if v.ports[id].cap == INVALID_ID then w.holder else w.holder[v.ports[id].cap := id]
  }

  ghost predicate Closed(w: World, v: World, id: nat) {
    && id in w.ports && v.ports.Keys == w.ports.Keys - {id} && SameCaps(w.ports, v.ports) && v.nextId == w.nextId
    && LogsGrow(w.ports, w.log, v.log) && w.nextCap == v.nextCap
    && ReleasedCap(w.caps, v.caps, w.ext, v.ext, w.ports[id].cap)
    && v.holder == w.holder - {w.ports[id].cap}
  }

  /** A step on the capability table: ports keep their capabilities, but for one that
      is revoked. */
  ghost predicate Recapped(w: World, v: World, gone: set<nat>) {
    && v.ports == w.ports && v.calls == w.calls && v.log == w.log && v.nextId == w.nextId && w.nextCap <= v.nextCap
    && v.holder == w.holder - gone && v.holder.Keys <= v.caps.Keys
    && (forall x | x in v.holder :: External(v.ext, x) <= External(w.ext, x))
  }

  lemma EvolvedTransitive(u: World, w: World, v: World)
    requires Evolved(u, w) && Evolved(w, v) && forall x | x in u.ports :: x < u.nextId
    ensures Evolved(u, v)
  {
  }

  lemma QuietSettled(w: World, v: World, b: Books)
    requires Settled(w, b) && Quiet(w, v)
    ensures Settled(v, b) && Evolved(w, v) && (Intact(w) ==> Intact(v))
    ensures Unshared(w) && SameReferences(v.caps, w.ext, v.ext) ==> Unshared(v)
  {
  }

  lemma QuietBacked(w: World, v: World, taken: multiset<nat>)
    requires Backed(w, taken) && Quiet(w, v) && SameReferences(v.caps, w.ext, v.ext)
    ensures Backed(v, taken)
  {
  }

  /** A new port is a lasting one, or the reply port of a call that now waits. */
  lemma OpenedSettled(w: World, v: World, id: nat, b: Books)
    requires Settled(w, b) && Opened(w, v, id) && (v.calls == w.calls || v.calls == w.calls + {id})
    ensures Settled(v, if v.calls == w.calls then b.(lasting := b.lasting + {id}) else b)
  {
    hide LogsGrow, SameCaps;
  }

  lemma OpenedEvolved(w: World, v: World, id: nat, b: Books)
    requires Settled(w, b) && Opened(w, v, id)
    ensures Evolved(w, v) && (Intact(w) ==> Intact(v))
  {
    hide CreatedCap;
  }

  lemma OpenedBacked(w: World, v: World, id: nat, taken: multiset<nat>)
    requires Opened(w, v, id)
    ensures Backed(w, taken) ==> Backed(v, taken)
    ensures Unshared(w) ==> Unshared(v)
  {
    hide LogsGrow, SameCaps;
  }

  ghost function AfterDrop(w: World, id: nat, b: Books): Books
    requires id in w.ports
  {
    var c := w.ports[id].cap;
    Books(b.lasting - {id}, b.foreign + if External(w.ext, c) > 1 then {c} * w.holder.Keys else {})
  }

  /** A dropped port leaves its capability behind exactly if it was shared. */
  lemma ClosedSettled(w: World, v: World, id: nat, b: Books)
    requires Settled(w, b) && Closed(w, v, id) && v.calls == w.calls - {id} && Held(w)
    ensures Settled(v, AfterDrop(w, id, b))
    ensures Unshared(w) ==> Settled(v, b.(lasting := b.lasting - {id}))
  {
    hide LogsGrow, SameCaps;
    var c := w.ports[id].cap;
    var left := if External(w.ext, c) > 1 then {c} * w.holder.Keys else {};
    assert v.ports.Keys == (b.lasting - {id}) + v.calls;
    assert v.holder.Keys == w.holder.Keys - {c};
    if c in w.caps {
      assert c in v.caps <==> External(w.ext, c) > 1;
      assert v.caps.Keys == (v.caps.Keys - {c}) + left == (w.caps.Keys - {c}) + left;
    }
    assert v.caps.Keys == (b.foreign + left) + v.holder.Keys;
    if Unshared(w) {
      assert b.foreign + left == b.foreign;
    }
  }

  lemma ClosedEvolved(w: World, v: World, id: nat)
    requires Closed(w, v, id) && Held(w)
    ensures Evolved(w, v) && (Intact(w) ==> Intact(v))
  {
    hide ReleasedCap;
    if Intact(w) {
      forall x | x in v.ports && v.ports[x].cap != INVALID_ID
        ensures v.ports[x].cap in v.holder
      {
        var c := w.ports[x].cap;
        assert c in w.holder && w.holder[c] == x;
      }
    }
  }

  lemma ClosedBacked(w: World, v: World, id: nat, taken: multiset<nat>)
    requires Backed(w, taken) && Closed(w, v, id) && Held(w)
    ensures Backed(v, taken) && (Unshared(w) ==> Unshared(v))
  {
    hide LogsGrow, SameCaps;
    var c := w.ports[id].cap;
    forall x | x in v.caps
      ensures taken[x] + (if x in v.holder then 1 else 0) <= External(v.ext, x)
    {
      if x == c {
        assert c in w.holder;
      } else {
        assert x in v.caps.Keys - {c};
      }
    }
  }

  lemma RecappedSettled(w: World, v: World, b: Books, gone: set<nat>)
    requires Settled(w, b) && Recapped(w, v, gone) && Held(w)
    requires forall x | x in v.holder :: External(v.ext, x) >= 1
    ensures Settled(v, b.(foreign := v.caps.Keys - v.holder.Keys)) && Evolved(w, v)
    ensures Unshared(w) ==> Unshared(v)
    ensures gone == {} && Intact(w) ==> Intact(v)
  {
    assert v.caps.Keys == (v.caps.Keys - v.holder.Keys) + v.holder.Keys;
  }

  /** The capabilities of ports are exactly those that `holder` lists. */
  ghost predicate Held(w: World) {
    && INVALID_ID !in w.holder && w.holder.Keys <= w.caps.Keys
    && (forall x | x in w.ports && w.ports[x].cap in w.caps ::
          w.ports[x].cap in w.holder && w.holder[w.ports[x].cap] == x)
    && (forall c | c in w.holder :: w.holder[c] in w.ports && w.ports[w.holder[c]].cap == c)
    && (forall c | c in w.holder :: External(w.ext, c) >= 1)
    && (forall x | x in w.ports :: x in w.log)
    && (forall c | c in w.caps :: c < w.nextCap)
  }

  lemma SameHolders(w: World, v: World)
    requires v.ports.Keys == w.ports.Keys && SameCaps(w.ports, v.ports) && Held(w) && Held(v) && Intact(w) && Intact(v)
    ensures v.holder.Keys == w.holder.Keys
  {
    forall c | c in w.holder
      ensures c in v.holder
    {
      assert v.ports[w.holder[c]].cap == c;
    }
    forall c | c in v.holder
      ensures c in w.holder
    {
      assert w.ports[v.holder[c]].cap == c;
    }
  }

  /** With the same books and the same calls waiting, the ports and the
      capabilities are the same as before. */
  lemma Restored(w: World, v: World, b: Books)
    requires Settled(w, b) && Settled(v, b) && Evolved(w, v) && Held(w) && Held(v) && w.calls == v.calls
    requires Intact(w) && Intact(v)
    ensures v.ports.Keys == w.ports.Keys && v.caps.Keys == w.caps.Keys
  {
    hide Held, Intact;
    SameHolders(w, v);
  }

  ghost function Now(t: PortTable): World
    reads t, t.caps
  {
    World(t.ports, t.holder, t.calls.Keys, t.log, t.caps.caps, t.caps.ext, t.nextId, t.caps.nextId)
  }

  lemma ValidHeld(t: PortTable)
    requires t.Valid()
    ensures Held(Now(t)) && t.calls.Keys <= t.ports.Keys
    ensures forall x | x in t.ports :: x < t.nextId
    ensures LogsGrow(t.ports, t.log, t.log)
  {
    hide Shown, CapTable.Valid, OldCaps;
    CapFacts(t.caps);
    t.SameLogs();
    forall x | x in t.ports && t.ports[x].cap in t.caps.caps
      ensures t.ports[x].cap in t.holder && t.holder[t.ports[x].cap] == x
    {
      assert OwnsCap(t.ports, t.holder, t.caps.caps, x);
    }
    forall c | c in t.holder
      ensures t.holder[c] in t.ports && t.ports[t.holder[c]].cap == c
      ensures c in t.caps.caps && External(t.caps.ext, c) >= 1
    {
      assert CapHeld(t.ports, t.holder, t.caps.caps, t.caps.ext, c);
    }
  }

  /** Messages come with the fixed number of capability fields. */
  predicate Sendable(s: Step) {
    (s.SendTo? || s.BeginCall? ==> |s.msg.caps| == MAX_CAPS) && (s.ReplyTo? ==> |s.data.caps| == MAX_CAPS)
  }

  /** The counters have room for `n` more steps. */
  ghost predicate Room(t: PortTable, n: nat)
    reads t, t.caps
  {
    t.nextId + n <= MAX_COUNT && t.msgSeq + 2 * n <= MAX_COUNT && t.caps.nextId + n <= MAX_ID
  }

  /** Steps that make capabilities or take them away. */
  predicate Reshapes(s: Step) {
    s.MakeCap? || s.DeriveCap? || s.DropReference? || s.RevokeCap?
  }

  /** What one step may do to the books. */
  ghost predicate Posted(s: Step, w: World, b: Books, c: Books) {
    && (s.MakePort? || s.DropPort? || c.lasting == b.lasting)
    && (Unshared(w) && !Reshapes(s) ==> c.foreign == b.foreign)
  }

  /** One step of one task. Ports that calls wait on are not dropped by others, and a
      task gives back only references that were taken. */
  method Perform(t: PortTable, s: Step, taken: multiset<nat>, ghost b: Books, ghost n: nat)
    returns (held: multiset<nat>, ghost c: Books)
    requires t.Valid() && Settled(Now(t), b) && Backed(Now(t), taken) && Sendable(s) && Room(t, n + 1)
    modifies t, t.table, t.caps, t.caps.table
    ensures t.Valid() && Settled(Now(t), c) && Backed(Now(t), held) && Room(t, n)
    ensures Evolved(old(Now(t)), Now(t)) && Posted(s, old(Now(t)), b, c)
    ensures old(Unshared(Now(t))) && !s.TakeReference? ==> Unshared(Now(t))
    ensures old(Intact(Now(t))) && !s.RevokeCap? ==> Intact(Now(t))
  {
    hide PortTable.Valid, Settled, Unshared, Evolved, Backed, Intact;
    held, c := taken, b;
    match s
    case MakePort(owner) =>
      c := PerformMake(t, owner, taken, b);
    case SendTo(id, m) =>
      PerformSend(t, id, m, taken, b);
    case ReplyTo(request, data) =>
      PerformReply(t, request, data, taken, b);
    case DropPort(id) =>
      c := PerformDrop(t, id, taken, b);
    case ReceiveFrom(id, timeout, waited) =>
      PerformReceive(t, id, timeout, waited, taken, b);
    case BeginCall(id, m, timeout) =>
      PerformCall(t, id, m, timeout, taken, b);
    case PassCall(reply) =>
      c := PerformPass(t, reply, taken, b);
    case _ =>
      held, c := PerformCap(t, s, taken, b);
  }

  method PerformMake(t: PortTable, owner: nat, ghost taken: multiset<nat>, ghost b: Books) returns (ghost c: Books)
    requires t.Valid() && Settled(Now(t), b) && Backed(Now(t), taken) && Room(t, 1)
    modifies t`nextId, t`active, t`ports, t`slot, t`log, t`holder, t.table,
             t.caps`nextId, t.caps`activeCount, t.caps`caps, t.caps`slot, t.caps`ext, t.caps.table
    ensures t.Valid() && Settled(Now(t), c) && Backed(Now(t), taken) && Evolved(old(Now(t)), Now(t))
    ensures t.nextId <= old(t.nextId) + 1 && t.caps.nextId <= old(t.caps.nextId) + 1 && c.foreign == b.foreign
    ensures (old(Unshared(Now(t))) ==> Unshared(Now(t))) && (old(Intact(Now(t))) ==> Intact(Now(t)))
  {
    hide PortTable.Valid, Settled, Unshared, Evolved, CreatedCap, Backed, Intact, LogsGrow;
    ghost var w := Now(t);
    c := b;
    var id := t.Create(owner);
    if id == PORT_INVALID {
      QuietSettled(w, Now(t), b);
      QuietBacked(w, Now(t), taken);
    } else {
      OpenedSettled(w, Now(t), id, b);
      OpenedEvolved(w, Now(t), id, b);
      OpenedBacked(w, Now(t), id, taken);
      c := b.(lasting := b.lasting + {id});
    }
  }

  method PerformSend(t: PortTable, id: nat, m: Msg, ghost taken: multiset<nat>, ghost b: Books)
    requires t.Valid() && Settled(Now(t), b) && Backed(Now(t), taken) && Room(t, 1) && |m.caps| == MAX_CAPS
    modifies t`msgSeq, t`ports, t`log, t.table
    ensures t.Valid() && Settled(Now(t), b) && Backed(Now(t), taken)
    ensures Evolved(old(Now(t)), Now(t)) && t.msgSeq <= old(t.msgSeq) + 1
    ensures (old(Unshared(Now(t))) ==> Unshared(Now(t))) && (old(Intact(Now(t))) ==> Intact(Now(t)))
  {
    hide PortTable.Valid, Settled, Unshared, Evolved, Grants, Backed, Intact, LogsGrow;
    ghost var w := Now(t);
    var _ := t.Send(id, m);
    QuietSettled(w, Now(t), b);
    QuietBacked(w, Now(t), taken);
  }

  method PerformReply(t: PortTable, request: Msg, data: Msg, ghost taken: multiset<nat>, ghost b: Books)
    requires t.Valid() && Settled(Now(t), b) && Backed(Now(t), taken) && Room(t, 1) && |data.caps| == MAX_CAPS
    modifies t`msgSeq, t`ports, t`log, t.table
    ensures t.Valid() && Settled(Now(t), b) && Backed(Now(t), taken)
    ensures Evolved(old(Now(t)), Now(t)) && t.msgSeq <= old(t.msgSeq) + 2
    ensures (old(Unshared(Now(t))) ==> Unshared(Now(t))) && (old(Intact(Now(t))) ==> Intact(Now(t)))
  {
    hide PortTable.Valid, Settled, Unshared, Evolved, Grants, Backed, Intact, LogsGrow;
    ghost var w := Now(t);
    var _ := t.Reply(request, data);
    QuietSettled(w, Now(t), b);
    QuietBacked(w, Now(t), taken);
  }

  method PerformDrop(t: PortTable, id: nat, ghost taken: multiset<nat>, ghost b: Books) returns (ghost c: Books)
    requires t.Valid() && Settled(Now(t), b) && Backed(Now(t), taken)
    modifies t`active, t`ports, t`slot, t`holder, t.table,
             t.caps`activeCount, t.caps`caps, t.caps`slot, t.caps`ext, t.caps.table
    ensures t.Valid() && Settled(Now(t), c) && Backed(Now(t), taken)
    ensures Evolved(old(Now(t)), Now(t)) && t.caps.nextId == old(t.caps.nextId)
    ensures old(Unshared(Now(t))) ==> Unshared(Now(t)) && c.foreign == b.foreign
    ensures old(Intact(Now(t))) ==> Intact(Now(t))
  {
    hide PortTable.Valid, Settled, Unshared, Evolved, ReleasedCap, Backed, Intact, LogsGrow, Held;
    ghost var w := Now(t);
    ValidHeld(t);
    c := b;
    if id !in t.calls {
      t.Destroy(id);
      if id in w.ports {
        ClosedSettled(w, Now(t), id, b);
        ClosedEvolved(w, Now(t), id);
        ClosedBacked(w, Now(t), id, taken);
        c := if Unshared(w) then b.(lasting := b.lasting - {id}) else AfterDrop(w, id, b);
      } else {
        assert Now(t).ports == w.ports;
        QuietSettled(w, Now(t), b);
        QuietBacked(w, Now(t), taken);
      }
    } else {
      QuietSettled(w, w, b);
    }
  }

  method PerformReceive(t: PortTable, id: nat, timeout: nat, waited: nat, ghost taken: multiset<nat>, ghost b: Books)
    requires t.Valid() && Settled(Now(t), b) && Backed(Now(t), taken)
    modifies t`msgSeq, t`ports, t`log, t.table
    ensures t.Valid() && Settled(Now(t), b) && Backed(Now(t), taken)
    ensures Evolved(old(Now(t)), Now(t)) && t.msgSeq == old(t.msgSeq)
    ensures (old(Unshared(Now(t))) ==> Unshared(Now(t))) && (old(Intact(Now(t))) ==> Intact(Now(t)))
  {
    hide PortTable.Valid, Settled, Unshared, Evolved, Backed, Intact, LogsGrow, Held;
    ghost var w := Now(t);
    ValidHeld(t);
    var s := t.Lookup(id);
    if s.Some? {
      var _ := t.ReceivePass(s.value, id, timeout, waited);
    }
    QuietSettled(w, Now(t), b);
    QuietBacked(w, Now(t), taken);
  }

  method PerformCall(t: PortTable, id: nat, m: Msg, timeout: nat, ghost taken: multiset<nat>, ghost b: Books)
    requires t.Valid() && Settled(Now(t), b) && Backed(Now(t), taken) && |m.caps| == MAX_CAPS && Room(t, 1)
    modifies t`nextId, t`msgSeq, t`active, t`ports, t`slot, t`log, t`holder, t`calls, t.table,
             t.caps`nextId, t.caps`activeCount, t.caps`caps, t.caps`slot, t.caps`ext, t.caps.table
    ensures t.Valid() && Settled(Now(t), b) && Backed(Now(t), taken) && Evolved(old(Now(t)), Now(t))
    ensures t.nextId <= old(t.nextId) + 1 && t.msgSeq <= old(t.msgSeq) + 1 && t.caps.nextId <= old(t.caps.nextId) + 1
    ensures (old(Unshared(Now(t))) ==> Unshared(Now(t))) && (old(Intact(Now(t))) ==> Intact(Now(t)))
  {
    hide PortTable.Valid, Settled, Unshared, Evolved, CreatedCap, Backed, Intact, LogsGrow, Held;
    ghost var w := Now(t);
    ValidHeld(t);
    var r := t.CallBegin(id, m, timeout);
    if r.Wait? {
      OpenedSettled(w, Now(t), w.nextId, b);
      OpenedEvolved(w, Now(t), w.nextId, b);
      OpenedBacked(w, Now(t), w.nextId, taken);
    } else {
      QuietSettled(w, Now(t), b);
      QuietBacked(w, Now(t), taken);
    }
  }

  method PerformPass(t: PortTable, reply: nat, ghost taken: multiset<nat>, ghost b: Books) returns (ghost c: Books)
    requires t.Valid() && Settled(Now(t), b) && Backed(Now(t), taken)
    modifies t`msgSeq, t`active, t`ports, t`slot, t`log, t`holder, t`calls, t.table,
             t.caps`activeCount, t.caps`caps, t.caps`slot, t.caps`ext, t.caps.table
    ensures t.Valid() && Settled(Now(t), c) && Backed(Now(t), taken) && Evolved(old(Now(t)), Now(t))
    ensures t.msgSeq == old(t.msgSeq) && t.caps.nextId == old(t.caps.nextId) && c.lasting == b.lasting
    ensures old(Unshared(Now(t))) ==> Unshared(Now(t)) && c.foreign == b.foreign
    ensures old(Intact(Now(t))) ==> Intact(Now(t))
  {
    hide PortTable.Valid, Settled, Unshared, Evolved, ReleasedCap, Backed, Intact, LogsGrow, Held;
    ghost var w := Now(t);
    ValidHeld(t);
    c := b;
    if reply in t.calls {
      var r := t.CallPass(reply);
      if r.Wait? {
        QuietSettled(w, Now(t), b);
        QuietBacked(w, Now(t), taken);
      } else {
        ClosedSettled(w, Now(t), reply, b);
        ClosedEvolved(w, Now(t), reply);
        ClosedBacked(w, Now(t), reply, taken);
        NotLasting(w, b, reply);
        c := if Unshared(w) then b else AfterDrop(w, reply, b);
      }
    } else {
      QuietSettled(w, w, b);
    }
  }

  lemma NotLasting(w: World, b: Books, x: nat)
    requires Settled(w, b) && x in w.calls
    ensures b.lasting - {x} == b.lasting
  {
  }

  lemma TookBacked(w: World, v: World, x: nat, taken: multiset<nat>)
    requires Backed(w, taken) && Held(w) && Quiet(w, v) && x in w.caps && v.ext == w.ext[x := External(w.ext, x) + 1]
    ensures Backed(v, taken + multiset{x})
  {
  }

  lemma GaveBacked(w: World, v: World, x: nat, taken: multiset<nat>)
    requires Backed(w, taken) && x in taken && v.caps.Keys <= w.caps.Keys && v.holder == w.holder
    requires v.ext == Surrendered(w.caps, w.ext, x) && v.nextCap == w.nextCap
    ensures Backed(v, taken - multiset{x})
  {
  }

  lemma NewBacked(w: World, v: World, id: nat, taken: multiset<nat>)
    requires Backed(w, taken) && Held(w) && NewCap(w.caps, v.caps, w.ext, v.ext, id) && v.holder == w.holder
    requires id == w.nextCap < v.nextCap
    ensures Backed(v, taken + multiset{id})
  {
    assert id !in w.holder;
  }

  /** A step on the capability table. */
  method PerformCap(t: PortTable, s: Step, taken: multiset<nat>, ghost b: Books)
    returns (held: multiset<nat>, ghost c: Books)
    requires t.Valid() && Settled(Now(t), b) && Backed(Now(t), taken) && Room(t, 1)
    requires Reshapes(s) || s.TakeReference? || s.TransferCap?
    modifies t`holder, t.caps, t.caps.table
    ensures t.Valid() && Settled(Now(t), c) && Backed(Now(t), held)
    ensures Evolved(old(Now(t)), Now(t)) && Posted(s, old(Now(t)), b, c)
    ensures t.caps.nextId <= old(t.caps.nextId) + 1
    ensures old(Unshared(Now(t))) && !s.TakeReference? ==> Unshared(Now(t))
    ensures old(Intact(Now(t))) && !s.RevokeCap? ==> Intact(Now(t))
    ensures s.TransferCap? && s.cap in old(t.caps.caps) && RIGHT_GRANT in old(t.caps.caps)[s.cap].rights ==>
              s.cap in t.caps.caps && t.caps.caps[s.cap].owner == s.owner
  {
    hide PortTable.Valid, Settled, Unshared, Evolved, Backed, Intact, LogsGrow, Held, Surrendered, NewCap, ReleaseExact,
      RevocationExact;
    ghost var w := Now(t);
    ValidHeld(t);
    held, c := taken, b;
    if s.TakeReference? {
      var ok := t.AddRef(s.cap);
      QuietSettled(w, Now(t), b);
      if ok {
        TookBacked(w, Now(t), s.cap, taken);
        held := taken + multiset{s.cap};
      } else {
        QuietBacked(w, Now(t), taken);
      }
    } else if s.TransferCap? {
      t.TransferCap(s.cap, s.owner);
      QuietSettled(w, Now(t), b);
      QuietBacked(w, Now(t), taken);
    } else if s.RevokeCap? {
      t.RevokeCap(s.cap);
      ValidHeld(t);
      Revocation(w, Now(t), b, s.cap, taken);
      c := b.(foreign := t.caps.caps.Keys - t.holder.Keys);
    } else {
      held, c := PerformCount(t, s, taken, b);
    }
  }

  lemma Revocation(w: World, v: World, b: Books, x: nat, taken: multiset<nat>)
    requires Settled(w, b) && Backed(w, taken) && Held(w) && Held(v)
    requires v == w.(caps := v.caps, holder := w.holder - {x}) && v.caps.Keys <= w.caps.Keys
    requires LogsGrow(w.ports, w.log, w.log)
    ensures Settled(v, b.(foreign := v.caps.Keys - v.holder.Keys)) && Evolved(w, v) && Backed(v, taken)
    ensures Unshared(w) ==> Unshared(v)
  {
    hide Settled, Evolved;
    RecappedSettled(w, v, b, {x});
  }

  /** A capability more, or a reference less. */
  method PerformCount(t: PortTable, s: Step, taken: multiset<nat>, ghost b: Books)
    returns (held: multiset<nat>, ghost c: Books)
    requires t.Valid() && Settled(Now(t), b) && Backed(Now(t), taken) && Room(t, 1)
    requires s.MakeCap? || s.DeriveCap? || s.DropReference?
    modifies t.caps, t.caps.table
    ensures t.Valid() && Settled(Now(t), c) && Backed(Now(t), held) && c.lasting == b.lasting
    ensures Evolved(old(Now(t)), Now(t)) && t.caps.nextId <= old(t.caps.nextId) + 1
    ensures (old(Unshared(Now(t))) ==> Unshared(Now(t))) && (old(Intact(Now(t))) ==> Intact(Now(t)))
  {
    hide PortTable.Valid, Settled, Unshared, Evolved, Backed, Intact, LogsGrow, Held, Surrendered, NewCap, ReleaseExact;
    ghost var w := Now(t);
    ValidHeld(t);
    held := taken;
    if s.DropReference? {
      if s.cap !in taken {
        c := b;
        QuietSettled(w, w, b);
        return;
      }
      CanGive(w, s.cap, taken);
      t.DropRef(s.cap);
      Fewer(w.caps, t.caps.caps, t.caps.ext, s.cap);
      GaveBacked(w, Now(t), s.cap, taken);
      NotMore(w.caps, w.ext, s.cap);
      held := taken - multiset{s.cap};
    } else {
      var id;
      if s.MakeCap? {
        id := t.MakeCap(s.kind, s.rights, s.target, s.owner);
      } else {
        id := t.DeriveCap(s.parent, s.rights);
      }
      if id == INVALID_ID {
        QuietBacked(w, Now(t), taken);
      } else {
        NewBacked(w, Now(t), id, taken);
        held := taken + multiset{id};
      }
      NewNotHeld(w, t.caps.caps, t.caps.ext, id);
    }
    c := b.(foreign := t.caps.caps.Keys - t.holder.Keys);
    ValidHeld(t);
    Recount(w, Now(t), b);
  }

  lemma Fewer(f: Forest, g: Forest, ext: References, c: nat)
    requires ReleaseExact(f, g, ext, c)
    ensures g.Keys <= f.Keys
  {
  }

  lemma CanGive(w: World, x: nat, taken: multiset<nat>)
    requires Backed(w, taken) && Held(w) && x in taken
    ensures x in w.caps ==> External(w.ext, x) >= 1
    ensures x in w.holder ==> External(w.ext, x) >= 2
  {
    assert taken[x] >= 1;
  }

  /** No capability of a port gets more references. */
  ghost predicate NoneMore(w: World, ext: References) {
    forall x | x in w.holder :: External(ext, x) <= External(w.ext, x)
  }

  lemma NotMore(f: Forest, ext: References, c: nat)
    ensures forall x :: External(Surrendered(f, ext, c), x) <= External(ext, x)
  {
  }

  lemma NewNotHeld(w: World, g: Forest, ext: References, id: nat)
    requires Held(w) && (if id == INVALID_ID then ext == w.ext else NewCap(w.caps, g, w.ext, ext, id))
    ensures NoneMore(w, ext)
  {
    assert id !in w.holder;
  }

  lemma Recount(w: World, v: World, b: Books)
    requires Settled(w, b) && Held(w) && Held(v) && LogsGrow(w.ports, w.log, w.log)
    requires v == w.(caps := v.caps, ext := v.ext, nextCap := v.nextCap) && w.nextCap <= v.nextCap && NoneMore(w, v.ext)
    ensures Settled(v, b.(foreign := v.caps.Keys - v.holder.Keys)) && Evolved(w, v)
    ensures (Unshared(w) ==> Unshared(v)) && (Intact(w) ==> Intact(v))
  {
    hide Settled, Evolved;
    assert w.holder - {} == w.holder;
    RecappedSettled(w, v, b, {});
  }

  /** Steps that neither make nor drop ports outside of calls. */
  predicate Transient(steps: seq<Step>) {
    forall i | 0 <= i < |steps| :: !steps[i].MakePort? && !steps[i].DropPort?
  }

  predicate NoneTaken(steps: seq<Step>) {
    forall i | 0 <= i < |steps| :: !steps[i].TakeReference?
  }

  /** Steps that neither make capabilities nor take them away, outside of ports. */
  predicate Steady(steps: seq<Step>) {
    forall i | 0 <= i < |steps| :: !Reshapes(steps[i])
  }

  /** A run of `steps`, of any tasks in any order, from any valid state. The
      ports are always the lasting ones and the reply ports of waiting calls, and
      the logs of a port are only ever added to. If nobody takes a reference or
      reshapes the capability table and ports come and go through calls only, the
      run restores ports and capabilities whenever it restores the waiting calls.
      A port that is gone stays gone, so that a late reply finds no port. */
  method Run(t: PortTable, steps: seq<Step>, taken: multiset<nat>, ghost b: Books)
    returns (held: multiset<nat>, ghost c: Books)
    requires t.Valid() && Settled(Now(t), b) && Backed(Now(t), taken) && Room(t, |steps|)
    requires forall i | 0 <= i < |steps| :: Sendable(steps[i])
    modifies t, t.table, t.caps, t.caps.table
    ensures t.Valid() && Settled(Now(t), c) && Backed(Now(t), held) && Evolved(old(Now(t)), Now(t))
    ensures Transient(steps) ==> c.lasting == b.lasting
    ensures NoneTaken(steps) && Steady(steps) && old(Unshared(Now(t))) ==> c.foreign == b.foreign
    ensures && Transient(steps) && NoneTaken(steps) && Steady(steps)
            && old(Unshared(Now(t)) && Intact(Now(t))) && t.calls.Keys == old(t.calls.Keys) ==>
              t.ports.Keys == old(t.ports.Keys) && t.caps.caps.Keys == old(t.caps.caps.Keys)
    ensures forall x | x < old(t.nextId) && x !in old(t.ports) :: x !in t.ports
    ensures forall x | x in old(t.ports) && x in t.ports ::
              Longer(old(t.log), t.log, x) && PortFine(t.ports, t.log, t.msgSeq, x)
  {
    hide PortTable.Valid, Settled, Unshared, Backed, Intact, LogsGrow, Held, PortFine;
    ghost var w := Now(t);
    ValidHeld(t);
    held, c := taken, b;
    QuietSettled(w, w, b);
    for i := 0 to |steps|
      invariant t.Valid() && Settled(Now(t), c) && Backed(Now(t), held) && Evolved(w, Now(t)) && Room(t, |steps| - i)
      invariant Transient(steps) ==> c.lasting == b.lasting
      invariant NoneTaken(steps) && Steady(steps) && Unshared(w) ==> c.foreign == b.foreign && Unshared(Now(t))
      invariant Steady(steps) && Intact(w) ==> Intact(Now(t))
    {
      ghost var v := Now(t);
      held, c := Perform(t, steps[i], held, c, |steps| - i - 1);
      EvolvedTransitive(w, v, Now(t));
    }
    ValidHeld(t);
    PortsFine(t);
    if c == b && t.calls.Keys == w.calls && Intact(w) && Intact(Now(t)) {
      Restored(w, Now(t), b);
    }
  }

  lemma PortsFine(t: PortTable)
    requires t.Valid()
    ensures forall x :: PortFine(t.ports, t.log, t.msgSeq, x)
  {
    hide Shown, CapTable.Valid, Holding;
  }
}
