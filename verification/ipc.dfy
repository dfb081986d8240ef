/** Message ports of kernel/ipc.c on top of the capability table.

A port is a slot of a table with a circular queue of messages in it and one
capability. Every blocking wait is cut at the yield: a receive is a sequence of
passes, and a call lives in `calls` between its first pass and its last, so that
steps of different tasks interleave in any order. */
module Ipc {
  import opened Wrappers
  import opened Capabilities

  const DEPTH: nat := 64
  const MAX_CAPS: nat := 4
  const PORT_INVALID: nat := 0
  const TIMEOUT_NONE: nat := 0
  const TIMEOUT_FOREVER: nat := 0xFFFF_FFFF
  const YIELD_MS: nat := 2
  const KIND_PORT: nat := 2
  const FLAG_URGENT: nat := 1
  const FLAG_REPLY: nat := 3
  const MAX_COUNT: nat := 0xFFFF_FFFF

  datatype Err = IpcOk | ErrInvalid | ErrNoPerm | ErrFull | ErrClosed | ErrTimeout | ErrAgain

  /** `flags` is the set of its bit numbers. */
  datatype Msg = Msg(msgId: nat, kind: nat, flags: set<nat>, replyPort: nat, sender: nat,
                     capCount: nat, caps: seq<nat>, data: seq<int>)

  datatype Port = Port(id: nat, cap: nat, owner: nat, queue: seq<Msg>, head: nat, tail: nat, count: nat,
                       valid: bool, closed: bool)

  /** What a port has taken in and given out since its creation. */
  datatype Log = Log(accepted: seq<Msg>, delivered: seq<Msg>)

  /** A call that waits: where its reply port is and for how long it has waited. */
  datatype Frame = Frame(index: nat, waited: nat, timeout: nat)

  /** What one pass of the receive loop leads to. */
  datatype Pass = Wait | Done(err: Err, msg: Option<Msg>)

  // ---------------------------------------------------------------------
  // The circular queue
  // ---------------------------------------------------------------------

  function At(n: nat): (i: nat)
    ensures i < DEPTH
  {
    n % DEPTH
  }

  ghost predicate RingOk(p: Port) {
    |p.queue| == DEPTH && p.head < DEPTH && p.count <= DEPTH && p.tail == At(p.head + p.count)
  }

  /** The queue as the plain sequence that it stands for. */
  ghost function Queue(p: Port): seq<Msg>
    requires RingOk(p)
  {
    seq(p.count, j requires 0 <= j < p.count => p.queue[At(p.head + j)])
  }

  function Enqueued(p: Port, m: Msg): Port
    requires |p.queue| == DEPTH && p.tail < DEPTH
  {
    p.(queue := p.queue[p.tail := m], tail := At(p.tail + 1), count := p.count + 1)
  }

  function Dequeued(p: Port): Port
    requires p.count > 0
  {
    p.(head := At(p.head + 1), count := p.count - 1)
  }

  lemma AtStep(a: nat, b: nat)
    ensures At(At(a) + b) == At(a + b)
  {
  }

  lemma AtSmall(a: nat)
    requires a < DEPTH
    ensures At(a) == a
  {
  }

  lemma AtApart(a: nat, b: nat)
    requires a < b < a + DEPTH
    ensures At(a) != At(b)
  {
  }

  lemma EnqueueAppends(p: Port, m: Msg)
    requires RingOk(p) && p.count < DEPTH
    ensures RingOk(Enqueued(p, m)) && Queue(Enqueued(p, m)) == Queue(p) + [m]
  {
    hide At;
    AtStep(p.head + p.count, 1);
    var q := Enqueued(p, m);
    forall j | 0 <= j < q.count
      ensures Queue(q)[j] == (Queue(p) + [m])[j]
    {
      if j < p.count {
        AtApart(p.head + j, p.head + p.count);
      }
    }
  }

  lemma DequeueRemoves(p: Port)
    requires RingOk(p) && p.count > 0
    ensures RingOk(Dequeued(p)) && Queue(p) == [p.queue[p.head]] + Queue(Dequeued(p))
  {
    hide At;
    var q := Dequeued(p);
    AtStep(p.head + 1, q.count);
    AtSmall(p.head);
    forall j | 0 <= j < q.count
      ensures Queue(q)[j] == Queue(p)[j + 1]
    {
      AtStep(p.head + 1, j);
    }
  }

  // ---------------------------------------------------------------------
  // Logs
  // ---------------------------------------------------------------------

  /** Message numbers grow along the log and are all below `next`. */
  ghost predicate Increasing(s: seq<Msg>, next: nat) {
    && (forall i | 0 <= i < |s| :: s[i].msgId < next)
    && (forall i, j | 0 <= i < j < |s| :: s[i].msgId < s[j].msgId)
  }

  /** What was taken in is what was given out and then what is still queued. */
  ghost predicate Faithful(p: Port, l: Log, next: nat) {
    RingOk(p) && l.accepted == l.delivered + Queue(p) && Increasing(l.accepted, next)
  }

  lemma SendFaithful(p: Port, l: Log, m: Msg, next: nat)
    requires Faithful(p, l, next) && p.count < DEPTH && m.msgId == next
    ensures Faithful(Enqueued(p, m), l.(accepted := l.accepted + [m]), next + 1)
  {
    EnqueueAppends(p, m);
    assert l.delivered + (Queue(p) + [m]) == l.accepted + [m];
  }

  lemma ReceiveFaithful(p: Port, l: Log, next: nat)
    requires Faithful(p, l, next) && p.count > 0
    ensures Faithful(Dequeued(p), l.(delivered := l.delivered + [p.queue[p.head]]), next)
  {
    DequeueRemoves(p);
    var m := p.queue[p.head];
    assert l.delivered + ([m] + Queue(Dequeued(p))) == l.delivered + [m] + Queue(Dequeued(p));
  }

  lemma LaterFaithful(p: Port, l: Log, next: nat, later: nat)
    requires Faithful(p, l, next) && next <= later
    ensures Faithful(p, l, later)
  {
  }

  /** Deliveries are a prefix of what was accepted, in the same order, once each. */
  lemma DeliveredInOrder(p: Port, l: Log, next: nat)
    requires Faithful(p, l, next)
    ensures l.delivered <= l.accepted
    ensures forall i, j | 0 <= i < j < |l.delivered| :: l.delivered[i].msgId < l.delivered[j].msgId
    ensures p.count == |l.accepted| - |l.delivered|
  {
    assert forall i | 0 <= i < |l.delivered| :: l.delivered[i] == l.accepted[i];
  }

  /** Log entries of port `x` are only ever added. */
  predicate Longer(a: map<nat, Log>, b: map<nat, Log>, x: nat) {
    x in a && x in b && a[x].accepted <= b[x].accepted && a[x].delivered <= b[x].delivered
  }

  ghost predicate LogsGrow(ports: map<nat, Port>, a: map<nat, Log>, b: map<nat, Log>) {
    forall x | x in ports :: Longer(a, b, x)
  }

  /** Appending to the log of one port. */
  lemma LogGrows(ports: map<nat, Port>, log: map<nat, Log>, x: nat, l: Log)
    requires LogsGrow(ports, log, log)
    requires x in ports ==> log[x].accepted <= l.accepted && log[x].delivered <= l.delivered
    ensures LogsGrow(ports, log, log[x := l])
  {
  }

  /** Some operations on ports, one after the other. */
  lemma LogsGrowMore(ports: map<nat, Port>, later: map<nat, Port>, a: map<nat, Log>, b: map<nat, Log>, c: map<nat, Log>)
    requires LogsGrow(ports, a, b) && LogsGrow(later, b, c) && ports.Keys <= later.Keys
    ensures LogsGrow(ports, a, c)
  {
  }

  /** Whatever its flags say, a message just accepted is the next one delivered if
      and only if the queue was empty. */
  lemma NextDelivered(p: Port, l: Log, m: Msg, next: nat)
    requires Faithful(p, l, next) && p.count < DEPTH && m.msgId == next
    ensures Faithful(Enqueued(p, m), l.(accepted := l.accepted + [m]), next + 1)
    ensures var q := Enqueued(p, m); q.queue[q.head] == m <==> p.count == 0
  {
    SendFaithful(p, l, m, next);
    FaithfulRing(p, l, next);
    FaithfulRing(Enqueued(p, m), l.(accepted := l.accepted + [m]), next + 1);
  }

  // ---------------------------------------------------------------------
  // The table
  // ---------------------------------------------------------------------

  ghost predicate Shown(t: seq<Port>, ports: map<nat, Port>, slot: map<nat, nat>) {
    && slot.Keys == ports.Keys && PORT_INVALID !in ports
    && (forall i | 0 <= i < |t| :: |t[i].queue| == DEPTH)
    && (forall i | 0 <= i < |t| && t[i].valid :: t[i].id in slot && slot[t[i].id] == i)
    && (forall x | x in ports :: slot[x] < |t| && t[slot[x]].valid && t[slot[x]].id == x && ports[x] == t[slot[x]])
  }

  ghost predicate PortFine(ports: map<nat, Port>, log: map<nat, Log>, next: nat, x: nat) {
    x in ports ==> x in log && !ports[x].closed && Faithful(ports[x], log[x], next)
  }

  /** Every port queues faithfully, and none is closed while it is valid. */
  ghost predicate Logged(ports: map<nat, Port>, log: map<nat, Log>, next: nat) {
    forall x {:trigger PortFine(ports, log, next, x)} :: PortFine(ports, log, next, x)
  }

  /** The capability of port `x`, if it has one that is valid, is `x`'s alone. */
  ghost predicate OwnsCap(ports: map<nat, Port>, holder: map<nat, nat>, f: Forest, x: nat) {
    x in ports && ports[x].cap in f ==> ports[x].cap in holder && holder[ports[x].cap] == x
  }

  /** Capabilities of ports, valid or revoked, have numbers below `next`. */
  ghost predicate OldCaps(ports: map<nat, Port>, next: nat) {
    forall x | x in ports :: ports[x].cap < next
  }

  ghost predicate CapHeld(ports: map<nat, Port>, holder: map<nat, nat>, f: Forest, ext: References, c: nat) {
    c in holder ==>
      && holder[c] in ports && ports[holder[c]].cap == c
      && c in f && f[c].parent == INVALID_ID && RIGHT_MANAGE !in f[c].rights
      && External(ext, c) >= 1 && Children(f, c) == {}
  }

  /** Ports and their valid capabilities are in one-to-one correspondence, and each
      port holds one reference on a root that nothing is derived from. */
  ghost predicate Holding(ports: map<nat, Port>, holder: map<nat, nat>, f: Forest, ext: References) {
    && INVALID_ID !in holder && INVALID_ID !in f
    && (forall x {:trigger OwnsCap(ports, holder, f, x)} :: OwnsCap(ports, holder, f, x))
    && (forall c {:trigger CapHeld(ports, holder, f, ext, c)} :: CapHeld(ports, holder, f, ext, c))
  }

  /** Every waiting call has its reply port where it left it. */
  ghost predicate Waiting(calls: map<nat, Frame>, ports: map<nat, Port>, slot: map<nat, nat>) {
    calls.Keys <= ports.Keys && forall r | r in calls :: r in slot && slot[r] == calls[r].index
  }

  lemma OldCapsPut(ports: map<nat, Port>, p: Port, next: nat, later: nat)
    requires OldCaps(ports, next) && next <= later && p.cap < later
    ensures OldCaps(ports[p.id := p], later)
  {
  }

  lemma OldCapsLater(ports: map<nat, Port>, next: nat, later: nat)
    requires OldCaps(ports, next) && next <= later
    ensures OldCaps(ports, later)
  {
  }

  lemma OldCapsAt(ports: map<nat, Port>, x: nat, next: nat)
    requires OldCaps(ports, next) && x in ports
    ensures ports[x].cap < next && OldCaps(ports - {x}, next)
  {
  }

  lemma ShownPut(t: seq<Port>, ports: map<nat, Port>, slot: map<nat, nat>, p: Port)
    requires Shown(t, ports, slot) && p.valid && p.id in ports && |p.queue| == DEPTH
    ensures Shown(t[slot[p.id] := p], ports[p.id := p], slot)
  {
  }

  lemma ShownAdd(t: seq<Port>, ports: map<nat, Port>, slot: map<nat, nat>, i: nat, p: Port)
    requires Shown(t, ports, slot) && p.valid && p.id !in ports && p.id != PORT_INVALID && |p.queue| == DEPTH
    requires i < |t| && !t[i].valid
    ensures Shown(t[i := p], ports[p.id := p], slot[p.id := i])
  {
  }

  lemma ShownDrop(t: seq<Port>, ports: map<nat, Port>, slot: map<nat, nat>, x: nat, p: Port)
    requires Shown(t, ports, slot) && x in ports && !p.valid && |p.queue| == DEPTH
    ensures Shown(t[slot[x] := p], ports - {x}, slot - {x})
  {
  }

  lemma LoggedPut(ports: map<nat, Port>, log: map<nat, Log>, next: nat, p: Port, l: Log, later: nat)
    requires Logged(ports, log, next) && next <= later && !p.closed && Faithful(p, l, later)
    ensures Logged(ports[p.id := p], log[p.id := l], later)
  {
    var q, k := ports[p.id := p], log[p.id := l];
    forall x
      ensures PortFine(q, k, later, x)
    {
      assert PortFine(ports, log, next, x);
      if x in ports {
        LaterFaithful(ports[x], log[x], next, later);
      }
    }
  }

  lemma LoggedDrop(ports: map<nat, Port>, log: map<nat, Log>, next: nat, x: nat)
    requires Logged(ports, log, next)
    ensures Logged(ports - {x}, log, next)
  {
    forall y
      ensures PortFine(ports - {x}, log, next, y)
    {
      assert PortFine(ports, log, next, y);
    }
  }

  lemma LoggedAt(ports: map<nat, Port>, log: map<nat, Log>, next: nat, x: nat)
    requires Logged(ports, log, next) && x in ports
    ensures x in log && !ports[x].closed && Faithful(ports[x], log[x], next)
  {
    assert PortFine(ports, log, next, x);
  }

  /** A message moves and the port keeps its capability. */
  lemma HoldingPut(ports: map<nat, Port>, holder: map<nat, nat>, f: Forest, ext: References, p: Port)
    requires Holding(ports, holder, f, ext) && p.id in ports && p.cap == ports[p.id].cap
    ensures Holding(ports[p.id := p], holder, f, ext)
  {
    var q := ports[p.id := p];
    forall x
      ensures OwnsCap(q, holder, f, x)
    {
      assert OwnsCap(ports, holder, f, x);
    }
    forall c: nat
      ensures CapHeld(q, holder, f, ext, c)
    {
      assert CapHeld(ports, holder, f, ext, c);
    }
  }

  /** A port is created together with a fresh root capability. */
  lemma HoldingAdd(ports: map<nat, Port>, holder: map<nat, nat>, f: Forest, ext: References, p: Port, c: Cap)
    requires Holding(ports, holder, f, ext) && p.id !in ports && WellFormed(f)
    requires p.cap == c.id != INVALID_ID && c.parent == INVALID_ID && RIGHT_MANAGE !in c.rights
    requires (forall x | x in f :: x < c.id) && OldCaps(ports, c.id)
    ensures Holding(ports[p.id := p], holder[c.id := p.id], f[c.id := c], ext[c.id := 1])
  {
    var q, h, g, e := ports[p.id := p], holder[c.id := p.id], f[c.id := c], ext[c.id := 1];
    assert CapHeld(ports, holder, f, ext, c.id);
    forall x
      ensures OwnsCap(q, h, g, x)
    {
      assert OwnsCap(ports, holder, f, x);
    }
    forall d: nat
      ensures CapHeld(q, h, g, e, d)
    {
      assert CapHeld(ports, holder, f, ext, d);
      if d in h {
        assert Children(g, d) == {} by {
          assert forall x | x in Children(g, d) :: x in Children(f, d) && x in f && d < x;
        }
      }
    }
  }

  /** A port without a capability, when the capability table was full. */
  lemma HoldingBare(ports: map<nat, Port>, holder: map<nat, nat>, f: Forest, ext: References, p: Port)
    requires Holding(ports, holder, f, ext) && p.id !in ports && p.cap == INVALID_ID
    ensures Holding(ports[p.id := p], holder, f, ext)
  {
    var q := ports[p.id := p];
    forall x
      ensures OwnsCap(q, holder, f, x)
    {
      assert OwnsCap(ports, holder, f, x);
    }
    forall c: nat
      ensures CapHeld(q, holder, f, ext, c)
    {
      assert CapHeld(ports, holder, f, ext, c);
    }
  }

  /** Releasing a root without children touches nothing else, and removes it
      exactly when the reference was the last. */
  lemma ReleaseLeafRoot(f: Forest, g: Forest, ext: References, c: nat)
    requires c in f && f[c].parent == INVALID_ID && Children(f, c) == {} && External(ext, c) >= 1
    requires Sound(f, ext, INVALID_ID) && Sound(g, Surrendered(f, ext, c), INVALID_ID)
    requires ReleaseExact(f, g, Surrendered(f, ext, c), c)
    ensures c in g <==> External(ext, c) > 1
    ensures g.Keys <= f.Keys && g.Keys - {c} == f.Keys - {c}
    ensures forall x | x in f && x != c :: x in g && g[x] == f[x]
    ensures forall d :: Children(g, d) <= Children(f, d)
  {
    var e := Surrendered(f, ext, c);
    forall x | x in f && x != c
      ensures x in g && g[x] == f[x]
    {
      assert !Descends(f, c, x);
      assert x in g;
      assert Balanced(f, ext, INVALID_ID, x) && Balanced(g, e, INVALID_ID, x);
      assert Children(g, x) == Children(f, x) by {
        LeafRootChildren(f, g, e, c, x);
      }
    }
    assert c !in g <==> External(e, c) == 0;
  }

  lemma LeafRootChildren(f: Forest, g: Forest, ext: References, c: nat, x: nat)
    requires c in f && f[c].parent == INVALID_ID && ReleaseExact(f, g, ext, c) && x in f && WellFormed(f)
    ensures Children(g, x) == Children(f, x)
  {
    forall y | y in Children(f, x)
      ensures y in Children(g, x)
    {
      assert y != c && !Descends(f, c, y);
    }
  }

  lemma HoldingDrop(ports: map<nat, Port>, holder: map<nat, nat>, f: Forest, ext: References, x: nat,
                    g: Forest)
    requires Holding(ports, holder, f, ext) && x in ports && ports[x].cap in holder
    requires forall y | y in f && y != ports[x].cap :: y in g && g[y] == f[y]
    requires g.Keys <= f.Keys && forall d :: Children(g, d) <= Children(f, d)
    ensures Holding(ports - {x}, holder - {ports[x].cap}, g, Surrendered(f, ext, ports[x].cap))
  {
    var c := ports[x].cap;
    assert CapHeld(ports, holder, f, ext, c) && OwnsCap(ports, holder, f, x);
    forall y
      ensures OwnsCap(ports - {x}, holder - {c}, g, y)
    {
      assert OwnsCap(ports, holder, f, y);
    }
    forall d: nat
      ensures CapHeld(ports - {x}, holder - {c}, g, Surrendered(f, ext, c), d)
    {
      assert CapHeld(ports, holder, f, ext, d);
    }
  }

  lemma HoldingDropBare(ports: map<nat, Port>, holder: map<nat, nat>, f: Forest, ext: References, x: nat)
    requires Holding(ports, holder, f, ext) && x in ports && ports[x].cap !in f
    ensures Holding(ports - {x}, holder, f, ext)
  {
    forall y
      ensures OwnsCap(ports - {x}, holder, f, y)
    {
      assert OwnsCap(ports, holder, f, y);
    }
    forall d: nat
      ensures CapHeld(ports - {x}, holder, f, ext, d)
    {
      assert CapHeld(ports, holder, f, ext, d);
    }
  }

  predicate IsPortCap(c: Cap, id: nat, owner: nat) {
    c == Cap(c.id, KIND_PORT, {RIGHT_READ, RIGHT_WRITE, RIGHT_GRANT}, id, INVALID_ID, 1, owner, true)
  }

  /** The capability table after a port's capability was created, or was not. */
  ghost predicate CreatedCap(f: Forest, g: Forest, ext: References, ext': References, c: nat) {
    if c == INVALID_ID then g == f && ext' == ext
    else c !in f && c in g && g == f[c := g[c]] && ext' == ext[c := 1]
  }

  lemma NewPort(t: seq<Port>, ports: map<nat, Port>, slot: map<nat, nat>, log: map<nat, Log>, next: nat, i: nat,
                p: Port)
    requires Shown(t, ports, slot) && Logged(ports, log, next) && i < |t| && !t[i].valid
    requires p == t[i].(id := p.id, owner := p.owner, head := 0, tail := 0, count := 0, valid := true, closed := false,
                        cap := p.cap)
    requires p.id !in ports && p.id != PORT_INVALID
    ensures Shown(t[i := p], ports[p.id := p], slot[p.id := i])
    ensures Logged(ports[p.id := p], log[p.id := Log([], [])], next)
    ensures |ports[p.id := p]| == |ports| + 1
  {
    hide Logged;
    ShownAdd(t, ports, slot, i, p);
    assert Queue(p) == [];
    LoggedPut(ports, log, next, p, Log([], []), next);
    assert ports[p.id := p].Keys == ports.Keys + {p.id};
    assert |ports[p.id := p].Keys| == |ports.Keys| + 1;
  }

  lemma NewHolding(ports: map<nat, Port>, holder: map<nat, nat>, f: Forest, ext: References, next: nat, p: Port,
                   g: Forest, ext': References, owner: nat)
    requires Holding(ports, holder, f, ext) && p.id !in ports && Sound(f, ext, INVALID_ID) && Unused(f, next)
    requires OldCaps(ports, next)
    requires if p.cap == INVALID_ID then g == f && ext' == ext
             else
               && p.cap == next && ext' == ext[next := 1]
               && next in g && g == f[next := g[next]] && g[next].id == next && IsPortCap(g[next], p.id, owner)
    ensures Holding(ports[p.id := p], if p.cap == INVALID_ID then holder else holder[p.cap := p.id], g, ext')
    ensures CreatedCap(f, g, ext, ext', p.cap)
  {
    hide Holding, Accounted;
    if p.cap == INVALID_ID {
      HoldingBare(ports, holder, f, ext, p);
    } else {
      HoldingAdd(ports, holder, f, ext, p, g[next]);
    }
  }

  lemma NewWaiting(calls: map<nat, Frame>, ports: map<nat, Port>, slot: map<nat, nat>, x: nat, i: nat, p: Port)
    requires Waiting(calls, ports, slot) && x !in ports
    ensures Waiting(calls, ports[x := p], slot[x := i])
  {
  }

  /** The capabilities that a message carries may all be passed on. */
  ghost predicate Grants(f: Forest, m: Msg)
    requires |m.caps| == MAX_CAPS
  {
    forall i | 0 <= i < m.capCount && i < MAX_CAPS :: m.caps[i] in f && RIGHT_GRANT in f[m.caps[i]].rights
  }

  /** What sending `m` to port `id` leads to. */
  ghost function SendResult(ports: map<nat, Port>, f: Forest, id: nat, m: Msg): Err
    requires |m.caps| == MAX_CAPS
  {
    if id !in ports then ErrInvalid
    else if ports[id].count == DEPTH then ErrFull
    else if !Grants(f, m) then ErrNoPerm
    else IpcOk
  }

  /** What a pass over an empty queue leads to. */
  function EmptyResult(timeout: nat, waited: nat): Pass {
    if timeout == TIMEOUT_NONE then Done(ErrAgain, None)
    else if timeout != TIMEOUT_FOREVER && waited >= timeout then Done(ErrTimeout, None)
    else Wait
  }

  /** On a queue that stays empty a call with a limit goes on waiting for exactly as
      many passes as it takes to use up the limit at two milliseconds each; one
      without a limit waits for ever, one that may not wait does not. */
  lemma WaitsExactly(timeout: nat, passes: nat)
    ensures EmptyResult(timeout, YIELD_MS * passes).Wait? <==>
            timeout == TIMEOUT_FOREVER || (timeout != TIMEOUT_NONE && 2 * passes < timeout)
    ensures !EmptyResult(timeout, YIELD_MS * passes).Wait? ==>
              EmptyResult(timeout, YIELD_MS * passes) ==
              Done(if timeout == TIMEOUT_NONE then ErrAgain else ErrTimeout, None)
  {
  }

  /** `m` was accepted by port `id` under the number `n`. */
  ghost predicate Accepted(log: map<nat, Log>, log': map<nat, Log>, id: nat, m: Msg, n: nat) {
    id in log && log' == log[id := log[id].(accepted := log[id].accepted + [m.(msgId := n)])]
  }

  lemma RingLength(p: Port, l: Log, next: nat)
    requires Faithful(p, l, next)
    ensures |p.queue| == DEPTH
  {
  }

  lemma FaithfulRing(p: Port, l: Log, next: nat)
    requires Faithful(p, l, next)
    ensures RingOk(p) && |l.accepted| == |l.delivered| + p.count
    ensures p.count > 0 ==> p.queue[p.head] == l.accepted[|l.delivered|]
  {
    if p.count > 0 {
      assert At(p.head + 0) == p.head;
      assert Queue(p)[0] == p.queue[p.head];
    }
  }

  lemma SameKeys(ports: map<nat, Port>, p: Port)
    requires p.id in ports
    ensures ports[p.id := p].Keys == ports.Keys && |ports[p.id := p]| == |ports|
  {
    assert ports[p.id := p].Keys == ports.Keys;
    assert |ports[p.id := p].Keys| == |ports.Keys|;
  }

  lemma WaitingPut(calls: map<nat, Frame>, ports: map<nat, Port>, slot: map<nat, nat>, p: Port)
    requires Waiting(calls, ports, slot) && p.id in ports
    ensures Waiting(calls, ports[p.id := p], slot)
  {
  }

  lemma ShownAt(t: seq<Port>, ports: map<nat, Port>, slot: map<nat, nat>, x: nat)
    requires Shown(t, ports, slot) && x in ports
    ensures x in slot && slot[x] < |t| && t[slot[x]] == ports[x] && |ports[x].queue| == DEPTH
  {
  }

  lemma WaitingDrop(calls: map<nat, Frame>, ports: map<nat, Port>, slot: map<nat, nat>, x: nat)
    requires Waiting(calls, ports, slot) && x !in calls
    ensures Waiting(calls, ports - {x}, slot - {x})
  {
  }

  lemma HoldingAt(ports: map<nat, Port>, holder: map<nat, nat>, f: Forest, ext: References, x: nat)
    requires Holding(ports, holder, f, ext) && x in ports
    ensures INVALID_ID !in holder && INVALID_ID !in f && (ports[x].cap in holder ==> ports[x].cap in f)
    ensures ports[x].cap in f ==>
              && ports[x].cap in holder && f[ports[x].cap].parent == INVALID_ID
              && External(ext, ports[x].cap) >= 1 && Children(f, ports[x].cap) == {}
  {
    assert OwnsCap(ports, holder, f, x);
    assert CapHeld(ports, holder, f, ext, ports[x].cap);
  }

  /** The capability table after a port gave up its capability `c`, if it is valid. */
  ghost predicate ReleasedCap(f: Forest, g: Forest, ext: References, ext': References, c: nat) {
    if c !in f then g == f && ext' == ext
    else
      && (c in g <==> External(ext, c) > 1)
      && g.Keys - {c} == f.Keys - {c}
      && (forall x | x in f && x != c :: x in g && g[x] == f[x])
      && ext' == Surrendered(f, ext, c)
  }

  lemma HolderBack(f: Forest, g: Forest, ext: References, ext': References, holder: map<nat, nat>, c: nat, x: nat)
    requires CreatedCap(f, g, ext, ext', c) && holder.Keys <= f.Keys && INVALID_ID !in holder
    ensures (if c == INVALID_ID then holder else holder[c := x]) - {c} == holder
  {
  }

  ghost predicate SameReferences(f: Forest, ext: References, ext': References) {
    forall x | x in f :: External(ext', x) == External(ext, x)
  }

  /** A capability made and given up again leaves no trace. */
  lemma MadeAndReleased(f: Forest, g: Forest, h: Forest, ext: References, ext1: References, ext2: References, c: nat)
    requires INVALID_ID !in f && CreatedCap(f, g, ext, ext1, c) && ReleasedCap(g, h, ext1, ext2, c)
    ensures h == f && SameReferences(h, ext, ext2)
  {
    if c != INVALID_ID {
      assert c !in h && g.Keys == f.Keys + {c};
      assert h.Keys == h.Keys - {c} == g.Keys - {c} == f.Keys;
    }
  }

  lemma NoRelease(f: Forest, ext: References, c: nat)
    requires c !in f
    ensures Surrendered(f, ext, c) == ext && ReleaseExact(f, f, ext, c)
  {
  }

  lemma OldPortGone(ports: map<nat, Port>, holder: map<nat, nat>, f: Forest, ext: References, x: nat,
                    g: Forest, ext': References)
    requires Holding(ports, holder, f, ext) && x in ports
    requires Sound(f, ext, INVALID_ID) && Sound(g, ext', INVALID_ID)
    requires ext' == Surrendered(f, ext, ports[x].cap) && ReleaseExact(f, g, ext', ports[x].cap)
    requires ports[x].cap !in f ==> g == f
    ensures Holding(ports - {x}, holder - {ports[x].cap}, g, ext')
    ensures ReleasedCap(f, g, ext, ext', ports[x].cap)
  {
    hide Holding, Sound, ReleaseExact;
    HoldingAt(ports, holder, f, ext, x);
    if ports[x].cap in f {
      ReleaseLeafRoot(f, g, ext, ports[x].cap);
      HoldingDrop(ports, holder, f, ext, x, g);
    } else {
      HoldingDropBare(ports, holder, f, ext, x);
      assert holder - {ports[x].cap} == holder;
    }
  }

  /** A port keeps its capability for as long as it lives. */
  ghost predicate SameCaps(a: map<nat, Port>, b: map<nat, Port>) {
    forall x | x in a && x in b :: a[x].cap == b[x].cap
  }

  // ---------------------------------------------------------------------
  // Capabilities that other tasks use
  // ---------------------------------------------------------------------

  /** The capability table changes, and `left` is what it leaves to the ports. */
  lemma HoldingChange(ports: map<nat, Port>, holder: map<nat, nat>, f: Forest, ext: References,
                      left: map<nat, nat>, g: Forest, ext': References)
    requires Holding(ports, holder, f, ext) && INVALID_ID !in g
    requires forall c | c in left :: c in holder && left[c] == holder[c]
    requires forall c | c in left && c in f ::
               && c in g && g[c].parent == f[c].parent && g[c].rights == f[c].rights
               && External(ext', c) >= 1 && Children(g, c) == {}
    requires forall x | x in ports && ports[x].cap in g :: ports[x].cap in f
    requires forall c | c in g && c in holder :: c in left
    ensures Holding(ports, left, g, ext')
  {
    forall x
      ensures OwnsCap(ports, left, g, x)
    {
      assert OwnsCap(ports, holder, f, x);
    }
    forall c: nat
      ensures CapHeld(ports, left, g, ext', c)
    {
      assert CapHeld(ports, holder, f, ext, c);
    }
  }

  lemma HeldAt(ports: map<nat, Port>, holder: map<nat, nat>, f: Forest, ext: References, c: nat)
    requires Holding(ports, holder, f, ext) && c in holder
    ensures c in f && f[c].parent == INVALID_ID && RIGHT_MANAGE !in f[c].rights
    ensures External(ext, c) >= 1 && Children(f, c) == {} && INVALID_ID !in f
  {
    assert CapHeld(ports, holder, f, ext, c);
  }

  /** A reference more. */
  lemma HoldingMore(ports: map<nat, Port>, holder: map<nat, nat>, f: Forest, ext: References,
                    g: Forest, ext': References, c: nat)
    requires Holding(ports, holder, f, ext)
    requires c !in f ==> g == f && ext' == ext
    requires c in f ==> g == f[c := f[c].(refCount := f[c].refCount + 1)] && ext' == ext[c := External(ext, c) + 1]
    ensures Holding(ports, holder, g, ext')
  {
    hide Holding;
    HoldingNone(ports, holder, f, ext);
    forall d | d in holder
      ensures d in f && External(ext', d) >= 1 && Children(g, d) == {}
    {
      HeldAt(ports, holder, f, ext, d);
      assert Children(g, d) == Children(f, d);
    }
    HoldingChange(ports, holder, f, ext, holder, g, ext');
  }

  lemma HoldingNone(ports: map<nat, Port>, holder: map<nat, nat>, f: Forest, ext: References)
    requires Holding(ports, holder, f, ext)
    ensures INVALID_ID !in f
  {
  }

  /** A capability more, which is a root or has a parent that may manage. */
  lemma HoldingNew(ports: map<nat, Port>, holder: map<nat, nat>, f: Forest, ext: References, id: nat,
                   g: Forest, parent: nat)
    requires Holding(ports, holder, f, ext) && Unused(f, id) && OldCaps(ports, id) && id != INVALID_ID
    requires parent == INVALID_ID || (parent in f && RIGHT_MANAGE in f[parent].rights)
    requires g.Keys == f.Keys + {id} && g[id].parent == parent
    requires forall x | x in f :: g[x] == f[x].(refCount := g[x].refCount)
    ensures Holding(ports, holder, g, ext[id := 1])
  {
    hide Holding, OldCaps;
    HoldingNone(ports, holder, f, ext);
    forall d | d in holder
      ensures d in f && d != id && External(ext[id := 1], d) >= 1 && Children(g, d) == {}
    {
      HeldAt(ports, holder, f, ext, d);
      assert Children(g, d) <= Children(f, d);
    }
    forall x | x in ports && ports[x].cap in g
      ensures ports[x].cap in f
    {
      OldCapsAt(ports, x, id);
    }
    HoldingChange(ports, holder, f, ext, holder, g, ext[id := 1]);
  }

  lemma HoldingOwner(ports: map<nat, Port>, holder: map<nat, nat>, f: Forest, ext: References, id: nat, owner: nat)
    requires Holding(ports, holder, f, ext) && id in f
    ensures Holding(ports, holder, f[id := f[id].(owner := owner)], ext)
  {
    hide Holding;
    var g := f[id := f[id].(owner := owner)];
    HoldingNone(ports, holder, f, ext);
    forall d | d in holder
      ensures d in f && External(ext, d) >= 1 && Children(g, d) == {}
    {
      HeldAt(ports, holder, f, ext, d);
      assert Children(g, d) == Children(f, d);
    }
    HoldingChange(ports, holder, f, ext, holder, g, ext);
  }

  /** A reference less, other than the ports' own. */
  lemma HoldingLess(ports: map<nat, Port>, holder: map<nat, nat>, f: Forest, ext: References, c: nat, g: Forest)
    requires Holding(ports, holder, f, ext) && (c in holder ==> External(ext, c) >= 2)
    requires ReleaseExact(f, g, Surrendered(f, ext, c), c)
    ensures Holding(ports, holder, g, Surrendered(f, ext, c))
  {
    hide Holding, Descends;
    var e := Surrendered(f, ext, c);
    HoldingNone(ports, holder, f, ext);
    forall d | d in holder
      ensures d in f && d in g && External(e, d) >= 1 && Children(g, d) == {}
    {
      HeldAt(ports, holder, f, ext, d);
      assert Children(g, d) <= Children(f, d);
    }
    HoldingChange(ports, holder, f, ext, holder, g, e);
  }

  lemma {:induction false} AncestorHasChild(f: Forest, x: nat, a: nat)
    requires Descends(f, x, a) && x != a
    ensures Children(f, a) != {}
    decreases x
  {
    var p := f[x].parent;
    if p == a {
      assert x in Children(f, a);
    } else {
      AncestorHasChild(f, p, a);
    }
  }

  /** A revocation takes a port's capability only if it is the one revoked. */
  lemma HoldingRevoked(ports: map<nat, Port>, holder: map<nat, nat>, f: Forest, ext: References, id: nat, g: Forest)
    requires Holding(ports, holder, f, ext) && Revoked(f, g, ext, id)
    ensures Holding(ports, holder - {id}, g, ext)
  {
    hide Holding;
    HoldingNone(ports, holder, f, ext);
    forall d | d in holder - {id}
      ensures d in f && d in g && External(ext, d) >= 1 && Children(g, d) == {}
    {
      HeldAt(ports, holder, f, ext, d);
      assert Children(g, d) <= Children(f, d);
      if d !in g {
        if Descends(f, id, d) {
          AncestorHasChild(f, id, d);
        }
        RootAlone(f, d, id);
      }
    }
    HoldingChange(ports, holder, f, ext, holder - {id}, g, ext);
  }

  lemma RevokedFewer(f: Forest, g: Forest, ext: References, id: nat)
    requires Revoked(f, g, ext, id)
    ensures g.Keys <= f.Keys && id !in g
  {
  }

  lemma NotHeld(ports: map<nat, Port>, holder: map<nat, nat>, f: Forest, ext: References, c: nat)
    requires Holding(ports, holder, f, ext) && c !in f
    ensures holder - {c} == holder
  {
    assert CapHeld(ports, holder, f, ext, c);
  }

  /** A capability that was not there before, with one reference on it. */
  ghost predicate NewCap(f: Forest, g: Forest, ext: References, ext': References, id: nat) {
    id !in f && g.Keys == f.Keys + {id} && ext' == ext[id := 1]
  }

  lemma RootAlone(f: Forest, d: nat, a: nat)
    requires d in f && f[d].parent == INVALID_ID && INVALID_ID !in f && Descends(f, d, a)
    ensures d == a
  {
  }

  lemma CapFacts(c: CapTable)
    requires c.Valid()
    ensures Sound(c.caps, c.ext, INVALID_ID) && Unused(c.caps, c.nextId) && c.nextId >= 1
  {
  }

  lemma CapReady(c: CapTable)
    requires c.Valid()
    ensures c.Consistent() && Sound(c.caps, c.ext, INVALID_ID) && Capabilities.Linked(c.caps)
  {
  }

  ghost predicate Numbered(ports: map<nat, Port>, next: nat) {
    forall x | x in ports :: x < next
  }

  function FreePort(): Port {
    Port(0, 0, 0, seq(DEPTH, _ => Msg(0, 0, {}, 0, 0, 0, [], [])), 0, 0, 0, false, false)
  }

  lemma NothingYet(t: seq<Port>, c: CapTable)
    requires c.Valid() && forall i | 0 <= i < |t| :: t[i] == FreePort()
    ensures Shown(t, map[], map[]) && Logged(map[], map[], 1) && Waiting(map[], map[], map[])
    ensures Holding(map[], map[], c.caps, c.ext) && OldCaps(map[], c.nextId)
  {
    hide CapTable.Valid, Accounted;
    CapFacts(c);
  }

  class PortTable {
    const table: array<Port>
    const caps: CapTable
    var nextId: nat
    var active: int
    var msgSeq: nat
    /** The calls that are waiting, by reply port. */
    var calls: map<nat, Frame>

    ghost var ports: map<nat, Port>
    ghost var slot: map<nat, nat>
    ghost var log: map<nat, Log>
    ghost var holder: map<nat, nat>

    ghost predicate Consistent()
      reads this, table
    {
      && Shown(table[..], ports, slot) && Logged(ports, log, msgSeq)
      && 1 <= nextId <= MAX_COUNT && active == |ports| && Numbered(ports, nextId)
    }

    /** The invariant of every run. */
    ghost predicate Valid()
      reads this, table, caps, caps.table
    {
      && Consistent() && caps.Valid()
      && Holding(ports, holder, caps.caps, caps.ext) && OldCaps(ports, caps.nextId)
      && Waiting(calls, ports, slot)
    }

    constructor (size: nat, c: CapTable)
      requires c.Valid()
      ensures Valid() && fresh(table) && table.Length == size && caps == c
      ensures ports == map[] && calls == map[] && nextId == 1 && msgSeq == 1
    {
      table := new Port[size](_ => FreePort());
      caps := c;
      nextId, active, msgSeq := 1, 0, 1;
      calls := map[];
      ports, slot, log, holder := map[], map[], map[], map[];
      new;
      hide Shown, Logged, Holding, Waiting, CapTable.Valid, OldCaps, FreePort;
      NothingYet(table[..], caps);
    }

    /** _find_port. */
    method Find(id: nat) returns (r: Option<nat>)
      requires Consistent()
      ensures r.Some? <==> id in ports
      ensures r.Some? ==> r.value < table.Length && id in slot && r.value == slot[id] && table[r.value] == ports[id]
                          && table[r.value].valid && table[r.value].id == id
    {
      if id == PORT_INVALID {
        return None;
      }
      for i := 0 to table.Length
        invariant forall j | 0 <= j < i :: !(table[j].valid && table[j].id == id)
      {
        if table[i].valid && table[i].id == id {
          return Some(i);
        }
      }
      return None;
    }

    method Lookup(id: nat) returns (r: Option<nat>)
      requires Valid()
      ensures r.Some? <==> id in ports
      ensures r.Some? ==> id in slot && r.value == slot[id]
    {
      hide Shown, Logged;
      r := Find(id);
    }

    /** _alloc_port. */
    method Alloc() returns (r: Option<nat>)
      ensures r.Some? ==> r.value < table.Length && !table[r.value].valid
      ensures r.None? <==> forall i | 0 <= i < table.Length :: table[i].valid
    {
      for i := 0 to table.Length
        invariant forall j | 0 <= j < i :: table[j].valid
      {
        if !table[i].valid {
          return Some(i);
        }
      }
      return None;
    }

    /** ipc_port_create: PORT_INVALID exactly when the table is full; else a port
        with a fresh number, an empty queue and a root capability of its own,
        or none if the capability table is full. */
    method Create(owner: nat) returns (id: nat)
      requires Valid() && nextId < MAX_COUNT && caps.nextId < MAX_ID
      modifies this`nextId, this`active, this`ports, this`slot, this`log, this`holder, table,
               caps`nextId, caps`activeCount, caps`caps, caps`slot, caps`ext, caps.table
      ensures Valid() && old(caps.nextId) <= caps.nextId <= old(caps.nextId) + 1 && LogsGrow(old(ports), old(log), log)
      ensures nextId == if id == PORT_INVALID then old(nextId) else old(nextId) + 1
      ensures id == PORT_INVALID <==> old(forall i | 0 <= i < table.Length :: table[i].valid)
      ensures id == PORT_INVALID ==> ports == old(ports) && caps.caps == old(caps.caps) && caps.ext == old(caps.ext)
                                     && holder == old(holder) && log == old(log)
      ensures id != PORT_INVALID ==>
                && id == old(nextId) && id !in old(ports) && id in ports && ports == old(ports)[id := ports[id]]
                && ports[id].owner == owner && ports[id].count == 0 && log == old(log)[id := Log([], [])]
                && CreatedCap(old(caps.caps), caps.caps, old(caps.ext), caps.ext, ports[id].cap)
                && (ports[id].cap == INVALID_ID <==> old(forall i | 0 <= i < caps.table.Length :: caps.table[i].valid))
                && (ports[id].cap != INVALID_ID ==>
                      ports[id].cap in caps.caps && IsPortCap(caps.caps[ports[id].cap], id, owner))
                && holder == (if ports[id].cap == INVALID_ID then old(holder) else old(holder)[ports[id].cap := id])
                && (ports[id].cap == INVALID_ID || ports[id].cap == old(caps.nextId) < caps.nextId)
    {
      hide Shown, Logged, Holding, Waiting, CreatedCap, CapTable.Valid, OldCaps, LogsGrow;
      SameLogs();
      var s := Alloc();
      if s.None? {
        return PORT_INVALID;
      }
      id := nextId;
      CapFacts(caps);
      var c := caps.Create(KIND_PORT, {RIGHT_READ, RIGHT_WRITE, RIGHT_GRANT}, id, owner);
      var p := table[s.value].(id := id, owner := owner, head := 0, tail := 0, count := 0, valid := true,
                               closed := false, cap := c);
      NewHolding(ports, holder, old(caps.caps), old(caps.ext), old(caps.nextId), p, caps.caps, caps.ext, owner);
      CapFacts(caps);
      OldCapsPut(ports, p, old(caps.nextId), caps.nextId);
      LogGrows(ports, log, id, Log([], []));
      Install(s.value, p);
      holder := if c == INVALID_ID then holder else holder[c := id];
    }

    /** The free slot `i` becomes the port `p`. */
    method Install(i: nat, p: Port)
      requires Consistent() && Waiting(calls, ports, slot) && nextId < MAX_COUNT && p.id == nextId
      requires i < table.Length && !table[i].valid
      requires p == table[i].(id := p.id, owner := p.owner, head := 0, tail := 0, count := 0, valid := true,
                              closed := false, cap := p.cap)
      modifies this`nextId, this`active, this`ports, this`slot, this`log, table
      ensures Consistent() && Waiting(calls, ports, slot) && nextId == old(nextId) + 1
      ensures ports == old(ports)[p.id := p] && p.id !in old(ports) && log == old(log)[p.id := Log([], [])]
    {
      hide Shown, Logged, Waiting;
      NewPort(table[..], ports, slot, log, msgSeq, i, p);
      NewWaiting(calls, ports, slot, p.id, i, p);
      table[i] := p;
      assert table[..] == old(table[..])[i := p];
      ports, slot, log := ports[p.id := p], slot[p.id := i], log[p.id := Log([], [])];
      nextId := nextId + 1;
      active := active + 1;
    }

    /** Slot `i` holds `p`, the same port with another queue; `l` is its log. */
    method Update(i: nat, p: Port, ghost l: Log, next: nat)
      requires Valid() && p.id in ports && i == slot[p.id] && i < table.Length
      requires p.cap == ports[p.id].cap && p.valid && !p.closed && Faithful(p, l, next) && msgSeq <= next
      modifies this`msgSeq, this`ports, this`log, table
      ensures Valid() && msgSeq == next
      ensures ports == old(ports)[p.id := p] && log == old(log)[p.id := l]
    {
      hide Shown, Logged, Holding, Waiting, CapTable.Valid, OldCaps, Faithful;
      OldCapsAt(ports, p.id, caps.nextId);
      OldCapsPut(ports, p, caps.nextId, caps.nextId);
      RingLength(p, l, next);
      ShownPut(table[..], ports, slot, p);
      LoggedPut(ports, log, msgSeq, p, l, next);
      HoldingPut(ports, holder, caps.caps, caps.ext, p);
      SameKeys(ports, p);
      WaitingPut(calls, ports, slot, p);
      table[i] := p;
      assert table[..] == old(table[..])[i := p];
      ports, log := ports[p.id := p], log[p.id := l];
      msgSeq := next;
    }

    /** Whether the message may be sent with the capabilities in it. */
    method Grantable(m: Msg) returns (ok: bool)
      requires caps.Valid() && |m.caps| == MAX_CAPS
      ensures ok <==> Grants(caps.caps, m)
      ensures ok <==> forall i | 0 <= i < m.capCount && i < MAX_CAPS ::
                        m.caps[i] in caps.caps && RIGHT_GRANT in caps.caps[m.caps[i]].rights
    {
      hide CapTable.Valid;
      var n := if m.capCount < MAX_CAPS then m.capCount else MAX_CAPS;
      for i := 0 to n
        invariant forall j | 0 <= j < i :: m.caps[j] in caps.caps && RIGHT_GRANT in caps.caps[m.caps[j]].rights
      {
        var c := caps.Check(m.caps[i], {RIGHT_GRANT});
        if !c {
          assert m.caps[i] !in caps.caps || RIGHT_GRANT !in caps.caps[m.caps[i]].rights;
          return false;
        }
      }
      return true;
    }

    /** ipc_send: the error, or the message at the end of the queue under the
        next number. */
    method Send(id: nat, m: Msg) returns (r: Err)
      requires Valid() && msgSeq < MAX_COUNT && |m.caps| == MAX_CAPS
      modifies this`msgSeq, this`ports, this`log, table
      ensures Valid() && ports.Keys == old(ports).Keys && LogsGrow(old(ports), old(log), log)
      ensures r == SendResult(old(ports), caps.caps, id, m)
      ensures r == ErrInvalid <==> id !in old(ports)
      ensures r == ErrFull <==> id in old(ports) && old(ports)[id].count == DEPTH
      ensures r == ErrNoPerm <==> id in old(ports) && old(ports)[id].count != DEPTH && !Grants(caps.caps, m)
      ensures r == IpcOk <==> id in old(ports) && old(ports)[id].count != DEPTH && Grants(caps.caps, m)
      ensures r != IpcOk ==> ports == old(ports) && log == old(log) && msgSeq == old(msgSeq)
      ensures r == IpcOk ==>
                && msgSeq == old(msgSeq) + 1 && id in ports && Accepted(old(log), log, id, m, old(msgSeq))
                && ports == old(ports)[id := ports[id]] && ports[id].cap == old(ports)[id].cap
                && ports[id].count == old(ports)[id].count + 1
    {
      hide Logged, Holding, Waiting, CapTable.Valid, Faithful, Grants, OldCaps, LogsGrow;
      SameLogs();
      var s := Find(id);
      if s.None? {
        return ErrInvalid;
      }
      var p := table[s.value];
      LoggedAt(ports, log, msgSeq, id);
      FaithfulRing(p, log[id], msgSeq);
      if p.closed {
        return ErrClosed;
      }
      if p.count >= DEPTH {
        return ErrFull;
      }
      var ok := Grantable(m);
      if !ok {
        return ErrNoPerm;
      }
      var n := m.(msgId := msgSeq);
      SendFaithful(p, log[id], n, msgSeq);
      LogGrows(ports, log, id, log[id].(accepted := log[id].accepted + [n]));
      Update(s.value, Enqueued(p, n), log[id].(accepted := log[id].accepted + [n]), msgSeq + 1);
      return IpcOk;
    }

    /** One pass of the loop of ipc_receive over the port `id` in slot `i`. */
    method ReceivePass(i: nat, ghost id: nat, timeout: nat, waited: nat) returns (r: Pass)
      requires Valid() && id in ports && i == slot[id]
      modifies this`msgSeq, this`ports, this`log, table
      ensures Valid() && ports.Keys == old(ports).Keys && msgSeq == old(msgSeq) && id in old(log)
      ensures LogsGrow(old(ports), old(log), log)
      ensures old(ports)[id].count == 0 ==>
                && ports == old(ports) && log == old(log)
                && r == EmptyResult(timeout, waited)
                && (r == Wait <==> timeout != TIMEOUT_NONE && (timeout == TIMEOUT_FOREVER || waited < timeout))
                && (r == Done(ErrAgain, None) <==> timeout == TIMEOUT_NONE)
                && (r == Done(ErrTimeout, None) <==>
                    timeout != TIMEOUT_NONE && timeout != TIMEOUT_FOREVER && waited >= timeout)
      ensures old(ports)[id].count > 0 ==>
                && r.Done? && r.err == IpcOk && r.msg.Some?
                && ports == old(ports)[id := ports[id]] && ports[id].cap == old(ports)[id].cap
                && ports[id].count == old(ports)[id].count - 1
                && |old(log)[id].delivered| < |old(log)[id].accepted|
                && r.msg.value == old(log)[id].accepted[|old(log)[id].delivered|]
                && log == old(log)[id := old(log)[id].(delivered := old(log)[id].delivered + [r.msg.value])]
    {
      hide Logged, Holding, Waiting, CapTable.Valid, Faithful, OldCaps, LogsGrow;
      SameLogs();
      var p := table[i];
      LoggedAt(ports, log, msgSeq, id);
      FaithfulRing(p, log[id], msgSeq);
      if p.count > 0 {
        var m := p.queue[p.head];
        ReceiveFaithful(p, log[id], msgSeq);
        LogGrows(ports, log, id, log[id].(delivered := log[id].delivered + [m]));
        Update(i, Dequeued(p), log[id].(delivered := log[id].delivered + [m]), msgSeq);
        return Done(IpcOk, Some(m));
      }
      if p.closed {
        return Done(ErrClosed, None);
      }
      if timeout == TIMEOUT_NONE {
        return Done(ErrAgain, None);
      }
      if timeout != TIMEOUT_FOREVER && waited >= timeout {
        return Done(ErrTimeout, None);
      }
      return Wait;
    }

    /** The slot of port `id` becomes free. */
    method Remove(i: nat, ghost id: nat)
      requires Consistent() && Waiting(calls, ports, slot) && id in ports && i == slot[id] && id !in calls
      modifies this`active, this`ports, this`slot, table
      ensures Consistent() && Waiting(calls, ports, slot) && ports == old(ports) - {id}
    {
      hide Shown, Logged, Waiting;
      ShownAt(table[..], ports, slot, id);
      var p := table[i].(closed := true, valid := false, cap := INVALID_ID);
      ShownDrop(table[..], ports, slot, id, p);
      LoggedDrop(ports, log, msgSeq, id);
      WaitingDrop(calls, ports, slot, id);
      assert (ports - {id}).Keys == ports.Keys - {id};
      table[i] := p;
      assert table[..] == old(table[..])[i := p];
      ports, slot := ports - {id}, slot - {id};
      active := active - 1;
    }

    /** ipc_port_destroy, of a port that no call waits on: the port goes, and its
        capability with it unless someone else holds a reference. */
    method Destroy(id: nat)
      requires Valid() && id !in calls
      modifies this`active, this`ports, this`slot, this`holder, table,
               caps`activeCount, caps`caps, caps`slot, caps`ext, caps.table
      ensures Valid() && ports == old(ports) - {id} && caps.nextId == old(caps.nextId)
      ensures id !in old(ports) ==> caps.caps == old(caps.caps) && caps.ext == old(caps.ext) && holder == old(holder)
      ensures id in old(ports) ==>
                && ReleasedCap(old(caps.caps), caps.caps, old(caps.ext), caps.ext, old(ports)[id].cap)
                && holder == old(holder) - {old(ports)[id].cap}
    {
      hide Consistent, Holding, Waiting, CapTable.Valid, ReleasedCap, OldCaps;
      var s := Find(id);
      if s.None? {
        assert ports - {id} == ports;
        return;
      }
      OldCapsAt(ports, id, caps.nextId);
      var c := table[s.value].cap;
      Remove(s.value, id);
      GiveUp(old(ports), id, c);
      NoHolder(c);
    }

    /** The tables do not depend on who holds which capability. */
    ghost method NoHolder(c: nat)
      requires Consistent()
      modifies this`holder
      ensures Consistent() && holder == old(holder) - {c}
    {
      hide Shown, Logged, Numbered;
      holder := holder - {c};
    }

    /** The port `x` of `before` gives up its capability `c`, if it has one. */
    method GiveUp(ghost before: map<nat, Port>, ghost x: nat, c: nat)
      requires caps.Valid() && Holding(before, holder, caps.caps, caps.ext) && x in before && before[x].cap == c
      modifies caps`activeCount, caps`caps, caps`slot, caps`ext, caps.table
      ensures caps.Valid() && Holding(before - {x}, holder - {c}, caps.caps, caps.ext)
              && caps.nextId == old(caps.nextId)
      ensures ReleasedCap(old(caps.caps), caps.caps, old(caps.ext), caps.ext, c)
    {
      hide Holding, CapTable.Valid, ReleasedCap, ReleaseExact, Sound, Surrendered, Unused;
      HoldingAt(before, holder, caps.caps, caps.ext, x);
      CapFacts(caps);
      if c != INVALID_ID {
        caps.Release(c);
        CapFacts(caps);
      } else {
        NoRelease(caps.caps, caps.ext, c);
      }
      OldPortGone(before, holder, old(caps.caps), old(caps.ext), x, caps.caps, caps.ext);
    }

    /** One pass of a waiting call. While it waits nothing changes; when it ends,
        with a reply or without, its reply port is gone and so is the port's
        capability, unless someone took a reference on it. */
    method CallPass(reply: nat) returns (r: Pass)
      requires Valid() && reply in calls
      modifies this`msgSeq, this`active, this`ports, this`slot, this`log, this`holder, this`calls, table,
               caps`activeCount, caps`caps, caps`slot, caps`ext, caps.table
      ensures Valid() && reply in old(ports) && SameCaps(old(ports), ports)
      ensures msgSeq == old(msgSeq) && caps.nextId == old(caps.nextId) && LogsGrow(old(ports), old(log), log)
      ensures r.Wait? ==>
                && ports == old(ports) && log == old(log) && old(ports)[reply].count == 0
                && calls == old(calls)[reply := old(calls)[reply].(waited := old(calls)[reply].waited + YIELD_MS)]
                && caps.caps == old(caps.caps) && caps.ext == old(caps.ext) && holder == old(holder)
      ensures r.Done? ==>
                && ports.Keys == old(ports).Keys - {reply} && calls == old(calls) - {reply}
                && ReleasedCap(old(caps.caps), caps.caps, old(caps.ext), caps.ext, old(ports)[reply].cap)
                && holder == old(holder) - {old(ports)[reply].cap}
      ensures old(ports)[reply].count == 0 ==> r == EmptyResult(old(calls)[reply].timeout, old(calls)[reply].waited)
      ensures old(ports)[reply].count > 0 ==>
                && r.Done? && r.err == IpcOk && reply in old(log)
                && |old(log)[reply].delivered| < |old(log)[reply].accepted|
                && r.msg == Some(old(log)[reply].accepted[|old(log)[reply].delivered|])
    {
      hide Valid, ReleasedCap, LogsGrow;
      CallFacts(reply);
      var f := calls[reply];
      r := ReceivePass(f.index, reply, f.timeout, f.waited);
      if r.Wait? {
        Register(reply, f.(waited := f.waited + YIELD_MS));
        return;
      }
      Unregister(reply);
      Destroy(reply);
    }

    lemma AllFree()
      requires Valid() && ports == map[]
      ensures forall i | 0 <= i < table.Length :: !table[i].valid
    {
      hide Logged, Holding, CapTable.Valid;
    }

    lemma HoldersValid()
      requires Valid()
      ensures holder.Keys <= caps.caps.Keys && calls.Keys <= ports.Keys
      ensures INVALID_ID !in holder && INVALID_ID !in caps.caps
    {
      forall c | c in holder
        ensures c in caps.caps
      {
        assert CapHeld(ports, holder, caps.caps, caps.ext, c);
      }
    }

    lemma SameLogs()
      requires Valid()
      ensures LogsGrow(ports, log, log)
    {
      hide Holding, Shown, CapTable.Valid, Waiting, OldCaps;
      forall x | x in ports
        ensures Longer(log, log, x)
      {
        LoggedAt(ports, log, msgSeq, x);
      }
    }

    lemma CallFacts(reply: nat)
      requires Valid() && reply in calls
      ensures reply in ports && reply in slot && slot[reply] == calls[reply].index
    {
    }

    /** The caller's stack frame: which port it waits on, and since when. */
    method Register(reply: nat, f: Frame)
      requires Valid() && reply in ports && reply in slot && slot[reply] == f.index
      modifies this`calls
      ensures Valid() && calls == old(calls)[reply := f]
    {
      hide Shown, Logged, Holding, CapTable.Valid;
      calls := calls[reply := f];
    }

    method Unregister(reply: nat)
      requires Valid()
      modifies this`calls
      ensures Valid() && calls == old(calls) - {reply}
    {
      hide Shown, Logged, Holding, CapTable.Valid;
      calls := calls - {reply};
    }

    /** ipc_call up to its first yield: the reply port is made, the request is
        sent with its number in it, and the first pass is taken. A call that
        returns here has restored the ports and the capabilities. */
    method CallBegin(id: nat, m: Msg, timeout: nat) returns (r: Pass)
      requires Valid() && nextId < MAX_COUNT && msgSeq < MAX_COUNT && caps.nextId < MAX_ID && |m.caps| == MAX_CAPS
      modifies this`nextId, this`msgSeq, this`active, this`ports, this`slot, this`log, this`holder, this`calls, table,
               caps`nextId, caps`activeCount, caps`caps, caps`slot, caps`ext, caps.table
      ensures Valid() && SameCaps(old(ports), ports)
      ensures old(nextId) <= nextId <= old(nextId) + 1
      ensures msgSeq <= old(msgSeq) + 1 && old(caps.nextId) <= caps.nextId <= old(caps.nextId) + 1
      ensures LogsGrow(old(ports), old(log), log)
      ensures r.Done? ==>
                && ports.Keys == old(ports).Keys && calls == old(calls)
                && caps.caps == old(caps.caps) && holder == old(holder)
                && SameReferences(caps.caps, old(caps.ext), caps.ext)
      ensures r.Wait? ==>
                && var reply := old(nextId);
                && nextId == reply + 1 && reply !in old(ports) && reply in ports
                && ports.Keys == old(ports).Keys + {reply}
                && reply in calls && calls == old(calls)[reply := calls[reply]]
                && CreatedCap(old(caps.caps), caps.caps, old(caps.ext), caps.ext, ports[reply].cap)
                && holder == (if ports[reply].cap == INVALID_ID then old(holder)
                              else old(holder)[ports[reply].cap := reply])
                && (ports[reply].cap == INVALID_ID || ports[reply].cap == old(caps.nextId) < caps.nextId)
                && calls[reply].timeout == timeout && calls[reply].waited == YIELD_MS
                && Accepted(old(log)[reply := Log([], [])], log, id, m.(replyPort := reply), old(msgSeq))
      ensures old(forall i | 0 <= i < table.Length :: table[i].valid) ==> r == Done(ErrInvalid, None)
      ensures id !in old(ports) && id != old(nextId) ==> r == Done(ErrInvalid, None)
      ensures id in old(ports) && old(ports)[id].count == DEPTH ==>
                old(forall i | 0 <= i < table.Length :: table[i].valid) || r == Done(ErrFull, None)
    {
      hide Valid, ReleasedCap, Grants, Accepted, LogsGrow, CreatedCap;
      HoldersValid();
      var reply := Create(m.sender);
      if reply == PORT_INVALID {
        return Done(ErrInvalid, None);
      }
      ghost var made, now := log, ports;
      ghost var c, f, e := ports[reply].cap, caps.caps, caps.ext;
      r := CallSend(reply, id, m.(replyPort := reply), timeout);
      LogsGrowMore(old(ports), now, old(log), made, log);
      if r.Done? {
        MadeAndReleased(old(caps.caps), f, caps.caps, old(caps.ext), e, caps.ext, c);
        HolderBack(old(caps.caps), f, old(caps.ext), e, old(holder), c, reply);
      }
    }

    /** The rest of CallBegin, once the reply port is there. */
    method CallSend(reply: nat, id: nat, m: Msg, timeout: nat) returns (r: Pass)
      requires Valid() && msgSeq < MAX_COUNT && |m.caps| == MAX_CAPS && reply in ports && reply !in calls
      modifies this`msgSeq, this`active, this`ports, this`slot, this`log, this`holder, this`calls, table,
               caps`activeCount, caps`caps, caps`slot, caps`ext, caps.table
      ensures Valid() && SameCaps(old(ports), ports)
      ensures msgSeq <= old(msgSeq) + 1 && caps.nextId == old(caps.nextId) && LogsGrow(old(ports), old(log), log)
      ensures r.Done? ==>
                && ports.Keys == old(ports).Keys - {reply} && calls == old(calls)
                && ReleasedCap(old(caps.caps), caps.caps, old(caps.ext), caps.ext, old(ports)[reply].cap)
                && holder == old(holder) - {old(ports)[reply].cap}
      ensures r.Wait? ==>
                && ports.Keys == old(ports).Keys && reply in calls && calls == old(calls)[reply := calls[reply]]
                && caps.caps == old(caps.caps) && caps.ext == old(caps.ext) && holder == old(holder)
                && calls[reply].timeout == timeout && calls[reply].waited == YIELD_MS
                && Accepted(old(log), log, id, m, old(msgSeq))
      ensures var e := SendResult(old(ports), old(caps.caps), id, m); e != IpcOk ==> r == Done(e, None)
    {
      hide Valid, ReleasedCap, Grants, Accepted, LogsGrow;
      var err := Send(id, m);
      if err != IpcOk {
        Destroy(reply);
        return Done(err, None);
      }
      var s := Lookup(reply);
      Register(reply, Frame(s.value, 0, timeout));
      ghost var sent, mid := log, ports;
      r := CallPass(reply);
      LogsGrowMore(old(ports), mid, old(log), sent, log);
      if r.Done? {
        assert calls == old(calls);
      }
    }

    /** ipc_reply. A reply to a call that is over finds no port. */
    method Reply(request: Msg, data: Msg) returns (r: Err)
      requires Valid() && msgSeq + 1 < MAX_COUNT && |data.caps| == MAX_CAPS
      modifies this`msgSeq, this`ports, this`log, table
      ensures Valid() && ports.Keys == old(ports).Keys && SameCaps(old(ports), ports)
      ensures msgSeq <= old(msgSeq) + 2 && LogsGrow(old(ports), old(log), log)
      ensures r == SendResult(old(ports), caps.caps, request.replyPort, data)
      ensures request.replyPort !in old(ports) ==> r == ErrInvalid
      ensures r != IpcOk ==> ports == old(ports) && log == old(log)
      ensures r == IpcOk ==>
                Accepted(old(log), log, request.replyPort, data.(flags := data.flags + {FLAG_REPLY}), old(msgSeq) + 1)
    {
      hide Valid, LogsGrow;
      NoPortZero();
      SameLogs();
      if request.replyPort == PORT_INVALID {
        return ErrInvalid;
      }
      var reply := data.(flags := data.flags + {FLAG_REPLY}, msgId := msgSeq);
      Skip();
      r := Send(request.replyPort, reply);
    }

    lemma NoPortZero()
      requires Valid()
      ensures PORT_INVALID !in ports
    {
    }

    /** One message number is used up. */
    method Skip()
      requires Valid()
      modifies this`msgSeq
      ensures Valid() && msgSeq == old(msgSeq) + 1
    {
      hide Shown, Holding, Waiting, CapTable.Valid, Faithful;
      ghost var next := msgSeq + 1;
      forall x
        ensures PortFine(ports, log, next, x)
      {
        assert PortFine(ports, log, msgSeq, x);
        if x in ports {
          LaterFaithful(ports[x], log[x], msgSeq, next);
        }
      }
      msgSeq := msgSeq + 1;
    }

    // -------------------------------------------------------------------
    // Steps of other tasks on the capability table
    // -------------------------------------------------------------------

    /** Another task takes a reference on a capability. */
    method AddRef(c: nat) returns (ok: bool)
      requires Valid()
      modifies caps`caps, caps`ext, caps.table
      ensures Valid() && caps.caps.Keys == old(caps.caps).Keys && (ok <==> c in caps.caps)
      ensures caps.ext == if ok then old(caps.ext)[c := External(old(caps.ext), c) + 1] else old(caps.ext)
    {
      hide Consistent, Holding, Waiting, CapTable.Valid, OldCaps;
      ok := Knows(c);
      caps.AddRef(c);
      HoldingMore(ports, holder, old(caps.caps), old(caps.ext), caps.caps, caps.ext, c);
    }

    method Knows(c: nat) returns (ok: bool)
      requires caps.Valid()
      ensures ok <==> c in caps.caps
    {
      var r := caps.Get(c);
      return r.Some?;
    }

    /** Another task gives a reference back that it has taken. */
    method DropRef(c: nat)
      requires Valid() && (c in caps.caps ==> External(caps.ext, c) >= 1)
               && (c in holder ==> External(caps.ext, c) >= 2)
      modifies caps`activeCount, caps`caps, caps`slot, caps`ext, caps.table
      ensures Valid() && caps.nextId == old(caps.nextId)
      ensures caps.ext == Surrendered(old(caps.caps), old(caps.ext), c)
      ensures ReleaseExact(old(caps.caps), caps.caps, caps.ext, c)
    {
      hide Consistent, Holding, Waiting, CapTable.Valid, OldCaps, ReleaseExact, Surrendered;
      caps.Release(c);
      HoldingLess(ports, holder, old(caps.caps), old(caps.ext), c, caps.caps);
    }

    method MakeCap(kind: nat, rights: Rights, target: nat, owner: nat) returns (id: nat)
      requires Valid() && caps.nextId < MAX_ID
      modifies caps`nextId, caps`activeCount, caps`caps, caps`slot, caps`ext, caps.table
      ensures Valid()
      ensures id == INVALID_ID ==>
                caps.caps == old(caps.caps) && caps.ext == old(caps.ext) && caps.nextId == old(caps.nextId)
      ensures id != INVALID_ID ==>
                && NewCap(old(caps.caps), caps.caps, old(caps.ext), caps.ext, id)
                && id == old(caps.nextId) == caps.nextId - 1
    {
      hide Consistent, Holding, Waiting, CapTable.Valid, OldCaps, Sound;
      CapFacts(caps);
      id := caps.Create(kind, rights, target, owner);
      if id != INVALID_ID {
        HoldingNew(ports, holder, old(caps.caps), old(caps.ext), id, caps.caps, INVALID_ID);
        OldCapsLater(ports, old(caps.nextId), caps.nextId);
      }
    }

    method DeriveCap(parent: nat, reduced: Rights) returns (id: nat)
      requires Valid() && caps.nextId < MAX_ID
      modifies caps`nextId, caps`activeCount, caps`caps, caps`slot, caps`ext, caps.table
      ensures Valid()
      ensures id == INVALID_ID ==>
                caps.caps == old(caps.caps) && caps.ext == old(caps.ext) && caps.nextId == old(caps.nextId)
      ensures id != INVALID_ID ==>
                && NewCap(old(caps.caps), caps.caps, old(caps.ext), caps.ext, id)
                && id == old(caps.nextId) == caps.nextId - 1
    {
      hide Consistent, Holding, Waiting, CapTable.Valid, OldCaps, Sound;
      CapFacts(caps);
      id := caps.Derive(parent, reduced);
      if id != INVALID_ID {
        HoldingNew(ports, holder, old(caps.caps), old(caps.ext), id, caps.caps, parent);
        OldCapsLater(ports, old(caps.nextId), caps.nextId);
      }
    }

    method TransferCap(c: nat, newOwner: nat)
      requires Valid()
      modifies caps`caps, caps.table
      ensures Valid() && caps.caps.Keys == old(caps.caps).Keys
      ensures caps.caps == if c in old(caps.caps) && RIGHT_GRANT in old(caps.caps)[c].rights
                           then old(caps.caps)[c := old(caps.caps)[c].(owner := newOwner)] else old(caps.caps)
    {
      hide Consistent, Holding, Waiting, CapTable.Valid, OldCaps;
      CapFacts(caps);
      var r := caps.Transfer(c, newOwner);
      if c in old(caps.caps) {
        HoldingOwner(ports, holder, old(caps.caps), caps.ext, c, newOwner);
      }
    }

    /** Revoking a port's capability leaves the port without one. */
    method RevokeCap(c: nat)
      requires Valid()
      modifies this`holder, caps`activeCount, caps`caps, caps`slot, caps.table
      ensures Valid() && caps.caps.Keys <= old(caps.caps).Keys && c !in caps.caps && holder == old(holder) - {c}
      ensures c in old(caps.caps) ==> RevocationExact(old(caps.caps), caps.caps, caps.ext, c)
    {
      hide Shown, Logged, Numbered, Holding, Waiting, OldCaps, CapTable.Valid;
      RevokeHeld(c);
      holder := holder - {c};
    }

    method RevokeHeld(c: nat)
      requires caps.Valid() && Holding(ports, holder, caps.caps, caps.ext)
      modifies caps`activeCount, caps`caps, caps`slot, caps.table
      ensures caps.Valid() && Holding(ports, holder - {c}, caps.caps, caps.ext)
      ensures caps.caps.Keys <= old(caps.caps).Keys && c !in caps.caps
      ensures c in old(caps.caps) ==> RevocationExact(old(caps.caps), caps.caps, caps.ext, c)
    {
      hide Holding, Sound, Revoked, RevocationExact, CapTable.Valid, CapTable.Consistent, OnlyInvalidates;
      CapReady(caps);
      var found := caps.Revoke(c);
      if found {
        HoldingRevoked(ports, holder, old(caps.caps), caps.ext, c, caps.caps);
        RevokedFewer(old(caps.caps), caps.caps, caps.ext, c);
      } else {
        NotHeld(ports, holder, caps.caps, caps.ext, c);
      }
    }
  }

  /** An urgent message sent after another one is not the first to be received. */
  method UrgentWaits(plain: Msg, urgent: Msg) returns (r: Pass)
    requires |plain.caps| == MAX_CAPS == |urgent.caps| && plain.capCount == 0 == urgent.capCount
    requires FLAG_URGENT in urgent.flags && FLAG_URGENT !in plain.flags
    ensures r == Done(IpcOk, Some(plain.(msgId := 1)))
  {
    hide PortTable.Valid, CapTable.Valid, LogsGrow, CreatedCap;
    var c := new CapTable(0);
    var t := new PortTable(1, c);
    t.AllFree();
    assert !t.table[0].valid;
    var id := t.Create(0);
    var e := t.Send(id, plain);
    var e' := t.Send(id, urgent);
    var s := t.Lookup(id);
    r := t.ReceivePass(s.value, id, TIMEOUT_NONE, 0);
  }
}
