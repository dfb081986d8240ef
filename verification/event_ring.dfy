/** The lock-free event ring of gui/event.c, one producer and one consumer.

The two sides are step machines that share the ring and the two counters, and a
step of either may come between any two steps of the other. An event is copied
word by word, the counters are 32 bits wide and wrap around, and each side works
with the other's counter as it was when it was loaded. */
module EventRing {

  const SLOTS: nat := 256
  const WRAP: nat := 0x1_0000_0000

  /** An event is a block of `words` machine words. */
  type Event = seq<int>

  /** gui_event_push: idle; `evt_tail` loaded; `done` words of the event copied. */
  datatype Producer = PIdle | PLoaded(event: Event, tail: nat) | PCopying(event: Event, done: nat)

  /** gui_event_pop: idle; `evt_head` loaded; `out` copied so far. */
  datatype Consumer = CIdle | CLoaded(head: nat) | CCopying(out: Event)

  /** `accepted` and `popped` record what went in and came out. */
  datatype State = State(words: nat, ring: seq<Event>, head: nat, tail: nat,
                         producer: Producer, consumer: Consumer,
                         accepted: seq<Event>, popped: seq<Event>)

  datatype Action =
    | PushLoad(event: Event) | PushCheck | PushWord | PushPublish
    | PopLoad | PopCheck | PopWord | PopPublish

  function Wrap(n: nat): nat {
    n % WRAP
  }

  /** Unsigned 32-bit subtraction. */
  function Minus(a: nat, b: nat): nat
    requires a < WRAP && b < WRAP
  {
    if a >= b then a - b else a + WRAP - b
  }

  function Slot(counter: nat): nat {
    counter % SLOTS
  }

  function Init(words: nat): State {
    State(words, seq(SLOTS, _ => seq(words, _ => 0)), 0, 0, PIdle, CIdle, [], [])
  }

  ghost predicate Shape(s: State) {
    && |s.ring| == SLOTS && (forall i | 0 <= i < SLOTS :: |s.ring[i]| == s.words)
    && s.head < WRAP && s.tail < WRAP
    && (s.producer.PLoaded? ==> |s.producer.event| == s.words && s.producer.tail < WRAP)
    && (s.producer.PCopying? ==> |s.producer.event| == s.words && s.producer.done <= s.words)
    && (s.consumer.CLoaded? ==> s.consumer.head < WRAP)
    && (s.consumer.CCopying? ==> |s.consumer.out| <= s.words)
  }

  predicate Enabled(s: State, a: Action) {
    match a
    case PushLoad(e) => s.producer.PIdle? && |e| == s.words
    case PushCheck => s.producer.PLoaded?
    case PushWord => s.producer.PCopying? && s.producer.done < s.words
    case PushPublish => s.producer.PCopying? && s.producer.done == s.words
    case PopLoad => s.consumer.CIdle?
    case PopCheck => s.consumer.CLoaded?
    case PopWord => s.consumer.CCopying? && |s.consumer.out| < s.words
    case PopPublish => s.consumer.CCopying? && |s.consumer.out| == s.words
  }

  /** One step of one side. */
  function Do(s: State, a: Action): State
    requires Shape(s) && Enabled(s, a)
  {
    match a
    case PushLoad(e) => s.(producer := PLoaded(e, s.tail))
    case PushCheck =>
      if Minus(s.head, s.producer.tail) >= SLOTS then s.(producer := PIdle)
      else s.(producer := PCopying(s.producer.event, 0))
    case PushWord =>
      var i, k := Slot(s.head), s.producer.done;
      s.(ring := s.ring[i := s.ring[i][k := s.producer.event[k]]],
         producer := PCopying(s.producer.event, k + 1))
    case PushPublish =>
      s.(head := Wrap(s.head + 1), producer := PIdle, accepted := s.accepted + [s.producer.event])
    case PopLoad => s.(consumer := CLoaded(s.head))
    case PopCheck =>
      if s.consumer.head == s.tail then s.(consumer := CIdle) else s.(consumer := CCopying([]))
    case PopWord =>
      s.(consumer := CCopying(s.consumer.out + [s.ring[Slot(s.tail)][|s.consumer.out|]]))
    case PopPublish =>
      s.(tail := Wrap(s.tail + 1), consumer := CIdle, popped := s.popped + [s.consumer.out])
  }

  // ---------------------------------------------------------------------
  // The invariant
  // ---------------------------------------------------------------------

  /** The counters are the numbers of events in and out, 32 bits of them. */
  ghost predicate Counted(s: State) {
    && s.head == Wrap(|s.accepted|) && s.tail == Wrap(|s.popped|)
    && |s.popped| <= |s.accepted| <= |s.popped| + SLOTS
  }

  /** What came out went in, in the same order. */
  ghost predicate Ordered(s: State) {
    |s.popped| <= |s.accepted| && s.popped == s.accepted[..|s.popped|]
  }

  /** The events not yet out are in their slots. */
  ghost predicate Stored(s: State) {
    |s.ring| == SLOTS && forall j: nat {:trigger s.accepted[j]} ::
      |s.popped| <= j < |s.accepted| ==> s.ring[Slot(j)] == s.accepted[j]
  }

  /** `t` was the counter of some `n` events out, and since then the ring had room. */
  ghost predicate SeenTail(s: State, t: nat, n: nat) {
    n <= |s.popped| && |s.accepted| <= n + SLOTS && t == Wrap(n)
  }

  ghost predicate SeenHead(s: State, h: nat, n: nat) {
    |s.popped| <= n <= |s.accepted| && h == Wrap(n)
  }

  ghost predicate Producing(s: State) {
    match s.producer
    case PIdle => true
    case PLoaded(_, t) => exists n: nat :: SeenTail(s, t, n)
    case PCopying(e, k) =>
      && |s.accepted| < |s.popped| + SLOTS && |s.ring| == SLOTS
      && k <= |e| && k <= |s.ring[Slot(|s.accepted|)]| && s.ring[Slot(|s.accepted|)][..k] == e[..k]
  }

  ghost predicate Consuming(s: State) {
    match s.consumer
    case CIdle => true
    case CLoaded(h) => exists n: nat :: SeenHead(s, h, n)
    case CCopying(out) =>
      |s.popped| < |s.accepted| && |out| <= |s.accepted[|s.popped|]| && out == s.accepted[|s.popped|][..|out|]
  }

  ghost predicate Inv(s: State) {
    Shape(s) && Counted(s) && Ordered(s) && Stored(s) && Producing(s) && Consuming(s)
  }

  lemma WrapMinus(h: nat, t: nat)
    requires t <= h < t + WRAP
    ensures Minus(Wrap(h), Wrap(t)) == h - t
  {
    var q := t / WRAP;
    assert t == q * WRAP + Wrap(t);
    if h < (q + 1) * WRAP {
      assert h / WRAP == q;
    } else {
      assert h / WRAP == q + 1;
    }
  }

  lemma SlotWrap(n: nat)
    ensures Slot(Wrap(n)) == Slot(n) && Wrap(Wrap(n) + 1) == Wrap(n + 1)
  {
    var q := n / WRAP;
    assert n == q * WRAP + Wrap(n);
    assert n == SLOTS * (q * 0x100_0000) + Wrap(n);
  }

  /** Two positions less than a full turn apart are in different slots. */
  lemma SlotsApart(a: nat, b: nat)
    requires a < b < a + SLOTS
    ensures Slot(a) != Slot(b)
  {
  }

  /** Both checks are exact at the moment of the load: the ring counts as full
      exactly when 256 events are in it, as empty exactly when none is. */
  lemma ChecksExact(s: State)
    requires Inv(s)
    ensures Minus(s.head, s.tail) == |s.accepted| - |s.popped| <= SLOTS
    ensures Minus(s.head, s.tail) >= SLOTS <==> |s.accepted| == |s.popped| + SLOTS
    ensures s.head == s.tail <==> |s.accepted| == |s.popped|
  {
    WrapMinus(|s.accepted|, |s.popped|);
  }

  lemma InitInv(words: nat)
    ensures Inv(Init(words))
  {
  }

  lemma PushCheckInv(s: State)
    requires Inv(s) && Enabled(s, PushCheck)
    ensures Inv(Do(s, PushCheck))
  {
    var n: nat :| SeenTail(s, s.producer.tail, n);
    WrapMinus(|s.accepted|, n);
    SameConsuming(s, Do(s, PushCheck));
  }

  lemma PopCheckInv(s: State)
    requires Inv(s) && Enabled(s, PopCheck)
    ensures Inv(Do(s, PopCheck))
  {
    hide Producing;
    var n: nat :| SeenHead(s, s.consumer.head, n);
    WrapMinus(n, |s.popped|);
    SameProducing(s, Do(s, PopCheck));
  }

  lemma SameProducing(s: State, u: State)
    requires Producing(s) && u.producer == s.producer && u.ring == s.ring && u.accepted == s.accepted
    requires |s.popped| <= |u.popped|
    ensures Producing(u)
  {
    if s.producer.PLoaded? {
      var n: nat :| SeenTail(s, s.producer.tail, n);
      assert SeenTail(u, u.producer.tail, n);
    }
  }

  lemma SameConsuming(s: State, u: State)
    requires Consuming(s) && u.consumer == s.consumer && u.popped == s.popped && s.accepted <= u.accepted
    ensures Consuming(u)
  {
    if s.consumer.CLoaded? {
      var n: nat :| SeenHead(s, s.consumer.head, n);
      assert SeenHead(u, u.consumer.head, n);
    }
  }

  lemma LoadInv(s: State, a: Action)
    requires Inv(s) && Enabled(s, a) && (a.PushLoad? || a.PopLoad?)
    ensures Inv(Do(s, a))
  {
    var u := Do(s, a);
    if a.PushLoad? {
      assert SeenTail(u, s.tail, |s.popped|);
      SameConsuming(s, u);
    } else {
      assert SeenHead(u, s.head, |s.accepted|);
      SameProducing(s, u);
    }
  }

  /** The slot being filled is none that holds an event. */
  lemma PushWordInv(s: State)
    requires Inv(s) && Enabled(s, PushWord)
    ensures Inv(Do(s, PushWord))
  {
    hide Consuming;
    var u, i := Do(s, PushWord), Slot(|s.accepted|);
    var e, k := s.producer.event, s.producer.done;
    SlotWrap(|s.accepted|);
    SameConsuming(s, u);
    forall j: nat | |u.popped| <= j < |u.accepted|
      ensures u.ring[Slot(j)] == u.accepted[j]
    {
      SlotsApart(j, |s.accepted|);
    }
    assert u.ring[i] == s.ring[i][k := e[k]];
    assert u.ring[i][..k + 1] == s.ring[i][..k] + [e[k]];
    assert e[..k + 1] == e[..k] + [e[k]];
  }

  lemma PushPublishInv(s: State)
    requires Inv(s) && Enabled(s, PushPublish)
    ensures Inv(Do(s, PushPublish))
  {
    hide Consuming;
    var u, e := Do(s, PushPublish), s.producer.event;
    SlotWrap(|s.accepted|);
    SameConsuming(s, u);
    var i := Slot(|s.accepted|);
    assert s.ring[i] == s.ring[i][..s.words] == e[..s.words] == e;
    assert u.accepted[..|u.popped|] == s.accepted[..|s.popped|];
  }

  lemma PopWordInv(s: State)
    requires Inv(s) && Enabled(s, PopWord)
    ensures Inv(Do(s, PopWord))
  {
    hide Producing;
    var u, out := Do(s, PopWord), s.consumer.out;
    SlotWrap(|s.popped|);
    SameProducing(s, u);
    var e := s.accepted[|s.popped|];
    assert s.ring[Slot(|s.popped|)] == e;
    assert e[..|out| + 1] == e[..|out|] + [e[|out|]];
  }

  lemma PopPublishInv(s: State)
    requires Inv(s) && Enabled(s, PopPublish)
    ensures Inv(Do(s, PopPublish))
  {
    hide Producing;
    var u, n := Do(s, PopPublish), |s.popped|;
    SlotWrap(n);
    SameProducing(s, u);
    assert s.ring[Slot(n)] == s.accepted[n];
    assert s.consumer.out == s.accepted[n];
    assert s.accepted[..n + 1] == s.accepted[..n] + [s.accepted[n]];
  }

  lemma StepInv(s: State, a: Action)
    requires Inv(s) && Enabled(s, a)
    ensures Inv(Do(s, a))
  {
    hide Inv;
    match a
    case PushLoad(_) => LoadInv(s, a);
    case PushCheck => PushCheckInv(s);
    case PushWord => PushWordInv(s);
    case PushPublish => PushPublishInv(s);
    case PopLoad => LoadInv(s, a);
    case PopCheck => PopCheckInv(s);
    case PopWord => PopWordInv(s);
    case PopPublish => PopPublishInv(s);
  }

  // ---------------------------------------------------------------------
  // Runs
  // ---------------------------------------------------------------------

  /** `run` lists the states that the actions lead through. */
  ghost predicate IsRun(run: seq<State>, actions: seq<Action>) {
    && |run| == |actions| + 1 && run[0] == Init(run[0].words)
    && forall i | 0 <= i < |actions| ::
         Shape(run[i]) && Enabled(run[i], actions[i]) && run[i + 1] == Do(run[i], actions[i])
  }

  lemma {:induction false} RunInv(run: seq<State>, actions: seq<Action>, i: nat)
    requires IsRun(run, actions) && i < |run|
    ensures Inv(run[i])
  {
    if i == 0 {
      InitInv(run[0].words);
    } else {
      RunInv(run, actions, i - 1);
      StepInv(run[i - 1], actions[i - 1]);
    }
  }

  /** In every state of every interleaving, what was popped is a prefix of what
      was accepted, at most 256 events are in between, also for the 32-bit
      counters, and a slot is never filled while it is read. */
  lemma RingSafe(run: seq<State>, actions: seq<Action>, i: nat)
    requires IsRun(run, actions) && i < |run|
    ensures run[i].popped <= run[i].accepted
    ensures run[i].head < WRAP && run[i].tail < WRAP
    ensures Minus(run[i].head, run[i].tail) == |run[i].accepted| - |run[i].popped| <= SLOTS
    ensures run[i].producer.PCopying? && run[i].consumer.CCopying? ==> Slot(run[i].head) != Slot(run[i].tail)
  {
    var s := run[i];
    RunInv(run, actions, i);
    ChecksExact(s);
    SlotWrap(|s.accepted|);
    SlotWrap(|s.popped|);
    if s.producer.PCopying? && s.consumer.CCopying? {
      SlotsApart(|s.popped|, |s.accepted|);
    }
  }

  // ---------------------------------------------------------------------
  // Whole calls
  // ---------------------------------------------------------------------

  predicate OfProducer(a: Action) {
    a.PushLoad? || a.PushCheck? || a.PushWord? || a.PushPublish?
  }

  /** A push begins with action `i`, and up to state `j` it has not returned. */
  ghost predicate Pushing(run: seq<State>, actions: seq<Action>, i: nat, j: nat) {
    && IsRun(run, actions) && i < j < |run| && actions[i].PushLoad?
    && forall t | i < t <= j :: !run[t].producer.PIdle?
  }

  ghost predicate Popping(run: seq<State>, actions: seq<Action>, i: nat, j: nat) {
    && IsRun(run, actions) && i < j < |run| && actions[i].PopLoad?
    && forall t | i < t <= j :: !run[t].consumer.CIdle?
  }

  lemma PushingPart(run: seq<State>, actions: seq<Action>, i: nat, j: nat)
    requires Pushing(run, actions, i, j + 1) && i < j
    ensures Pushing(run, actions, i, j)
  {
  }

  /** Until it returns, the event is the one that was given, nothing was accepted
      since, and it is being copied only if there was room at the start. */
  lemma {:induction false} PushUnderWay(run: seq<State>, actions: seq<Action>, i: nat, j: nat)
    requires Pushing(run, actions, i, j)
    ensures run[j].accepted == run[i].accepted && run[j].words == run[i].words
    ensures match run[j].producer
            case PIdle => false
            case PLoaded(e, t) => e == actions[i].event && t == run[i].tail
            case PCopying(e, _) => e == actions[i].event && |run[i].accepted| < |run[i].popped| + SLOTS
    decreases j
  {
    if j > i + 1 {
      PushingPart(run, actions, i, j - 1);
      PushUnderWay(run, actions, i, j - 1);
      RunInv(run, actions, i);
      RunInv(run, actions, j - 1);
      WrapMinus(|run[i].accepted|, |run[i].popped|);
    }
  }

  /** A push is rejected exactly when 256 events were in the ring at its load; and
      otherwise, when it returns, its event is the one that was appended. */
  lemma PushExact(run: seq<State>, actions: seq<Action>, i: nat, j: nat)
    requires Pushing(run, actions, i, j) && j < |actions| && run[j + 1].producer.PIdle?
    ensures run[j + 1].accepted ==
            if |run[i].accepted| == |run[i].popped| + SLOTS then run[i].accepted
            else run[i].accepted + [actions[i].event]
  {
    PushUnderWay(run, actions, i, j);
    RunInv(run, actions, i);
    RunInv(run, actions, j);
    WrapMinus(|run[i].accepted|, |run[i].popped|);
  }

  lemma PoppingPart(run: seq<State>, actions: seq<Action>, i: nat, j: nat)
    requires Popping(run, actions, i, j + 1) && i < j
    ensures Popping(run, actions, i, j)
  {
  }

  lemma {:induction false} PopUnderWay(run: seq<State>, actions: seq<Action>, i: nat, j: nat)
    requires Popping(run, actions, i, j)
    ensures run[j].popped == run[i].popped && run[i].accepted <= run[j].accepted
    ensures match run[j].consumer
            case CIdle => false
            case CLoaded(h) => h == run[i].head
            case CCopying(_) => |run[i].popped| < |run[i].accepted|
    decreases j
  {
    if j > i + 1 {
      PoppingPart(run, actions, i, j - 1);
      PopUnderWay(run, actions, i, j - 1);
      RunInv(run, actions, i);
      RunInv(run, actions, j - 1);
      WrapMinus(|run[i].accepted|, |run[i].popped|);
    }
  }

  /** A pop comes back empty exactly when no event was in the ring at its load; and
      otherwise, when it returns, it has taken the oldest. */
  lemma PopExact(run: seq<State>, actions: seq<Action>, i: nat, j: nat)
    requires Popping(run, actions, i, j) && j < |actions| && run[j + 1].consumer.CIdle?
    ensures |run[i].popped| <= |run[i].accepted|
    ensures run[j + 1].popped ==
            if |run[i].popped| == |run[i].accepted| then run[i].popped
            else run[i].popped + [run[i].accepted[|run[i].popped|]]
  {
    PopUnderWay(run, actions, i, j);
    RunInv(run, actions, i);
    RunInv(run, actions, j);
    RunInv(run, actions, j + 1);
    WrapMinus(|run[i].accepted|, |run[i].popped|);
  }

  /** How many steps of its own a side still needs at most. */
  function PushLeft(s: State): int {
    match s.producer
    case PIdle => 0
    case PLoaded(_, _) => s.words + 2
    case PCopying(_, k) => s.words + 1 - k
  }

  function PopLeft(s: State): int {
    match s.consumer
    case CIdle => 0
    case CLoaded(_) => s.words + 2
    case CCopying(out) => s.words + 1 - |out|
  }

  /** Every step of a call brings it nearer to its end, and no step of the other side
      delays it: a push or pop returns after at most `words + 3` steps of its own. */
  lemma CallsEnd(s: State, a: Action)
    requires Inv(s) && Enabled(s, a)
    ensures 0 <= PushLeft(s) && (PushLeft(s) == 0 <==> s.producer.PIdle?)
    ensures 0 <= PopLeft(s) && (PopLeft(s) == 0 <==> s.consumer.CIdle?)
    ensures if !OfProducer(a) then Do(s, a).producer == s.producer && PushLeft(Do(s, a)) == PushLeft(s)
            else if a.PushLoad? then PushLeft(Do(s, a)) == s.words + 2
            else PushLeft(Do(s, a)) < PushLeft(s)
    ensures if OfProducer(a) then Do(s, a).consumer == s.consumer && PopLeft(Do(s, a)) == PopLeft(s)
            else if a.PopLoad? then PopLeft(Do(s, a)) == s.words + 2
            else PopLeft(Do(s, a)) < PopLeft(s)
  {
  }

  /** No run is ever stuck: each side always has a step to take. */
  lemma AlwaysEnabled(s: State)
    requires Inv(s)
    ensures exists a :: Enabled(s, a) && OfProducer(a)
    ensures exists a :: Enabled(s, a) && !OfProducer(a)
  {
    var a := match s.producer
      case PIdle => PushLoad(seq(s.words, _ => 0))
      case PLoaded(_, _) => PushCheck
      case PCopying(_, k) => if k < s.words then PushWord else PushPublish;
    var b := match s.consumer
      case CIdle => PopLoad
      case CLoaded(_) => PopCheck
      case CCopying(out) => if |out| < s.words then PopWord else PopPublish;
    assert Enabled(s, a) && Enabled(s, b);
  }
}
