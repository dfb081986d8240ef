/** Signal state of a process in kernel/signal.c: sending, masking, actions and
delivery.

Signal sets are sets of signal numbers. Effects outside of this module, such as
the end of the process or a rescheduling, are events in the order in which they
happen. */
module Signals {
  import opened Sets
  import opened Wrappers
  import opened SignalFrame

  const NSIG: nat := 32
  const SIGKILL: nat := 9
  const SIGCHLD: nat := 17
  const SIGCONT: nat := 18
  const SIGSTOP: nat := 19
  const SIGWINCH: nat := 28
  const SIG_DFL: nat := 0
  const SIG_IGN: nat := 1

  /** `mask` is carried along; delivery does not look at it. */
  datatype Action = Action(handler: nat, mask: set<nat>, noDefer: bool, resetHand: bool)

  datatype How = Block | Unblock | SetMask | OtherHow

  datatype Event = Killed | Stopped | Continued | Default(sig: nat) | Handled(sig: nat)

  predicate SigValid(sig: int) {
    1 <= sig < NSIG
  }

  /** Delivering `sig` ends a delivery pass, given its handler. */
  predicate Ends(actions: seq<Action>, sig: nat)
    requires 1 <= sig <= |actions|
  {
    actions[sig - 1].handler != SIG_IGN && sig != SIGSTOP && sig != SIGCONT
  }

  /** The first signal of `d` that ends the pass, or none. */
  ghost predicate FirstEnd(actions: seq<Action>, d: set<nat>, r: Option<nat>)
    requires |actions| == NSIG
  {
    match r
    case None => forall s: nat | SigValid(s) && s in d :: !Ends(actions, s)
    case Some(e) =>
      SigValid(e) && e in d && Ends(actions, e) && forall s: nat | 1 <= s < e && s in d :: !Ends(actions, s)
  }

  /** What a pass takes from the pending signals. */
  function Reached(d: set<nat>, r: Option<nat>): set<nat> {
    set s | s in d && SigValid(s) && (r.None? || s <= r.value)
  }

  /** The pending signals that come before SIGKILL. */
  function BeforeKill(pending: set<nat>): set<nat> {
    set s | s in pending && 1 <= s < SIGKILL
  }

  lemma BeforeKillFew(pending: set<nat>)
    ensures |BeforeKill(pending)| <= 8
  {
    var all := {1, 2, 3, 4, 5, 6, 7, 8};
    assert BeforeKill(pending) <= all;
    SubsetSize(BeforeKill(pending), all);
    assert |all| == 8;
  }

  /** What is blocked while the handler of `sig` runs. */
  function InHandler(blocked: set<nat>, sig: nat, a: Action): set<nat> {
    if a.noDefer then blocked else blocked + {sig}
  }

  function Maskable(a: Action): set<nat> {
    a.mask - {SIGKILL, SIGSTOP}
  }

  /** What sigaction documents: the mask of the action is blocked. */
  predicate MaskHeld(blocked: set<nat>, a: Action) {
    Maskable(a) <= blocked
  }

  /** A pass with SIGKILL pending delivers it, or a signal that comes before it. */
  lemma KillNext(actions: seq<Action>, pending: set<nat>, blocked: set<nat>, r: Option<nat>)
    requires |actions| == NSIG && actions[SIGKILL - 1].handler == SIG_DFL
    requires SIGKILL in pending && SIGKILL !in blocked && FirstEnd(actions, pending - blocked, r)
    ensures r.Some? && r.value <= SIGKILL
    ensures r.value < SIGKILL ==>
              && SIGKILL in pending - Reached(pending - blocked, r)
              && |BeforeKill(pending - Reached(pending - blocked, r))| < |BeforeKill(pending)|
  {
    assert Ends(actions, SIGKILL);
    assert r.Some?;
    var left := pending - Reached(pending - blocked, r);
    if r.value < SIGKILL {
      assert r.value in BeforeKill(pending) && r.value !in BeforeKill(left);
      SubsetSize(BeforeKill(left), BeforeKill(pending));
    }
  }

  /** What can happen to a process that gets no new signal. */
  datatype Step =
    | Pass(ring3: bool)
    | Act(sig: int, act: Option<Action>)
    | Mask(how: How, mask: Option<set<nat>>)
    | Return
    | Compute(regs: Regs, mem: Memory)

  function Passes(steps: seq<Step>): nat {
    if steps == [] then 0 else Passes(steps[..|steps| - 1]) + if steps[|steps| - 1].Pass? then 1 else 0
  }

  class Process {
    const actions: array<Action>
    var pending: set<nat>
    var blocked: set<nat>
    var regs: Regs
    var mem: Memory

    /** SIGKILL and SIGSTOP are not blocked and have their default action. */
    ghost predicate Valid()
      reads this, actions
    {
      && actions.Length == NSIG
      && SIGKILL !in blocked && SIGSTOP !in blocked
      && actions[SIGKILL - 1].handler == SIG_DFL && actions[SIGSTOP - 1].handler == SIG_DFL
      && forall s | s in pending :: SigValid(s)
    }

    /** signal_init_process. */
    constructor (r: Regs, m: Memory)
      ensures Valid() && fresh(actions) && pending == {} && blocked == {} && regs == r && mem == m
      ensures forall s: nat | SigValid(s) ::
                actions[s - 1].handler == if s == SIGCHLD || s == SIGCONT || s == SIGWINCH then SIG_IGN else SIG_DFL
    {
      actions := new Action[NSIG](_ => Action(SIG_DFL, {}, false, false));
      pending, blocked, regs, mem := {}, {}, r, m;
      new;
      actions[SIGCHLD - 1] := Action(SIG_IGN, {}, false, false);
      actions[SIGCONT - 1] := Action(SIG_IGN, {}, false, false);
      actions[SIGWINCH - 1] := Action(SIG_IGN, {}, false, false);
    }

    /** signal_send_proc: pending in any case; a blocked signal does not wake, and
        SIGKILL and SIGSTOP always do. */
    method Send(sig: int) returns (ok: bool, wake: bool)
      requires Valid()
      modifies this`pending
      ensures Valid() && (ok <==> 1 <= sig <= 31)
      ensures pending == if ok then old(pending) + {sig} else old(pending)
      ensures wake <==> ok && sig !in blocked
    {
      if !SigValid(sig) {
        return false, false;
      }
      if sig != SIGKILL && sig != SIGSTOP {
        if sig in blocked {
          pending := pending + {sig};
          return true, false;
        }
      }
      pending := pending + {sig};
      return true, true;
    }

    /** signal_setup_frame. */
    method SetupFrame(handler: nat, sig: nat)
      modifies this`regs, this`mem
      ensures regs == SetupRegs(old(regs), handler, sig) && mem == SetupMemory(old(mem), old(regs), sig)
      ensures regs == old(regs).(rsp := regs.rsp, rip := handler, rdi := sig, rsi := 0, rdx := 0)
      ensures Fits(old(regs)) && sig < ADDRESSES ==> Entered(mem, regs, sig)
    {
      hide Saved, Store, StoreWords, Encode, Entered, Fits;
      if Fits(regs) && sig < ADDRESSES {
        SetupEnters(mem, regs, handler, sig);
      }
      var usp := Wrap(regs.rsp - |TRAMPOLINE|);
      mem := Store(mem, usp, TRAMPOLINE);
      var tramp := usp;
      usp := Wrap(usp - usp % 16 - FRAME_SIZE);
      mem := StoreWords(mem, usp, Saved(regs, sig));
      usp := Wrap(usp - WORD);
      mem := Store(mem, usp, Encode(tramp, WORD));
      regs := regs.(rsp := usp, rip := handler, rdi := sig, rsi := 0, rdx := 0);
    }

    /** signal_do_sigreturn: with an intact frame at the stack pointer, the registers
        that were interrupted. */
    method Sigreturn()
      modifies this`regs
      ensures regs == Restored(mem, old(regs))
      ensures forall m: Memory, r: Regs, sig: nat {:trigger FrameIntact(m, r, sig, mem, old(regs))} ::
                FrameIntact(m, r, sig, mem, old(regs)) ==> regs == r.(cs := old(regs).cs)
    {
      hide Restored, FrameIntact;
      regs := Restored(mem, regs);
      forall m: Memory, r: Regs, sig: nat | FrameIntact(m, r, sig, mem, old(regs))
        ensures regs == r.(cs := old(regs).cs)
      {
        FrameRestores(m, r, sig, mem, old(regs));
      }
    }

    /** One pass of signal_deliver_pending. The pass takes the deliverable signals
        from the lowest number on, up to the first that ends it. */
    method Deliver(ring3: bool) returns (events: seq<Event>, ghost r: Option<nat>)
      requires Valid()
      modifies this, actions
      ensures Valid()
      ensures FirstEnd(old(actions[..]), old(pending - blocked), r)
      ensures pending == old(pending) - Reached(old(pending - blocked), r)
      ensures forall s: nat :: s in pending <==>
                s in old(pending) && (s in old(blocked) || (r.Some? && s > r.value))
      ensures r == Some(SIGKILL) <==> Killed in events
      ensures Stopped in events <==> SIGSTOP in Reached(old(pending - blocked), r)
      ensures Continued in events <==>
              SIGCONT in Reached(old(pending - blocked), r) && old(actions[..])[SIGCONT - 1].handler != SIG_IGN
      ensures r.None? ==>
                blocked == old(blocked) && actions[..] == old(actions[..]) && regs == old(regs) && mem == old(mem)
      ensures r.Some? && r.value != SIGKILL ==>
                && var a := old(actions[..])[r.value - 1];
                && |events| > 0
                && (if ring3 && a.handler != SIG_DFL then
                      && events[|events| - 1] == Handled(r.value)
                      && blocked == InHandler(old(blocked), r.value, a)
                      && (MaskHeld(blocked, a) <==>
                          Maskable(a) <= old(blocked) + (if a.noDefer then {} else {r.value}))
                      && actions[..] == old(actions[..])[r.value - 1 :=
                                          a.(handler := if a.resetHand then SIG_DFL else a.handler)]
                      && regs == SetupRegs(old(regs), a.handler, r.value)
                      && mem == SetupMemory(old(mem), old(regs), r.value)
                      && regs == old(regs).(rsp := regs.rsp, rip := a.handler, rdi := r.value, rsi := 0, rdx := 0)
                      && (Fits(old(regs)) ==> Entered(mem, regs, r.value))
                    else
                      && events[|events| - 1] == Default(r.value)
                      && blocked == old(blocked) && actions[..] == old(actions[..])
                      && regs == old(regs) && mem == old(mem))
    {
      hide SetupMemory, SetupRegs, Entered, Fits;
      events := [];
      r := None;
      var deliverable := pending - blocked;
      if deliverable == {} {
        assert Reached(deliverable, r) == {};
        return;
      }
      ghost var d := deliverable;
      for sig := 1 to NSIG
        invariant actions[..] == old(actions[..]) && blocked == old(blocked) && regs == old(regs) && mem == old(mem)
        invariant pending == old(pending) - (set s | s in d && 1 <= s < sig)
        invariant forall s: nat | 1 <= s < sig && s in d :: !Ends(old(actions[..]), s)
        invariant Killed !in events
        invariant Stopped in events <==> SIGSTOP < sig && SIGSTOP in d
        invariant Continued in events <==>
                    SIGCONT < sig && SIGCONT in d && old(actions[..])[SIGCONT - 1].handler != SIG_IGN
      {
        if sig !in deliverable {
          continue;
        }
        pending := pending - {sig};
        var a := actions[sig - 1];
        assert a == old(actions[..])[sig - 1];
        if a.handler == SIG_IGN {
          continue;
        }
        if sig == SIGKILL {
          events := events + [Killed];
          r := Some(sig);
          return;
        }
        if sig == SIGSTOP {
          events := events + [Stopped];
          continue;
        }
        if sig == SIGCONT {
          events := events + [Continued];
          continue;
        }
        r := Some(sig);
        if a.handler == SIG_DFL {
          events := events + [Default(sig)];
          return;
        }
        if ring3 {
          events := events + [Handled(sig)];
          RunHandler(sig, a);
          return;
        }
        events := events + [Default(sig)];
        return;
      }
    }

    /** The process is sent into its own handler. */
    method RunHandler(sig: nat, a: Action)
      requires Valid() && SigValid(sig) && sig != SIGKILL && sig != SIGSTOP && a == actions[sig - 1]
      modifies this`blocked, this`regs, this`mem, actions
      ensures Valid()
      ensures blocked == InHandler(old(blocked), sig, a)
      ensures MaskHeld(blocked, a) <==> Maskable(a) <= old(blocked) + (if a.noDefer then {} else {sig})
      ensures actions[..] == old(actions[..])[sig - 1 := a.(handler := if a.resetHand then SIG_DFL else a.handler)]
      ensures regs == SetupRegs(old(regs), a.handler, sig) && mem == SetupMemory(old(mem), old(regs), sig)
      ensures regs == old(regs).(rsp := regs.rsp, rip := a.handler, rdi := sig, rsi := 0, rdx := 0)
      ensures Fits(old(regs)) ==> Entered(mem, regs, sig)
    {
      hide SetupMemory, SetupRegs, Entered, Fits;
      if !a.noDefer {
        blocked := blocked + {sig};
      }
      if a.resetHand {
        actions[sig - 1] := a.(handler := SIG_DFL);
      }
      SetupFrame(a.handler, sig);
    }

    /** signal_do_sigaction. */
    method Sigaction(sig: int, act: Option<Action>) returns (ok: bool, before: Option<Action>)
      requires Valid()
      modifies actions
      ensures Valid() && (ok <==> 1 <= sig <= 31 && sig != SIGKILL && sig != SIGSTOP)
      ensures before == if ok then Some(old(actions[..])[sig - 1]) else None
      ensures actions[..] == if ok && act.Some? then old(actions[..])[sig - 1 := act.value] else old(actions[..])
    {
      if !SigValid(sig) || sig == SIGKILL || sig == SIGSTOP {
        return false, None;
      }
      before := Some(actions[sig - 1]);
      if act.Some? {
        actions[sig - 1] := act.value;
      }
      return true, before;
    }

    /** signal_do_sigprocmask. */
    method Sigprocmask(how: How, mask: Option<set<nat>>) returns (ok: bool, before: set<nat>)
      requires Valid()
      modifies this`blocked
      ensures Valid() && before == old(blocked) && ok == (mask.None? || how != OtherHow)
      ensures !ok || mask.None? ==> blocked == old(blocked)
      ensures ok && mask.Some? ==>
                && var m := mask.value - {SIGKILL, SIGSTOP};
                blocked == match how
                           case Block => old(blocked) + m
                           case Unblock => old(blocked) - m
                           case SetMask => m
                           case OtherHow => old(blocked)
    {
      before := blocked;
      if mask.None? {
        return true, before;
      }
      var m := mask.value;
      m := m - {SIGKILL};
      m := m - {SIGSTOP};
      match how {
        case Block => blocked := blocked + m;
        case Unblock => blocked := blocked - m;
        case SetMask => blocked := m;
        case OtherHow => return false, before;
      }
      return true, before;
    }

    /** A run of the process in which nobody sends it a signal: delivery passes,
        and whatever the process does in between to its actions, its mask, its
        registers and its memory. */
    method Run(steps: seq<Step>) returns (killed: bool, passes: nat)
      requires Valid() && SIGKILL in pending
      modifies this, actions
      ensures Valid() && passes <= |BeforeKill(old(pending))| <= 8
      ensures killed <==> SIGKILL !in pending
      ensures !killed ==> passes == Passes(steps)
    {
      hide FirstEnd, Reached, BeforeKill, SetupMemory, SetupRegs, Restored;
      BeforeKillFew(pending);
      passes, killed := 0, false;
      for i := 0 to |steps|
        invariant Valid() && SIGKILL in pending && passes == Passes(steps[..i])
        invariant passes + |BeforeKill(pending)| <= |BeforeKill(old(pending))|
      {
        assert steps[..i + 1][..i] == steps[..i];
        match steps[i] {
          case Pass(ring3) =>
            ghost var a, p, b := actions[..], pending, blocked;
            var events, r := Deliver(ring3);
            KillNext(a, p, b, r);
            if Killed in events {
              return true, passes;
            }
            passes := passes + 1;
          case Act(sig, act) =>
            var _, _ := Sigaction(sig, act);
          case Mask(how, mask) =>
            var _, _ := Sigprocmask(how, mask);
          case Return =>
            Sigreturn();
          case Compute(r, m) =>
            regs, mem := r, m;
        }
      }
      assert steps[..|steps|] == steps;
    }
  }

  /** An action whose mask is not blocked while its handler runs. */
  method MaskIgnored(r: Regs, m: Memory) returns (p: Process)
    ensures fresh(p) && p.Valid() && 2 in p.blocked
    ensures p.actions[1].mask == {3} && !MaskHeld(p.blocked, p.actions[1])
  {
    hide SetupMemory, SetupRegs, MaskHeld;
    p := new Process(r, m);
    var a := Action(0x1000, {3}, false, false);
    var _, _ := p.Sigaction(2, Some(a));
    var _, _ := p.Send(2);
    ghost var acts, d := p.actions[..], p.pending - p.blocked;
    assert d == {2} && acts[1] == a;
    var events, e := p.Deliver(true);
    OnlyOne(acts, d, e, 2);
    assert p.actions[..][1] == a && p.blocked == {2};
    assert 3 in Maskable(a) && 3 !in p.blocked;
  }

  lemma OnlyOne(actions: seq<Action>, d: set<nat>, r: Option<nat>, sig: nat)
    requires |actions| == NSIG && FirstEnd(actions, d, r) && d == {sig} && SigValid(sig) && Ends(actions, sig)
    ensures r == Some(sig)
  {
  }
}
