/** The signal frame of kernel/signal.c on the user stack.

Addresses are 64 bits wide and wrap around. Setting up a frame stores, from the
interrupted stack pointer downwards, the trampoline code, the saved registers
and the return address of the handler. */
module SignalFrame {
  import Arith

  const ADDRESSES: nat := 0x1_0000_0000_0000_0000
  const TRAMPOLINE: seq<nat> := [0xB8, 52, 0, 0, 0, 0xCD, 0x80]
  const FRAME_SIZE: nat := 152
  const WORD: nat := 8

  /** Memory that was never written reads as zero. */
  type Memory = map<nat, nat>

  /** The user registers of an interrupt frame. */
  datatype Regs = Regs(
    r15: nat, r14: nat, r13: nat, r12: nat, r11: nat, r10: nat, r9: nat, r8: nat,
    rbp: nat, rdi: nat, rsi: nat, rdx: nat, rcx: nat, rbx: nat, rax: nat,
    rflags: nat, rip: nat, rsp: nat, cs: nat)

  function Wrap(a: int): nat {
    a % ADDRESSES
  }

  function Peek(m: Memory, a: nat): nat {
    if a in m then m[a] else 0
  }

  /** `bytes` stored from address `a` on. */
  function Store(m: Memory, a: nat, bytes: seq<nat>): Memory
    decreases |bytes|
  {
    if bytes == [] then m else Store(m[a := bytes[0]], Wrap(a + 1), bytes[1..])
  }

  function Load(m: Memory, a: nat, n: nat): (s: seq<nat>)
    ensures |s| == n
    decreases n
  {
    if n == 0 then [] else [Peek(m, a)] + Load(m, Wrap(a + 1), n - 1)
  }

  /** Whether `x` is one of the `n` addresses from `a` on. */
  predicate Within(x: nat, a: nat, n: nat) {
    Wrap(x - a) < n
  }

  predicate Disjoint(a: nat, n: nat, b: nat, k: nat) {
    forall x: nat | x < ADDRESSES :: !(Within(x, a, n) && Within(x, b, k))
  }

  /** The two memories agree on `n` bytes from `a` on. */
  ghost predicate SameAt(m: Memory, m': Memory, a: nat, n: nat) {
    forall x: nat {:trigger Within(x, a, n)} | x < ADDRESSES && Within(x, a, n) :: Peek(m', x) == Peek(m, x)
  }

  function Encode(v: nat, k: nat): (s: seq<nat>)
    ensures |s| == k
    decreases k
  {
    if k == 0 then [] else [v % 256] + Encode(v / 256, k - 1)
  }

  function Decode(s: seq<nat>): nat {
    if s == [] then 0 else s[0] + 256 * Decode(s[1..])
  }

  function Power256(k: nat): (p: nat)
    ensures p > 0
  {
    if k == 0 then 1 else 256 * Power256(k - 1)
  }

  /** Numbers are stored least significant byte first. */
  lemma {:induction false} EncodeAt(v: nat, k: nat, i: nat)
    requires i < k
    ensures Encode(v, k)[i] == v / Power256(i) % 256
    decreases k
  {
    if i > 0 {
      EncodeAt(v / 256, k - 1, i - 1);
      DivTwice(v, 256, Power256(i - 1));
    }
  }

  lemma DivTwice(v: nat, a: nat, b: nat)
    requires a > 0 && b > 0
    ensures a * b > 0 && v / a / b == v / (a * b)
  {
    var q, r := v / a, v % a;
    var s, t := q / b, q % b;
    Arith.QuotientNat(v, a);
    Arith.QuotientNat(q, b);
    assert q == s * b + t && v == q * a + r;
    DivTwiceIs(v, a, b, r, s, t);
    Arith.DivUnique(v, a * b, s, t * a + r);
  }

  lemma DivTwiceIs(v: nat, a: nat, b: nat, r: nat, s: nat, t: nat)
    requires v == (s * b + t) * a + r && r < a && t < b
    ensures v == s * (a * b) + (t * a + r) && 0 <= t * a + r < a * b
  {
    Arith.MulSign(b - t, a);
    assert (b - t) * a == b * a - t * a;
    assert (s * b + t) * a == s * (a * b) + t * a;
  }

  lemma {:induction false} DecodeEncode(v: nat, k: nat)
    requires v < Power256(k)
    ensures Decode(Encode(v, k)) == v
    decreases k
  {
    if k > 0 {
      DecodeEncode(v / 256, k - 1);
      assert Encode(v, k)[1..] == Encode(v / 256, k - 1);
    }
  }

  lemma WordRoundTrip(v: nat)
    requires v < ADDRESSES
    ensures Decode(Encode(v, WORD)) == v
  {
    assert Power256(4) == 0x1_0000_0000 by {
      assert Power256(2) == 0x1_0000;
    }
    assert Power256(8) == ADDRESSES by {
      assert Power256(6) == 0x1_0000 * Power256(4);
    }
    DecodeEncode(v, WORD);
  }

  lemma WrapStep(x: nat, a: nat, n: nat)
    requires x < ADDRESSES && a < ADDRESSES && 0 < n <= ADDRESSES
    ensures Within(x, a, n) <==> x == a || (Within(x, Wrap(a + 1), n - 1) && x != a)
    ensures n < ADDRESSES ==> !Within(a, Wrap(a + 1), n - 1)
  {
  }

  /** A store changes only the bytes that it covers. */
  lemma {:induction false} StoreFrame(m: Memory, a: nat, bytes: seq<nat>, x: nat)
    requires a < ADDRESSES && x < ADDRESSES && |bytes| < ADDRESSES && !Within(x, a, |bytes|)
    ensures Peek(Store(m, a, bytes), x) == Peek(m, x)
    decreases |bytes|
  {
    if bytes != [] {
      WrapStep(x, a, |bytes|);
      StoreFrame(m[a := bytes[0]], Wrap(a + 1), bytes[1..], x);
    }
  }

  /** What was stored is loaded. */
  lemma {:induction false} LoadStore(m: Memory, a: nat, bytes: seq<nat>)
    requires a < ADDRESSES && |bytes| < ADDRESSES
    ensures Load(Store(m, a, bytes), a, |bytes|) == bytes
    decreases |bytes|
  {
    if bytes != [] {
      WrapStep(a, a, |bytes|);
      StoreFrame(m[a := bytes[0]], Wrap(a + 1), bytes[1..], a);
      LoadStore(m[a := bytes[0]], Wrap(a + 1), bytes[1..]);
    }
  }

  /** A load depends only on the bytes that it covers. */
  lemma {:induction false} LoadSame(m: Memory, m': Memory, a: nat, n: nat)
    requires a < ADDRESSES && n < ADDRESSES && SameAt(m, m', a, n)
    ensures Load(m', a, n) == Load(m, a, n)
    decreases n
  {
    if n > 0 {
      WrapStep(a, a, n);
      forall x: nat | x < ADDRESSES && Within(x, Wrap(a + 1), n - 1)
        ensures Peek(m', x) == Peek(m, x)
      {
        WrapStep(x, a, n);
      }
      LoadSame(m, m', Wrap(a + 1), n - 1);
    }
  }

  // ---------------------------------------------------------------------
  // Words
  // ---------------------------------------------------------------------

  /** Words stored one after another from `a` on. */
  function StoreWords(m: Memory, a: nat, ws: seq<nat>): Memory
    decreases |ws|
  {
    if ws == [] then m else StoreWords(Store(m, a, Encode(ws[0], WORD)), Wrap(a + WORD), ws[1..])
  }

  /** The `i`-th word from `a` on. */
  function LoadWord(m: Memory, a: nat, i: nat): nat {
    Decode(Load(m, Wrap(a + WORD * i), WORD))
  }

  lemma WrapSplit(x: nat, a: nat, k: nat, n: nat)
    requires x < ADDRESSES && a < ADDRESSES && k + n < ADDRESSES
    ensures Within(x, a, k + n) <==> Within(x, a, k) || Within(x, Wrap(a + k), n)
    ensures !(Within(x, a, k) && Within(x, Wrap(a + k), n))
  {
  }

  lemma {:induction false} StoreWordsFrame(m: Memory, a: nat, ws: seq<nat>, x: nat)
    requires a < ADDRESSES && x < ADDRESSES && |ws| <= 64 && !Within(x, a, WORD * |ws|)
    ensures Peek(StoreWords(m, a, ws), x) == Peek(m, x)
    decreases |ws|
  {
    hide Within;
    if ws != [] {
      WrapSplit(x, a, WORD, WORD * (|ws| - 1));
      StoreFrame(m, a, Encode(ws[0], WORD), x);
      StoreWordsFrame(Store(m, a, Encode(ws[0], WORD)), Wrap(a + WORD), ws[1..], x);
    }
  }

  lemma {:induction false} LoadStoreWords(m: Memory, a: nat, ws: seq<nat>, i: nat)
    requires a < ADDRESSES && i < |ws| <= 64 && ws[i] < ADDRESSES
    ensures LoadWord(StoreWords(m, a, ws), a, i) == ws[i]
    decreases |ws|
  {
    hide Within, Decode, Encode, Load, Store, Peek;
    var m' := Store(m, a, Encode(ws[0], WORD));
    var a' := Wrap(a + WORD);
    if i == 0 {
      forall x: nat | x < ADDRESSES && Within(x, a, WORD)
        ensures Peek(StoreWords(m', a', ws[1..]), x) == Peek(m', x)
      {
        WrapSplit(x, a, WORD, WORD * (|ws| - 1));
        StoreWordsFrame(m', a', ws[1..], x);
      }
      LoadSame(m', StoreWords(m', a', ws[1..]), a, WORD);
      LoadStore(m, a, Encode(ws[0], WORD));
      WordRoundTrip(ws[0]);
    } else {
      assert Wrap(a' + WORD * (i - 1)) == Wrap(a + WORD * i);
      LoadStoreWords(m', a', ws[1..], i - 1);
    }
  }

  // ---------------------------------------------------------------------
  // The frame
  // ---------------------------------------------------------------------

  /** What the frame holds, in order. */
  function Saved(r: Regs, sig: nat): (ws: seq<nat>)
    ensures WORD * |ws| == FRAME_SIZE
  {
    [r.r15, r.r14, r.r13, r.r12, r.r11, r.r10, r.r9, r.r8, r.rbp, r.rdi, r.rsi, r.rdx, r.rcx, r.rbx, r.rax,
     r.rflags, r.rip, r.rsp, sig]
  }

  predicate Fits(r: Regs) {
    forall i | 0 <= i < |Saved(r, 0)| :: Saved(r, 0)[i] < ADDRESSES
  }

  function TrampolineAt(rsp: nat): nat {
    Wrap(rsp - |TRAMPOLINE|)
  }

  function FrameAt(rsp: nat): nat {
    Wrap(TrampolineAt(rsp) - TrampolineAt(rsp) % 16 - FRAME_SIZE)
  }

  function ReturnAt(rsp: nat): nat {
    Wrap(FrameAt(rsp) - WORD)
  }

  /** Where an address lies, counted from the lowest byte that is stored. */
  lemma Layout(rsp: nat, x: nat)
    requires rsp < ADDRESSES && x < ADDRESSES
    ensures var o, gap := Wrap(x - ReturnAt(rsp)), TrampolineAt(rsp) % 16;
            && (Within(x, ReturnAt(rsp), WORD) <==> o < WORD)
            && (Within(x, FrameAt(rsp), FRAME_SIZE) <==> WORD <= o < WORD + FRAME_SIZE)
            && (Within(x, TrampolineAt(rsp), |TRAMPOLINE|) <==>
                WORD + FRAME_SIZE + gap <= o < WORD + FRAME_SIZE + gap + |TRAMPOLINE|)
            && Wrap(rsp - ReturnAt(rsp)) == WORD + FRAME_SIZE + gap + |TRAMPOLINE|
  {
    hide Within, Wrap;
    var gap, ret := TrampolineAt(rsp) % 16, ReturnAt(rsp);
    Positions(rsp);
    WithinShift(x, ret, 0, WORD);
    WithinShift(x, ret, WORD, FRAME_SIZE);
    WithinShift(x, ret, WORD + FRAME_SIZE + gap, |TRAMPOLINE|);
    OffsetBack(ret, WORD + FRAME_SIZE + gap + |TRAMPOLINE|);
  }

  lemma WithinShift(x: nat, base: nat, d: nat, n: nat)
    requires x < ADDRESSES && base < ADDRESSES && d + n <= ADDRESSES
    ensures Within(x, Wrap(base + d), n) <==> d <= Wrap(x - base) < d + n
    ensures d == 0 ==> Wrap(base + d) == base
  {
  }

  lemma OffsetBack(base: nat, d: nat)
    requires base < ADDRESSES && d < ADDRESSES
    ensures Wrap(Wrap(base + d) - base) == d
  {
  }

  lemma WrapBack(a: int, d: nat, e: nat)
    requires 0 <= a < ADDRESSES
    ensures Wrap(Wrap(a - d) + d + e) == Wrap(a + e)
  {
  }

  /** The parts and the interrupted stack pointer, counted up from the lowest. */
  lemma Positions(rsp: nat)
    requires rsp < ADDRESSES
    ensures var gap, ret := TrampolineAt(rsp) % 16, ReturnAt(rsp);
            && ret < ADDRESSES && FrameAt(rsp) == Wrap(ret + WORD)
            && TrampolineAt(rsp) == Wrap(ret + (WORD + FRAME_SIZE + gap))
            && rsp == Wrap(ret + (WORD + FRAME_SIZE + gap + |TRAMPOLINE|))
  {
    hide Wrap;
    var gap, ret, f, t := TrampolineAt(rsp) % 16, ReturnAt(rsp), FrameAt(rsp), TrampolineAt(rsp);
    Ranges(rsp);
    WrapRanges(f, t, rsp);
    WrapBack(f, WORD, 0);
    WrapBack(f, WORD, FRAME_SIZE + gap);
    WrapBack(f, WORD, FRAME_SIZE + gap + |TRAMPOLINE|);
    WrapBack(t - gap, FRAME_SIZE, gap);
    WrapBack(t - gap, FRAME_SIZE, gap + |TRAMPOLINE|);
    WrapBack(rsp, |TRAMPOLINE|, 0);
  }

  lemma Ranges(rsp: nat)
    ensures TrampolineAt(rsp) < ADDRESSES && FrameAt(rsp) < ADDRESSES && ReturnAt(rsp) < ADDRESSES
  {
  }

  lemma WrapRanges(a: nat, b: nat, c: nat)
    ensures a < ADDRESSES ==> Wrap(a) == a
    ensures b < ADDRESSES ==> Wrap(b) == b
    ensures c < ADDRESSES ==> Wrap(c) == c
  {
  }

  /** The three parts never overlap, whatever the stack pointer is. */
  lemma PartsDisjoint(rsp: nat)
    requires rsp < ADDRESSES
    ensures Disjoint(TrampolineAt(rsp), |TRAMPOLINE|, FrameAt(rsp), FRAME_SIZE)
    ensures Disjoint(TrampolineAt(rsp), |TRAMPOLINE|, ReturnAt(rsp), WORD)
    ensures Disjoint(FrameAt(rsp), FRAME_SIZE, ReturnAt(rsp), WORD)
  {
    hide Within;
    forall x: nat | x < ADDRESSES
      ensures !(Within(x, TrampolineAt(rsp), |TRAMPOLINE|) && Within(x, FrameAt(rsp), FRAME_SIZE))
      ensures !(Within(x, TrampolineAt(rsp), |TRAMPOLINE|) && Within(x, ReturnAt(rsp), WORD))
      ensures !(Within(x, FrameAt(rsp), FRAME_SIZE) && Within(x, ReturnAt(rsp), WORD))
    {
      Layout(rsp, x);
    }
  }

  /** The memory after signal_setup_frame. */
  function SetupMemory(m: Memory, r: Regs, sig: nat): Memory {
    var m1 := Store(m, TrampolineAt(r.rsp), TRAMPOLINE);
    var m2 := StoreWords(m1, FrameAt(r.rsp), Saved(r, sig));
    Store(m2, ReturnAt(r.rsp), Encode(TrampolineAt(r.rsp), WORD))
  }

  function SetupRegs(r: Regs, handler: nat, sig: nat): Regs {
    r.(rsp := ReturnAt(r.rsp), rip := handler, rdi := sig, rsi := 0, rdx := 0)
  }

  /** The registers after signal_do_sigreturn. */
  function Restored(m: Memory, r: Regs): Regs {
    Regs(
      LoadWord(m, r.rsp, 0), LoadWord(m, r.rsp, 1), LoadWord(m, r.rsp, 2), LoadWord(m, r.rsp, 3),
      LoadWord(m, r.rsp, 4), LoadWord(m, r.rsp, 5), LoadWord(m, r.rsp, 6), LoadWord(m, r.rsp, 7),
      LoadWord(m, r.rsp, 8), LoadWord(m, r.rsp, 9), LoadWord(m, r.rsp, 10), LoadWord(m, r.rsp, 11),
      LoadWord(m, r.rsp, 12), LoadWord(m, r.rsp, 13), LoadWord(m, r.rsp, 14),
      LoadWord(m, r.rsp, 15), LoadWord(m, r.rsp, 16), LoadWord(m, r.rsp, 17), r.cs)
  }

  lemma SetupWindow(rsp: nat, x: nat)
    requires rsp < ADDRESSES && x < ADDRESSES && !Within(x, ReturnAt(rsp), Wrap(rsp - ReturnAt(rsp)))
    ensures !Within(x, ReturnAt(rsp), WORD) && !Within(x, FrameAt(rsp), FRAME_SIZE)
    ensures !Within(x, TrampolineAt(rsp), |TRAMPOLINE|) && Wrap(rsp - ReturnAt(rsp)) <= 182
    ensures TrampolineAt(rsp) < ADDRESSES && FrameAt(rsp) < ADDRESSES && ReturnAt(rsp) < ADDRESSES
  {
    Layout(rsp, x);
  }

  /** Setting up a frame writes nothing at or above the interrupted stack
      pointer, and at most 182 bytes below it. */
  lemma SetupBelow(m: Memory, r: Regs, sig: nat, x: nat)
    requires r.rsp < ADDRESSES && x < ADDRESSES && !Within(x, ReturnAt(r.rsp), Wrap(r.rsp - ReturnAt(r.rsp)))
    ensures Peek(SetupMemory(m, r, sig), x) == Peek(m, x)
    ensures Wrap(r.rsp - ReturnAt(r.rsp)) <= 182
  {
    hide Within, Store, StoreWords, Peek, Wrap;
    SetupWindow(r.rsp, x);
    var m1 := Store(m, TrampolineAt(r.rsp), TRAMPOLINE);
    StoreFrame(m, TrampolineAt(r.rsp), TRAMPOLINE, x);
    StoreWordsFrame(m1, FrameAt(r.rsp), Saved(r, sig), x);
    StoreFrame(StoreWords(m1, FrameAt(r.rsp), Saved(r, sig)), ReturnAt(r.rsp), Encode(TrampolineAt(r.rsp), WORD), x);
  }

  lemma StoreElsewhere(m: Memory, a: nat, bytes: seq<nat>, b: nat, n: nat)
    requires a < ADDRESSES && |bytes| < ADDRESSES && Disjoint(b, n, a, |bytes|)
    ensures SameAt(m, Store(m, a, bytes), b, n)
  {
    forall x: nat | x < ADDRESSES && Within(x, b, n)
      ensures Peek(Store(m, a, bytes), x) == Peek(m, x)
    {
      StoreFrame(m, a, bytes, x);
    }
  }

  lemma StoreWordsElsewhere(m: Memory, a: nat, ws: seq<nat>, b: nat, n: nat)
    requires a < ADDRESSES && |ws| <= 64 && Disjoint(b, n, a, WORD * |ws|)
    ensures SameAt(m, StoreWords(m, a, ws), b, n)
  {
    forall x: nat | x < ADDRESSES && Within(x, b, n)
      ensures Peek(StoreWords(m, a, ws), x) == Peek(m, x)
    {
      StoreWordsFrame(m, a, ws, x);
    }
  }

  lemma SameTransitive(m: Memory, m': Memory, m'': Memory, a: nat, n: nat)
    requires SameAt(m, m', a, n) && SameAt(m', m'', a, n)
    ensures SameAt(m, m'', a, n)
  {
  }

  /** The trampoline that was stored is there at the end. */
  lemma TrampolineKept(m: Memory, r: Regs, sig: nat)
    requires r.rsp < ADDRESSES
    ensures Load(SetupMemory(m, r, sig), TrampolineAt(r.rsp), |TRAMPOLINE|) == TRAMPOLINE
  {
    hide Within, SameAt, Disjoint, Load, Store, StoreWords;
    var t, f := TrampolineAt(r.rsp), FrameAt(r.rsp);
    var m1 := Store(m, t, TRAMPOLINE);
    var m2 := StoreWords(m1, f, Saved(r, sig));
    PartsDisjoint(r.rsp);
    LoadStore(m, t, TRAMPOLINE);
    StoreWordsElsewhere(m1, f, Saved(r, sig), t, |TRAMPOLINE|);
    StoreElsewhere(m2, ReturnAt(r.rsp), Encode(t, WORD), t, |TRAMPOLINE|);
    SameTransitive(m1, m2, SetupMemory(m, r, sig), t, |TRAMPOLINE|);
    LoadSame(m1, SetupMemory(m, r, sig), t, |TRAMPOLINE|);
  }

  lemma ReturnKept(m: Memory, r: Regs, sig: nat)
    requires r.rsp < ADDRESSES
    ensures Load(SetupMemory(m, r, sig), ReturnAt(r.rsp), WORD) == Encode(TrampolineAt(r.rsp), WORD)
  {
    hide Within, Load, Store, StoreWords, Encode;
    var m2 := StoreWords(Store(m, TrampolineAt(r.rsp), TRAMPOLINE), FrameAt(r.rsp), Saved(r, sig));
    LoadStore(m2, ReturnAt(r.rsp), Encode(TrampolineAt(r.rsp), WORD));
  }

  /** One word of an area that both memories agree on. */
  lemma WordSame(m: Memory, m': Memory, a: nat, n: nat, i: nat)
    requires a < ADDRESSES && WORD * i + WORD <= n < ADDRESSES && SameAt(m, m', a, n)
    ensures LoadWord(m', a, i) == LoadWord(m, a, i)
  {
    var b := Wrap(a + WORD * i);
    forall x: nat | x < ADDRESSES && Within(x, b, WORD)
      ensures Peek(m', x) == Peek(m, x)
    {
      WithinShift(x, a, WORD * i, WORD);
      assert Within(x, a, n);
    }
    LoadSame(m, m', b, WORD);
  }

  lemma FrameKept(m: Memory, r: Regs, sig: nat, m': Memory, i: nat)
    requires Fits(r) && i < 18 && SameAt(SetupMemory(m, r, sig), m', FrameAt(r.rsp), FRAME_SIZE)
    ensures LoadWord(m', FrameAt(r.rsp), i) == Saved(r, sig)[i]
  {
    hide Within, SameAt, Disjoint, Store, StoreWords, LoadWord;
    var f := FrameAt(r.rsp);
    var m1 := Store(m, TrampolineAt(r.rsp), TRAMPOLINE);
    var m2 := StoreWords(m1, f, Saved(r, sig));
    assert Saved(r, 0)[17] == r.rsp;
    assert Saved(r, sig)[i] == Saved(r, 0)[i];
    PartsDisjoint(r.rsp);
    LoadStoreWords(m1, f, Saved(r, sig), i);
    StoreElsewhere(m2, ReturnAt(r.rsp), Encode(TrampolineAt(r.rsp), WORD), f, FRAME_SIZE);
    WordSame(m2, SetupMemory(m, r, sig), f, FRAME_SIZE, i);
    WordSame(SetupMemory(m, r, sig), m', f, FRAME_SIZE, i);
  }

  lemma NumberKept(m: Memory, r: Regs, sig: nat)
    requires Fits(r) && sig < ADDRESSES
    ensures LoadWord(SetupMemory(m, r, sig), FrameAt(r.rsp), 18) == sig
  {
    hide Within, SameAt, Disjoint, Store, StoreWords, LoadWord;
    var f := FrameAt(r.rsp);
    var m1 := Store(m, TrampolineAt(r.rsp), TRAMPOLINE);
    var m2 := StoreWords(m1, f, Saved(r, sig));
    assert Saved(r, 0)[17] == r.rsp;
    PartsDisjoint(r.rsp);
    LoadStoreWords(m1, f, Saved(r, sig), 18);
    StoreElsewhere(m2, ReturnAt(r.rsp), Encode(TrampolineAt(r.rsp), WORD), f, FRAME_SIZE);
    WordSame(m2, SetupMemory(m, r, sig), f, FRAME_SIZE, 18);
  }

  /** What the handler finds: at the stack pointer, which is a multiple of 16, the
      address of the trampoline, and above it the frame with the number of the signal. */
  ghost predicate Entered(m: Memory, r: Regs, sig: nat) {
    && r.rsp % 16 == 0
    && Load(m, LoadWord(m, r.rsp, 0), |TRAMPOLINE|) == TRAMPOLINE
    && LoadWord(m, Wrap(r.rsp + WORD), 18) == sig
  }

  lemma SetupEnters(m: Memory, r: Regs, handler: nat, sig: nat)
    requires Fits(r) && sig < ADDRESSES
    ensures Entered(SetupMemory(m, r, sig), SetupRegs(r, handler, sig), sig)
  {
    hide Within, SameAt, Load, Store, StoreWords, SetupMemory, Encode, Decode;
    assert Saved(r, 0)[17] == r.rsp;
    ReturnKept(m, r, sig);
    WrapRanges(ReturnAt(r.rsp), 0, 0);
    WordRoundTrip(TrampolineAt(r.rsp));
    TrampolineKept(m, r, sig);
    Positions(r.rsp);
    NumberKept(m, r, sig);
    Aligned(r.rsp);
  }

  lemma Aligned(rsp: nat)
    ensures ReturnAt(rsp) % 16 == 0
  {
    AlignedWrap(TrampolineAt(rsp) - TrampolineAt(rsp) % 16 - FRAME_SIZE, 8);
    AlignedWrap(FrameAt(rsp) - WORD, 0);
  }

  lemma AlignedWrap(a: int, k: nat)
    requires a % 16 == k
    ensures Wrap(a) % 16 == k
  {
    var q := a / ADDRESSES;
    assert a == 16 * (q * 0x1000_0000_0000_0000) + Wrap(a);
  }

  /** Seen from `r'`, the frame that was set up in `m` for the interrupted `r` is at
      the stack pointer and untouched. */
  ghost predicate FrameIntact(m: Memory, r: Regs, sig: nat, m': Memory, r': Regs) {
    Fits(r) && r'.rsp == FrameAt(r.rsp) && SameAt(SetupMemory(m, r, sig), m', FrameAt(r.rsp), FRAME_SIZE)
  }

  /** Sigreturn on an intact frame restores every register that was saved. */
  lemma FrameRestores(m: Memory, r: Regs, sig: nat, m': Memory, r': Regs)
    requires FrameIntact(m, r, sig, m', r')
    ensures Restored(m', r') == r.(cs := r'.cs)
  {
    hide SameAt, SetupMemory, LoadWord;
    forall i: nat | i < 18
      ensures LoadWord(m', FrameAt(r.rsp), i) == Saved(r, sig)[i]
    {
      FrameKept(m, r, sig, m', i);
    }
  }

  /** The whole detour: the handler runs, leaves the three parts of the frame alone
      and returns with the stack pointer it was given. Its return address is the
      trampoline, the trampoline's code is intact, and sigreturn then finds the
      frame at the stack pointer and restores every register that was saved. */
  lemma DetourRestores(m: Memory, r: Regs, handler: nat, sig: nat, m': Memory, r': Regs)
    requires Fits(r) && r'.rsp == SetupRegs(r, handler, sig).rsp
    requires SameAt(SetupMemory(m, r, sig), m', TrampolineAt(r.rsp), |TRAMPOLINE|)
    requires SameAt(SetupMemory(m, r, sig), m', FrameAt(r.rsp), FRAME_SIZE)
    requires SameAt(SetupMemory(m, r, sig), m', ReturnAt(r.rsp), WORD)
    ensures LoadWord(m', r'.rsp, 0) == TrampolineAt(r.rsp)
    ensures Load(m', TrampolineAt(r.rsp), |TRAMPOLINE|) == TRAMPOLINE
    ensures Restored(m', r'.(rsp := Wrap(r'.rsp + WORD))) == r.(cs := r'.cs)
  {
    hide Within, SameAt, Load, Store, StoreWords, SetupMemory, Encode, Decode;
    assert Saved(r, 0)[17] == r.rsp;
    ReturnKept(m, r, sig);
    WrapRanges(ReturnAt(r.rsp), 0, 0);
    WordSame(SetupMemory(m, r, sig), m', ReturnAt(r.rsp), WORD, 0);
    WordRoundTrip(TrampolineAt(r.rsp));
    TrampolineKept(m, r, sig);
    LoadSame(SetupMemory(m, r, sig), m', TrampolineAt(r.rsp), |TRAMPOLINE|);
    Positions(r.rsp);
    FrameRestores(m, r, sig, m', r'.(rsp := Wrap(r'.rsp + WORD)));
  }
}
