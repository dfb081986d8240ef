/** The physical frame allocator of memory/pmm.c.

The bitmap is an array of bytes; `Frames` is the same bitmap as one flag per
frame, set for frames in use. */
module Frames {
  import opened Wrappers
  import opened BitCount

  const FRAME_SIZE: nat := 4096
  const MAX_REFS: nat := 255

  // ---------------------------------------------------------------------
  // Bits of bytes
  // ---------------------------------------------------------------------

  function Mask(k: nat): bv8
    requires k < 8
  {
    if k == 0 then 1 else if k == 1 then 2 else if k == 2 then 4 else if k == 3 then 8
    else if k == 4 then 16 else if k == 5 then 32 else if k == 6 then 64 else 128
  }

  predicate Bit(b: bv8, k: nat)
    requires k < 8
  {
    b & Mask(k) != 0
  }

  function PutBit(b: bv8, k: nat, on: bool): bv8
    requires k < 8
  {
    if on then b | Mask(k) else b & !Mask(k)
  }

  lemma BitPut(b: bv8, k: nat, on: bool, j: nat)
    requires k < 8 && j < 8
    ensures Bit(PutBit(b, k, on), j) == if j == k then on else Bit(b, j)
  {
  }

  lemma AllBits(b: bv8)
    ensures b == 0xFF <==> forall k | 0 <= k < 8 :: Bit(b, k)
  {
    if forall k | 0 <= k < 8 :: Bit(b, k) {
      assert Bit(b, 0) && Bit(b, 1) && Bit(b, 2) && Bit(b, 3) && Bit(b, 4) && Bit(b, 5) && Bit(b, 6) && Bit(b, 7);
    }
  }

  /** One flag per frame. */
  function Flags(b: seq<bv8>): (s: seq<bool>)
    ensures |s| == 8 * |b|
  {
    seq(8 * |b|, f requires 0 <= f < 8 * |b| => Bit(b[f / 8], f % 8))
  }

  lemma FlagsPut(b: seq<bv8>, f: nat, on: bool)
    requires f < 8 * |b|
    ensures Flags(b[f / 8 := PutBit(b[f / 8], f % 8, on)]) == Flags(b)[f := on]
  {
    hide Bit, PutBit;
    var c := b[f / 8 := PutBit(b[f / 8], f % 8, on)];
    forall g: nat | g < 8 * |b|
      ensures Flags(c)[g] == Flags(b)[f := on][g]
    {
      BitPut(b[f / 8], f % 8, on, g % 8);
      assert g / 8 == f / 8 && g % 8 == f % 8 ==> g == f;
    }
  }

  /** A byte of ones stands for eight frames in use, and nothing else does. */
  lemma FullByte(b: seq<bv8>, i: nat)
    requires i < |b|
    ensures b[i] == 0xFF <==> forall f: nat | 8 * i <= f < 8 * i + 8 :: Flags(b)[f]
  {
    AllBits(b[i]);
    hide Bit;
    assert forall k: nat | k < 8 :: Flags(b)[8 * i + k] == Bit(b[i], k);
    if forall f: nat | 8 * i <= f < 8 * i + 8 :: Flags(b)[f] {
      forall k: nat | k < 8
        ensures Bit(b[i], k)
      {
        assert Flags(b)[8 * i + k];
      }
    }
    if b[i] == 0xFF {
      forall f: nat | 8 * i <= f < 8 * i + 8
        ensures Flags(b)[f]
      {
        assert f == 8 * i + (f - 8 * i);
      }
    }
  }

  // ---------------------------------------------------------------------
  // Runs of free frames
  // ---------------------------------------------------------------------

  ghost predicate FreeRun(s: seq<bool>, f: nat, n: nat) {
    f + n <= |s| && forall g | f <= g < f + n :: !s[g]
  }

  ghost predicate NoRunBelow(s: seq<bool>, n: nat, end: nat) {
    forall f: nat {:trigger FreeRun(s, f, n)} :: f + n <= end ==> !FreeRun(s, f, n)
  }

  /** `r` is where the lowest run of `n` free frames starts, if there is one. */
  ghost predicate IsFirst(s: seq<bool>, n: nat, r: Option<nat>) {
    match r
    case None => NoRunBelow(s, n, |s|)
    case Some(f) => FreeRun(s, f, n) && forall g: nat {:trigger FreeRun(s, g, n)} :: g < f ==> !FreeRun(s, g, n)
  }

  /** Two answers are the same answer. */
  lemma FirstUnique(s: seq<bool>, n: nat, r: Option<nat>, t: Option<nat>)
    requires IsFirst(s, n, r) && IsFirst(s, n, t)
    ensures r == t
  {
    if r.Some? {
      assert FreeRun(s, r.value, n);
    }
    if t.Some? {
      assert FreeRun(s, t.value, n);
    }
  }

  /** The frames from `f` to `e` set to `on`. */
  function Painted(s: seq<bool>, f: nat, e: nat, on: bool): (t: seq<bool>)
    ensures |t| == |s|
  {
    seq(|s|, g requires 0 <= g < |s| => if f <= g < e then on else s[g])
  }

  function Counted(r: seq<nat>, f: nat, e: nat): (t: seq<nat>)
    ensures |t| == |r|
  {
    seq(|r|, g requires 0 <= g < |r| => if f <= g < e then 1 else r[g])
  }

  lemma PaintedNext(s: seq<bool>, f: nat, e: nat, on: bool)
    requires f <= e < |s|
    ensures Painted(s, f, e + 1, on) == Painted(s, f, e, on)[e := on]
    ensures Painted(s, f, f, on) == s
  {
  }

  /** A scan with `run` free frames behind it moves on over one more frame. */
  lemma ScanNext(s: seq<bool>, n: nat, f: nat, start: nat)
    requires n > 0 && start <= f < |s| && NoRunBelow(s, n, f)
    requires s[f] || (f + 1 - start < n && (start == 0 || s[start - 1]))
    ensures NoRunBelow(s, n, f + 1)
  {
    forall g: nat | g + n <= f + 1
      ensures !FreeRun(s, g, n)
    {
      if g + n == f + 1 && !s[f] {
        assert g < start <= f;
      }
    }
  }

  // ---------------------------------------------------------------------
  // References to one frame
  // ---------------------------------------------------------------------

  /** The state of a frame: in use or not, and its reference count. */
  datatype Frame = Frame(used: bool, refs: nat)

  datatype Use = Ref | Free

  function Referenced(a: Frame): Frame {
    if a.refs < MAX_REFS then a.(refs := a.refs + 1) else a
  }

  function Freed(a: Frame): Frame {
    if !a.used then a else if a.refs > 1 then a.(refs := a.refs - 1) else Frame(false, 0)
  }

  function After(a: Frame, uses: seq<Use>): Frame {
    if uses == [] then a
    else var b := After(a, uses[..|uses| - 1]); if uses[|uses| - 1].Ref? then Referenced(b) else Freed(b)
  }

  /** References taken less references given back. */
  function Balance(uses: seq<Use>): int {
    if uses == [] then 0 else Balance(uses[..|uses| - 1]) + if uses[|uses| - 1].Ref? then 1 else -1
  }

  /** The count of a frame never saturates and never runs out on the way. */
  ghost predicate InRange(uses: seq<Use>) {
    forall n | 0 <= n <= |uses| :: 1 <= 1 + Balance(uses[..n]) <= MAX_REFS
  }

  /** While in range, a frame that was just allocated stays in use and its count
      is one more than the references taken and not given back. */
  lemma {:induction false} CountExact(uses: seq<Use>)
    requires InRange(uses)
    ensures After(Frame(true, 1), uses) == Frame(true, 1 + Balance(uses))
  {
    assert uses[..|uses|] == uses;
    if uses != [] {
      var u := uses[..|uses| - 1];
      forall n | 0 <= n <= |u|
        ensures 1 <= 1 + Balance(u[..n]) <= MAX_REFS
      {
        assert u[..n] == uses[..n];
      }
      CountExact(u);
    }
  }

  /** The free that gives back the last reference releases the frame, and none
      before it does. */
  lemma LastFreeReleases(uses: seq<Use>)
    requires InRange(uses)
    ensures After(Frame(true, 1), uses).used
    ensures After(Frame(true, 1), uses + [Free]).used <==> Balance(uses) != 0
  {
    CountExact(uses);
    assert (uses + [Free])[..|uses|] == uses;
  }

  function Times(u: Use, n: nat): (s: seq<Use>)
    ensures |s| == n
  {
    seq(n, _ => u)
  }

  /** After `k` extra references, frees one to `k` keep the frame and free `k + 1`
      releases it, exactly as long as `k` is at most 254; beyond that the count
      has saturated and free 255 releases it already. */
  lemma {:induction false} FreesNeeded(k: nat, j: nat)
    ensures var kept := if k < MAX_REFS then k else MAX_REFS - 1;
            After(After(Frame(true, 1), Times(Ref, k)), Times(Free, j)) ==
            if j <= kept then Frame(true, kept + 1 - j) else Frame(false, 0)
  {
    if j == 0 {
      if k > 0 {
        assert Times(Ref, k)[..k - 1] == Times(Ref, k - 1);
        FreesNeeded(k - 1, 0);
      }
    } else {
      assert Times(Free, j)[..j - 1] == Times(Free, j - 1);
      FreesNeeded(k, j - 1);
    }
  }

  function PageUp(a: nat): nat {
    (a + FRAME_SIZE - 1) / FRAME_SIZE
  }

  /** Some byte of the range, or its start where it is empty, lies in frame `f`. */
  predicate Touches(f: nat, addr: nat, size: nat) {
    f * FRAME_SIZE < addr + size && addr < (f + 1) * FRAME_SIZE
  }

  /** All of frame `f` lies in the range. */
  predicate Inside(f: nat, addr: nat, size: nat) {
    addr <= f * FRAME_SIZE && (f + 1) * FRAME_SIZE <= addr + size
  }

  lemma PageBounds(f: nat, addr: nat, size: nat)
    ensures addr / FRAME_SIZE <= f < PageUp(addr + size) <==> Touches(f, addr, size)
    ensures PageUp(addr) <= f < (addr + size) / FRAME_SIZE <==> Inside(f, addr, size)
  {
  }

  /** The pointer that is returned for a run. */
  function Address(r: Option<nat>): nat {
    match r
    case None => 0
    case Some(f) => f * FRAME_SIZE
  }

  /** The run `r` of `n` frames was taken, each with one reference. */
  ghost predicate Taken(s: seq<bool>, refs: seq<nat>, n: nat, r: Option<nat>, t: seq<bool>, refs': seq<nat>) {
    match r
    case None => t == s && refs' == refs
    case Some(f) =>
      && |t| == |s| && |refs'| == |refs|
      && (forall g | 0 <= g < |s| :: t[g] <==> s[g] || f <= g < f + n)
      && (forall g | 0 <= g < |refs| :: refs'[g] == if f <= g < f + n then 1 else refs[g])
  }

  lemma OneTaken(s: seq<bool>, refs: seq<nat>, f: nat)
    requires f < |s| == |refs|
    ensures Taken(s, refs, 1, Some(f), s[f := true], refs[f := 1])
  {
  }

  lemma OneFrame(s: seq<bool>, f: nat)
    requires f < |s| && NoRunBelow(s, 1, f) && !s[f]
    ensures IsFirst(s, 1, Some(f))
  {
  }

  lemma EightUsed(s: seq<bool>, i: nat)
    requires 8 * i + 8 <= |s| && NoRunBelow(s, 1, 8 * i) && forall f: nat | 8 * i <= f < 8 * i + 8 :: s[f]
    ensures NoRunBelow(s, 1, 8 * i + 8)
  {
    forall f: nat | f + 1 <= 8 * i + 8
      ensures !FreeRun(s, f, 1)
    {
      assert f < 8 * i || s[f];
    }
  }

  lemma RunFound(s: seq<bool>, n: nat, f: nat)
    requires n > 0 && f + n <= |s| && NoRunBelow(s, n, f + n - 1) && forall g | f <= g < f + n :: !s[g]
    ensures IsFirst(s, n, Some(f)) && FreeRun(s, f, n)
  {
  }

  class FrameAllocator {
    const bitmap: array<bv8>
    const refs: array<nat>
    var used: int

    ghost function Frames(): seq<bool>
      reads bitmap
    {
      Flags(bitmap[..])
    }

    /** The used count is the number of frames in use. */
    ghost predicate Valid()
      reads this, bitmap, refs
    {
      && refs.Length == 8 * bitmap.Length
      && used == |Frames()| - Clear(Frames())
      && forall f | 0 <= f < refs.Length :: refs[f] <= MAX_REFS
    }

    /** Everything in use, the first step of pmm_init. */
    constructor (bytes: nat)
      ensures Valid() && fresh(bitmap) && fresh(refs) && bitmap.Length == bytes
      ensures forall f | 0 <= f < 8 * bytes :: Frames()[f] && refs[f] == 0
    {
      bitmap := new bv8[bytes](_ => 0xFF);
      refs := new nat[8 * bytes](_ => 0);
      used := 8 * bytes;
      new;
      forall f | 0 <= f < 8 * bytes
        ensures Frames()[f]
      {
        AllBits(bitmap[f / 8]);
      }
      NoneClear(Frames());
    }

    method TestBit(f: nat) returns (b: bool)
      requires f < 8 * bitmap.Length
      ensures b == Frames()[f]
    {
      return Bit(bitmap[f / 8], f % 8);
    }

    method PutFlag(f: nat, on: bool)
      requires f < 8 * bitmap.Length
      modifies bitmap
      ensures Frames() == old(Frames())[f := on]
    {
      FlagsPut(bitmap[..], f, on);
      var b := bitmap[f / 8];
      bitmap[f / 8] := PutBit(b, f % 8, on);
      assert bitmap[..] == old(bitmap[..])[f / 8 := PutBit(b, f % 8, on)];
    }

    /** Frame `f` becomes used or free, and the count follows. */
    method Flip(f: nat, on: bool)
      requires Valid() && f < 8 * bitmap.Length && Frames()[f] != on
      modifies bitmap, this`used
      ensures Valid() && Frames() == old(Frames())[f := on]
    {
      ClearUpdate(Frames(), f, on);
      PutFlag(f, on);
      used := if on then used + 1 else used - 1;
    }

    /** pmm_mark_used: every frame that the range touches. */
    method MarkUsed(addr: nat, size: nat)
      requires Valid()
      modifies bitmap, this`used
      ensures Valid() && |Frames()| == old(|Frames()|) == 8 * bitmap.Length
      ensures forall f: nat | f < |Frames()| :: Frames()[f] <==> old(Frames()[f]) || Touches(f, addr, size)
    {
      hide Flags;
      Mark(addr / FRAME_SIZE, PageUp(addr + size), true);
      forall f: nat | f < |Frames()|
        ensures Frames()[f] <==> old(Frames()[f]) || Touches(f, addr, size)
      {
        PageBounds(f, addr, size);
      }
    }

    /** pmm_mark_free: only the frames that lie wholly in the range. */
    method MarkFree(addr: nat, size: nat)
      requires Valid()
      modifies bitmap, this`used
      ensures Valid() && |Frames()| == old(|Frames()|) == 8 * bitmap.Length
      ensures forall f: nat | f < |Frames()| :: !Frames()[f] <==> !old(Frames()[f]) || Inside(f, addr, size)
    {
      hide Flags;
      Mark(PageUp(addr), (addr + size) / FRAME_SIZE, false);
      forall f: nat | f < |Frames()|
        ensures !Frames()[f] <==> !old(Frames()[f]) || Inside(f, addr, size)
      {
        PageBounds(f, addr, size);
      }
    }

    method Mark(start: nat, end: nat, on: bool)
      requires Valid()
      modifies bitmap, this`used
      ensures Valid() && Frames() == Painted(old(Frames()), start, end, on)
    {
      hide Clear, Flags;
      var f := start;
      ghost var s := Frames();
      assert s == Painted(s, start, start, on);
      while f < end && f < 8 * bitmap.Length
        invariant start <= f && (f <= end || f == start)
        invariant Valid() && Frames() == Painted(s, start, f, on)
      {
        PaintedNext(s, start, f, on);
        var b := TestBit(f);
        if b != on {
          Flip(f, on);
        } else {
          assert Frames() == Frames()[f := on];
        }
        f := f + 1;
      }
      assert Painted(s, start, f, on) == Painted(s, start, end, on);
    }

    /** pmm_alloc_frame, which skips bytes that are all ones: the lowest free frame.
        The address of frame 0 is the null pointer that also stands for failure. */
    method AllocFrame() returns (addr: nat, ghost r: Option<nat>)
      requires Valid()
      modifies bitmap, refs, this`used
      ensures Valid() && IsFirst(old(Frames()), 1, r) && Taken(old(Frames()), old(refs[..]), 1, r, Frames(), refs[..])
      ensures addr == Address(r)
    {
      hide Clear, Flags, Bit;
      ghost var s := Frames();
      for i := 0 to bitmap.Length
        invariant bitmap[..] == old(bitmap[..]) && refs[..] == old(refs[..]) && used == old(used)
        invariant NoRunBelow(s, 1, 8 * i)
      {
        FullByte(bitmap[..], i);
        if bitmap[i] == 0xFF {
          EightUsed(s, i);
          continue;
        }
        for k := 0 to 8
          invariant bitmap[..] == old(bitmap[..]) && refs[..] == old(refs[..]) && used == old(used)
          invariant NoRunBelow(s, 1, 8 * i + k)
        {
          var f := 8 * i + k;
          var b := TestBit(f);
          if !b {
            OneFrame(s, f);
            Flip(f, true);
            refs[f] := 1;
            assert refs[..] == old(refs[..])[f := 1];
            OneTaken(s, old(refs[..]), f);
            return f * FRAME_SIZE, Some(f);
          }
          ScanNext(s, 1, f, f);
        }
      }
      return 0, None;
    }

    /** pmm_alloc_frames: the lowest run of `count` free frames. */
    method AllocFrames(count: nat) returns (addr: nat, ghost r: Option<nat>)
      requires Valid()
      modifies bitmap, refs, this`used
      ensures Valid()
      ensures count == 0 ==> addr == 0 && Frames() == old(Frames()) && refs[..] == old(refs[..])
      ensures count > 0 ==>
                && IsFirst(old(Frames()), count, r) && addr == Address(r)
                && Taken(old(Frames()), old(refs[..]), count, r, Frames(), refs[..])
    {
      hide Clear, Flags, Bit;
      if count == 0 {
        return 0, None;
      }
      if count == 1 {
        addr, r := AllocFrame();
        return;
      }
      ghost var s := Frames();
      var run, start := 0, 0;
      for f := 0 to 8 * bitmap.Length
        invariant bitmap[..] == old(bitmap[..]) && refs[..] == old(refs[..]) && used == old(used)
        invariant NoRunBelow(s, count, f) && run < count
        invariant run == 0 ==> f == 0 || s[f - 1]
        invariant run > 0 ==> start + run == f && (start == 0 || s[start - 1]) && forall g | start <= g < f :: !s[g]
      {
        var b := TestBit(f);
        if !b {
          if run == 0 {
            start := f;
          }
          run := run + 1;
          if run == count {
            RunFound(s, count, start);
            Take(start, count);
            return start * FRAME_SIZE, Some(start);
          }
          ScanNext(s, count, f, start);
        } else {
          run := 0;
          ScanNext(s, count, f, f);
        }
      }
      return 0, None;
    }

    /** A run of free frames is taken. */
    method Take(start: nat, count: nat)
      requires Valid() && FreeRun(Frames(), start, count)
      modifies bitmap, refs, this`used
      ensures Valid() && Taken(old(Frames()), old(refs[..]), count, Some(start), Frames(), refs[..])
    {
      hide Clear, Flags, Bit;
      ghost var s, c := Frames(), refs[..];
      assert s == Painted(s, start, start, true) && c == Counted(c, start, start);
      for i := start to start + count
        invariant Valid() && Frames() == Painted(s, start, i, true) && refs[..] == Counted(c, start, i)
      {
        PaintedNext(s, start, i, true);
        Flip(i, true);
        refs[i] := 1;
        assert refs[..] == Counted(c, start, i)[i := 1] == Counted(c, start, i + 1);
      }
    }

    ghost function At(f: nat): Frame
      requires f < 8 * bitmap.Length && refs.Length == 8 * bitmap.Length
      reads bitmap, refs
    {
      Frame(Frames()[f], refs[f])
    }

    /** pmm_free_frame: one reference less, on this frame only. */
    method FreeFrame(addr: nat)
      requires Valid()
      modifies bitmap, refs, this`used
      ensures Valid()
      ensures var f := addr / FRAME_SIZE;
              if f < 8 * bitmap.Length then
                && At(f) == Freed(old(At(f)))
                && Frames() == old(Frames())[f := Frames()[f]] && refs[..] == old(refs[..])[f := refs[f]]
              else Frames() == old(Frames()) && refs[..] == old(refs[..])
      ensures var f := addr / FRAME_SIZE;
              f < 8 * bitmap.Length ==>
                if old(Frames()[f]) && old(refs[f]) > 1 then Frames()[f] && refs[f] == old(refs[f]) - 1
                else !Frames()[f] && refs[f] == if old(Frames()[f]) then 0 else old(refs[f])
    {
      hide Clear, Flags, Bit;
      var f := addr / FRAME_SIZE;
      if f >= 8 * bitmap.Length {
        return;
      }
      var b := TestBit(f);
      if !b {
        return;
      }
      if refs[f] > 1 {
        refs[f] := refs[f] - 1;
        return;
      }
      refs[f] := 0;
      Flip(f, false);
    }

    /** pmm_ref_frame: one reference more, up to 255. */
    method RefFrame(addr: nat)
      requires Valid()
      modifies refs
      ensures Valid() && Frames() == old(Frames())
      ensures var f := addr / FRAME_SIZE;
              if f < 8 * bitmap.Length then
                At(f) == Referenced(old(At(f))) && refs[..] == old(refs[..])[f := refs[f]]
              else refs[..] == old(refs[..])
      ensures var f := addr / FRAME_SIZE;
              f < 8 * bitmap.Length ==>
                refs[f] == if old(refs[f]) == MAX_REFS then MAX_REFS else old(refs[f]) + 1
    {
      hide Clear, Flags, Bit;
      var f := addr / FRAME_SIZE;
      if f >= 8 * bitmap.Length {
        return;
      }
      if refs[f] < MAX_REFS {
        refs[f] := refs[f] + 1;
      }
    }

    /** pmm_free_frames: one reference less on every frame of the run. */
    method FreeFrames(addr: nat, count: nat)
      requires Valid()
      modifies bitmap, refs, this`used
      ensures Valid()
      ensures forall f: nat | f < 8 * bitmap.Length ::
                At(f) == if addr / FRAME_SIZE <= f < addr / FRAME_SIZE + count then Freed(old(At(f))) else old(At(f))
    {
      hide Clear, Flags, Bit;
      ghost var start := addr / FRAME_SIZE;
      for i := 0 to count
        invariant Valid()
        invariant forall f: nat | f < 8 * bitmap.Length ::
                    At(f) == if start <= f < start + i then Freed(old(At(f))) else old(At(f))
      {
        assert (addr + i * FRAME_SIZE) / FRAME_SIZE == start + i;
        FreeFrame(addr + i * FRAME_SIZE);
      }
    }

    /** The pointer that a run was handed out under gives back that run. */
    method AllocThenFree(count: nat) returns (addr: nat, ghost r: Option<nat>)
      requires Valid() && count > 0
      modifies bitmap, refs, this`used
      ensures Valid() && IsFirst(old(Frames()), count, r)
      ensures addr != 0 ==> r == Some(addr / FRAME_SIZE) && Frames() == old(Frames()) && used == old(used)
    {
      hide Clear, Flags, Bit;
      ghost var s, c := Frames(), refs[..];
      addr, r := AllocFrames(count);
      if addr != 0 {
        ghost var t, d := Frames(), refs[..];
        FreeFrames(addr, count);
        forall g: nat | g < |s|
          ensures Frames()[g] == s[g]
        {
          TakenThenFreed(s, c, count, r.value, t, d, g);
          assert At(g) == if r.value <= g < r.value + count then Freed(Frame(t[g], d[g])) else Frame(t[g], d[g]);
        }
      }
    }
  }

  /** A run that is taken and then freed is free again, and nothing else changed. */
  lemma TakenThenFreed(s: seq<bool>, refs: seq<nat>, n: nat, f: nat, t: seq<bool>, refs': seq<nat>, g: nat)
    requires FreeRun(s, f, n) && g < |s| == |refs| && Taken(s, refs, n, Some(f), t, refs')
    ensures if f <= g < f + n then Freed(Frame(t[g], refs'[g])) == Frame(s[g], 0)
            else Frame(t[g], refs'[g]) == Frame(s[g], refs[g])
  {
  }

  /** The null pointer means that there is no such run exactly if no run of that
      length starts at frame 0. */
  lemma NullExact(s: seq<bool>, n: nat, r: Option<nat>)
    requires IsFirst(s, n, r)
    ensures (Address(r) == 0 <==> NoRunBelow(s, n, |s|)) <==> !FreeRun(s, 0, n)
  {
    if r.Some? {
      assert FreeRun(s, r.value, n);
    }
  }

  /** Frame 0 is freed and asked for again: it is handed out as the null pointer. */
  method NullFrame(bytes: nat) returns (addr: nat, ghost r: Option<nat>)
    requires bytes > 0
    ensures addr == 0 && r == Some(0)
  {
    var pmm := new FrameAllocator(bytes);
    pmm.MarkUsed(0, 0x10_0000);
    pmm.FreeFrame(0);
    assert FreeRun(pmm.Frames(), 0, 1);
    addr, r := pmm.AllocFrame();
  }
}
