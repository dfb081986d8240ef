/** The allocation bitmaps of fs/ext2.c, for blocks and for inodes.

A bitmap is cut into groups. How many bits are clear is kept three times over:
per group, in the superblock of the image, and in the mounted copy of it. The
search trusts the group counts, skipping every group that says 0, so that it
finds a clear bit whenever there is one depends on the counts being right. */
module Ext2Bitmap {
  import opened Wrappers
  import opened Arith
  import opened BitCount

  /** `per` bits in each group; `sb` and `mem` are the two global counts. */
  datatype Bitmap = Bitmap(per: nat, bits: seq<seq<bool>>, free: seq<nat>, sb: nat, mem: nat)

  function Size(m: Bitmap): nat {
    |m.bits| * m.per
  }

  function GroupOf(m: Bitmap, n: nat): nat
    requires m.per > 0
  {
    n / m.per
  }

  function BitOf(m: Bitmap, n: nat): nat
    requires m.per > 0
  {
    n % m.per
  }

  predicate IsSet(m: Bitmap, n: nat) {
    && m.per > 0 && GroupOf(m, n) < |m.bits| && BitOf(m, n) < |m.bits[GroupOf(m, n)]|
    && m.bits[GroupOf(m, n)][BitOf(m, n)]
  }

  function Sum(s: seq<nat>): nat {
    if s == [] then 0 else Sum(s[..|s| - 1]) + s[|s| - 1]
  }

  ghost predicate Shaped(m: Bitmap) {
    m.per > 0 && |m.free| == |m.bits| && forall g | 0 <= g < |m.bits| :: |m.bits[g]| == m.per
  }

  /** All three counts are the number of clear bits. */
  ghost predicate Counted(m: Bitmap) {
    && Shaped(m)
    && (forall g | 0 <= g < |m.bits| :: m.free[g] == Clear(m.bits[g]))
    && m.sb == Sum(m.free) && m.mem == m.sb
  }

  ghost predicate Full(m: Bitmap) {
    forall n: nat | n < Size(m) :: IsSet(m, n)
  }

  lemma {:induction false} SumUpdate(s: seq<nat>, g: nat, v: nat)
    requires g < |s|
    ensures Sum(s[g := v]) == Sum(s) - s[g] + v
    ensures Sum(s) >= s[g]
    decreases |s|
  {
    var t := s[g := v];
    if g == |s| - 1 {
      assert t[..|t| - 1] == s[..|s| - 1];
    } else {
      assert t[..|t| - 1] == s[..|s| - 1][g := v];
      SumUpdate(s[..|s| - 1], g, v);
    }
  }

  /** The lowest clear bit, found as the source does. */
  method FindClear(m: Bitmap) returns (r: Option<nat>)
    requires Counted(m)
    ensures r.None? <==> Full(m)
    ensures r.Some? ==>
              && r.value < Size(m) && !IsSet(m, r.value)
              && forall n: nat | n < r.value :: IsSet(m, n)
  {
    for g := 0 to |m.bits|
      invariant forall n: nat | n < g * m.per :: IsSet(m, n)
    {
      if m.free[g] == 0 {
        GroupFull(m, g);
        continue;
      }
      for i := 0 to m.per
        invariant forall n: nat | n < g * m.per + i :: IsSet(m, n)
      {
        BitAt(m, g, i);
        if !m.bits[g][i] {
          GroupInside(m, g, i);
          return Some(g * m.per + i);
        }
      }
      assert (g + 1) * m.per == g * m.per + m.per;
    }
    return None;
  }

  lemma BitAt(m: Bitmap, g: nat, i: nat)
    requires Shaped(m) && g < |m.bits| && i < m.per
    ensures IsSet(m, g * m.per + i) <==> m.bits[g][i]
  {
    DivUnique(g * m.per + i, m.per, g, i);
  }

  lemma GroupInside(m: Bitmap, g: nat, i: nat)
    requires g < |m.bits| && i < m.per
    ensures g * m.per + i < Size(m)
  {
    MulSign(|m.bits| - g, m.per);
    assert (|m.bits| - g) * m.per == |m.bits| * m.per - g * m.per;
  }

  lemma GroupFull(m: Bitmap, g: nat)
    requires Counted(m) && g < |m.bits| && m.free[g] == 0
    requires forall n: nat | n < g * m.per :: IsSet(m, n)
    ensures forall n: nat | n < (g + 1) * m.per :: IsSet(m, n)
  {
    forall n: nat | g * m.per <= n < (g + 1) * m.per
      ensures IsSet(m, n)
    {
      var i := n - g * m.per;
      assert i < m.per by {
        assert (g + 1) * m.per == g * m.per + m.per;
      }
      ClearNone(m.bits[g], i);
      BitAt(m, g, i);
    }
  }

  /** Bit `n` exists. */
  predicate Located(m: Bitmap, n: nat) {
    m.per > 0 && GroupOf(m, n) < |m.bits| == |m.free| && BitOf(m, n) < |m.bits[GroupOf(m, n)]|
  }

  /** Bit `n` is set and the counts follow. */
  function Take(m: Bitmap, n: nat): Bitmap
    requires Located(m, n) && m.free[GroupOf(m, n)] > 0
  {
    var g, i := GroupOf(m, n), BitOf(m, n);
    var sb := if m.sb > 0 then m.sb - 1 else m.sb;
    m.(bits := m.bits[g := m.bits[g][i := true]], free := m.free[g := m.free[g] - 1], sb := sb, mem := sb)
  }

  /** Bit `n` is cleared and the counts follow. */
  function Give(m: Bitmap, n: nat): Bitmap
    requires Located(m, n)
  {
    var g, i := GroupOf(m, n), BitOf(m, n);
    m.(bits := m.bits[g := m.bits[g][i := false]], free := m.free[g := m.free[g] + 1], sb := m.sb + 1, mem := m.mem + 1)
  }

  lemma InGroup(m: Bitmap, n: nat)
    requires Shaped(m) && n < Size(m)
    ensures GroupOf(m, n) < |m.bits| && BitOf(m, n) < m.per
  {
    var g := GroupOf(m, n);
    assert n == g * m.per + n % m.per;
    MulSign(g - |m.bits| + 1, m.per);
    assert (g - |m.bits| + 1) * m.per == g * m.per - |m.bits| * m.per + m.per;
  }

  lemma SetOther(m: Bitmap, b: seq<seq<bool>>, n: nat, v: bool, x: nat)
    requires Shaped(m) && GroupOf(m, n) < |m.bits|
    requires b == m.bits[GroupOf(m, n) := m.bits[GroupOf(m, n)][BitOf(m, n) := v]]
    ensures IsSet(m.(bits := b), x) <==> if x == n then v else IsSet(m, x)
  {
    SplitUnique(m, x, n);
    hide GroupOf, BitOf;
    var e := m.(bits := b);
    assert GroupOf(e, x) == GroupOf(m, x) && BitOf(e, x) == BitOf(m, x) by {
      SplitSame(m, e, x);
    }
  }

  lemma SplitUnique(m: Bitmap, x: nat, n: nat)
    requires m.per > 0
    ensures GroupOf(m, x) == GroupOf(m, n) && BitOf(m, x) == BitOf(m, n) ==> x == n
    ensures BitOf(m, n) < m.per
  {
    assert x == x / m.per * m.per + x % m.per;
    assert n == n / m.per * m.per + n % m.per;
  }

  lemma SplitSame(m: Bitmap, e: Bitmap, x: nat)
    requires m.per == e.per > 0
    ensures GroupOf(e, x) == GroupOf(m, x) && BitOf(e, x) == BitOf(m, x)
  {
  }

  lemma SetBits(m: Bitmap, e: Bitmap, x: nat)
    requires m.per == e.per && m.bits == e.bits
    ensures IsSet(m, x) <==> IsSet(e, x)
  {
  }

  lemma SetInside(m: Bitmap, n: nat)
    requires Shaped(m) && IsSet(m, n)
    ensures n < Size(m)
  {
    GroupInside(m, GroupOf(m, n), BitOf(m, n));
    assert n == n / m.per * m.per + n % m.per;
  }

  /** A bit that is taken and given back. */
  lemma TakeGive(m: Bitmap, n: nat)
    requires Counted(m) && n < Size(m) && !IsSet(m, n)
    ensures Located(m, n) && m.free[GroupOf(m, n)] > 0 && Located(Take(m, n), n)
    ensures Give(Take(m, n), n) == m
  {
    TakeCounted(m, n);
    hide Clear;
    var t, g, i := Take(m, n), GroupOf(m, n), BitOf(m, n);
    assert GroupOf(t, n) == g && BitOf(t, n) == i;
    assert t.bits[g][i := false] == m.bits[g];
    assert Give(t, n).bits == m.bits;
  }

  /** Taking a clear bit sets that bit only and keeps the counts right. */
  lemma TakeCounted(m: Bitmap, n: nat)
    requires Counted(m) && n < Size(m) && !IsSet(m, n)
    ensures Located(m, n) && m.free[GroupOf(m, n)] > 0
    ensures Counted(Take(m, n)) && Size(Take(m, n)) == Size(m)
    ensures forall x: nat :: IsSet(Take(m, n), x) <==> x == n || IsSet(m, x)
    ensures Take(m, n).sb == m.sb - 1
  {
    InGroup(m, n);
    var g, i := GroupOf(m, n), BitOf(m, n);
    ClearUpdate(m.bits[g], i, true);
    SumUpdate(m.free, g, m.free[g] - 1);
    var t := Take(m, n);
    hide GroupOf, BitOf, Clear, Sum;
    forall x: nat
      ensures IsSet(t, x) <==> x == n || IsSet(m, x)
    {
      SetOther(m, t.bits, n, true, x);
      SetBits(m.(bits := t.bits), t, x);
    }
  }

  /** Returning a set bit clears that bit only and keeps the counts right. */
  lemma GiveCounted(m: Bitmap, n: nat)
    requires Counted(m) && IsSet(m, n)
    ensures Located(m, n) && n < Size(m)
    ensures Counted(Give(m, n)) && Size(Give(m, n)) == Size(m)
    ensures forall x: nat :: IsSet(Give(m, n), x) <==> x != n && IsSet(m, x)
    ensures Give(m, n).sb == m.sb + 1
  {
    var g, i := GroupOf(m, n), BitOf(m, n);
    SetInside(m, n);
    ClearUpdate(m.bits[g], i, false);
    SumUpdate(m.free, g, m.free[g] + 1);
    var t := Give(m, n);
    hide GroupOf, BitOf, Clear, Sum;
    forall x: nat
      ensures IsSet(t, x) <==> x != n && IsSet(m, x)
    {
      SetOther(m, t.bits, n, false, x);
      SetBits(m.(bits := t.bits), t, x);
    }
  }

  lemma {:induction false} ClearSome(s: seq<bool>)
    requires Clear(s) > 0
    ensures exists i | 0 <= i < |s| :: !s[i]
    decreases |s|
  {
    if s[|s| - 1] {
      ClearSome(s[..|s| - 1]);
      var i :| 0 <= i < |s| - 1 && !s[..|s| - 1][i];
      assert !s[i];
    }
  }

  lemma {:induction false} SumSome(s: seq<nat>)
    requires Sum(s) > 0
    ensures exists g | 0 <= g < |s| :: s[g] > 0
    decreases |s|
  {
    if s[|s| - 1] == 0 {
      SumSome(s[..|s| - 1]);
      var g :| 0 <= g < |s| - 1 && s[..|s| - 1][g] > 0;
      assert s[g] > 0;
    }
  }

  /** The counts are 0 exactly when no bit is clear. */
  lemma FullCount(m: Bitmap)
    requires Counted(m)
    ensures Full(m) <==> m.sb == 0
  {
    if m.sb > 0 {
      SumSome(m.free);
      var g :| 0 <= g < |m.free| && m.free[g] > 0;
      ClearSome(m.bits[g]);
      var i :| 0 <= i < |m.bits[g]| && !m.bits[g][i];
      BitAt(m, g, i);
      GroupInside(m, g, i);
    } else {
      forall n: nat | n < Size(m)
        ensures IsSet(m, n)
      {
        if !IsSet(m, n) {
          TakeCounted(m, n);
        }
      }
    }
  }

  /** A bitmap of one group with all bits clear. */
  function AllFree(n: nat): Bitmap {
    Bitmap(n, [seq(n, _ => false)], [n], n, n)
  }

  lemma AllFreeCounted(n: nat)
    requires n > 0
    ensures Counted(AllFree(n)) && Size(AllFree(n)) == n
  {
    var m := AllFree(n);
    AllClear(m.bits[0]);
    assert m.free[..0] == [];
    assert Sum(m.free) == n;
  }
}
