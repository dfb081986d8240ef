/** The CRC-32 of kernel/apkg.c, which kernel/pkg.c holds a second copy of.

A 32-bit word is the sequence of its bits, lowest first, so that exclusive or and
shifts are bit by bit. The reference is the bit-serial definition: the bits of
the message, lowest bit of each byte first, are fed one by one into a shift
register with the reflected polynomial. The kernel works byte by byte from a
table; that both agree rests on the register step being linear over exclusive
or. */
module Crc32 {

  const WIDTH: nat := 32

  type Word = w: seq<bool> | |w| == WIDTH witness seq(WIDTH, _ => false)
  type Byte = b: nat | b < 256

  /** The low `k` bits of `n`, lowest first. */
  function Bits(n: nat, k: nat): (s: seq<bool>)
    ensures |s| == k
    decreases k
  {
    if k == 0 then [] else [n % 2 == 1] + Bits(n / 2, k - 1)
  }

  function Value(s: seq<bool>): nat {
    if s == [] then 0 else (if s[0] then 1 else 0) + 2 * Value(s[1..])
  }

  function Word32(n: nat): Word {
    Bits(n, WIDTH)
  }

  const POLYNOMIAL: Word := Word32(0xEDB8_8320)
  const ONES: Word := Word32(0xFFFF_FFFF)

  function Xor(a: Word, b: Word): Word {
    seq(WIDTH, i requires 0 <= i < WIDTH => a[i] != b[i])
  }

  /** `a >> n` */
  function Shift(a: Word, n: nat): Word {
    seq(WIDTH, i requires 0 <= i < WIDTH => i + n < WIDTH && a[i + n])
  }

  /** The value of `a & 0xFF`. */
  function LowByte(a: Word): nat {
    Value(a[..8])
  }

  /** One step of the register. */
  function Step(c: Word): Word {
    if c[0] then Xor(POLYNOMIAL, Shift(c, 1)) else Shift(c, 1)
  }

  function Steps(c: Word, n: nat): Word
    decreases n
  {
    if n == 0 then c else Steps(Step(c), n - 1)
  }

  /** `c` with its lowest bit flipped if `bit` is set. */
  function XorBit(c: Word, bit: bool): Word {
    c[0 := c[0] != bit]
  }

  /** The lowest `n` bits of `b` fed into the register, one bit per step. */
  function Feed(c: Word, b: Word, n: nat): Word
    decreases n
  {
    if n == 0 then c else Feed(Step(XorBit(c, b[0])), Shift(b, 1), n - 1)
  }

  /** The register after all bits of the message. */
  function Register(data: seq<Byte>): Word {
    if data == [] then ONES else Feed(Register(data[..|data| - 1]), Word32(data[|data| - 1]), 8)
  }

  /** The checksum, bit by bit. */
  function Checksum(data: seq<Byte>): Word {
    Xor(Register(data), ONES)
  }

  lemma BitsFour(n: nat, k: nat)
    requires k >= 4
    ensures Bits(n, k) ==
            [n % 2 == 1, n / 2 % 2 == 1, n / 4 % 2 == 1, n / 8 % 2 == 1] + Bits(n / 16, k - 4)
  {
    assert n / 2 / 2 == n / 4 && n / 4 / 2 == n / 8 && n / 8 / 2 == n / 16;
    assert Bits(n, k) == [n % 2 == 1] + Bits(n / 2, k - 1);
    assert Bits(n / 2, k - 1) == [n / 2 % 2 == 1] + Bits(n / 4, k - 2);
    assert Bits(n / 4, k - 2) == [n / 4 % 2 == 1] + Bits(n / 8, k - 3);
    assert Bits(n / 8, k - 3) == [n / 8 % 2 == 1] + Bits(n / 16, k - 4);
  }

  /** The exponents of the IEEE 802.3 polynomial, without that of x^32. */
  const EXPONENTS: set<nat> := {0, 1, 2, 4, 5, 7, 8, 10, 11, 12, 16, 22, 23, 26}

  lemma LowHalf(i: nat)
    requires i < 16
    ensures POLYNOMIAL[i] <==> i in {5, 8, 9, 15}
    ensures POLYNOMIAL[i + 16] == Bits(0xEDB8, 16)[i]
  {
    hide Bits;
    BitsFour(0xEDB8_8320, 32);
    BitsFour(0xEDB_8832, 28);
    BitsFour(0xED_B883, 24);
    BitsFour(0xE_DB88, 20);
  }

  lemma HighHalf(i: nat)
    requires i < 16
    ensures Bits(0xEDB8, 16)[i] <==> i in {3, 4, 5, 7, 8, 10, 11, 13, 14, 15}
  {
    hide Bits;
    BitsFour(0xEDB8, 16);
    BitsFour(0xEDB, 12);
    BitsFour(0xED, 8);
    BitsFour(0xE, 4);
  }

  /** The constant is that polynomial, the highest coefficient in the lowest bit. */
  lemma PolynomialIs(e: nat)
    requires e < WIDTH
    ensures POLYNOMIAL[WIDTH - 1 - e] <==> e in EXPONENTS
  {
    hide Bits;
    if e < 16 {
      LowHalf(15 - e);
      HighHalf(15 - e);
    } else {
      LowHalf(31 - e);
    }
  }

  lemma StepLinear(a: Word, b: Word)
    ensures Step(Xor(a, b)) == Xor(Step(a), Step(b))
  {
    assert Shift(Xor(a, b), 1) == Xor(Shift(a, 1), Shift(b, 1));
  }

  lemma {:induction false} StepsLinear(a: Word, b: Word, n: nat)
    ensures Steps(Xor(a, b), n) == Xor(Steps(a, n), Steps(b, n))
    decreases n
  {
    if n > 0 {
      StepLinear(a, b);
      StepsLinear(Step(a), Step(b), n - 1);
    }
  }

  /** Only the lowest bit of `b` matters at once; the others move down. */
  lemma FeedStep(c: Word, b: Word)
    ensures Step(Xor(c, b)) == Xor(Step(XorBit(c, b[0])), Shift(b, 1))
  {
    var rest := b[0 := false];
    assert Xor(c, b) == Xor(XorBit(c, b[0]), rest);
    StepLinear(XorBit(c, b[0]), rest);
    assert Step(rest) == Shift(b, 1);
  }

  /** A word may be added to the register all at once. */
  lemma {:induction false} FeedAtOnce(c: Word, b: Word, n: nat)
    ensures Steps(Xor(c, b), n) == Xor(Feed(c, b, n), Shift(b, n))
    decreases n
  {
    hide Xor, Shift, Step;
    if n > 0 {
      FeedStep(c, b);
      FeedAtOnce(Step(XorBit(c, b[0])), Shift(b, 1), n - 1);
      ShiftShift(b, n - 1);
    } else {
      ShiftNone(b);
    }
  }

  lemma ShiftShift(b: Word, n: nat)
    ensures Shift(Shift(b, 1), n) == Shift(b, n + 1)
  {
  }

  lemma ShiftNone(b: Word)
    ensures Shift(b, 0) == b
  {
  }

  /** Bits that have not reached the low end just move down. */
  lemma {:induction false} StepsShift(x: Word, n: nat)
    requires n <= WIDTH && forall i | 0 <= i < n :: !x[i]
    ensures Steps(x, n) == Shift(x, n)
    decreases n
  {
    if n > 0 {
      assert Step(x) == Shift(x, 1);
      StepsShift(Shift(x, 1), n - 1);
      ShiftShift(x, n - 1);
    } else {
      ShiftNone(x);
    }
  }

  lemma {:induction false} BitsZero(k: nat, i: nat)
    requires i < k
    ensures !Bits(0, k)[i]
    decreases k
  {
    if i > 0 {
      BitsZero(k - 1, i - 1);
    }
  }

  /** The bits of the value of `s` are `s` and then zeros. */
  lemma {:induction false} BitsValue(s: seq<bool>, k: nat, i: nat)
    requires |s| <= k && i < k
    ensures Bits(Value(s), k)[i] == (i < |s| && s[i])
    decreases k
  {
    if s == [] {
      BitsZero(k, i);
    } else {
      assert Value(s) / 2 == Value(s[1..]);
      if i > 0 {
        BitsValue(s[1..], k - 1, i - 1);
      }
    }
  }

  lemma {:induction false} HighBitsZero(n: nat, size: nat, k: nat, i: nat)
    requires size <= i < k && n < Power(size)
    ensures !Bits(n, k)[i]
    decreases k
  {
    if size == 0 {
      BitsZero(k, i);
    } else {
      HighBitsZero(n / 2, size - 1, k - 1, i - 1);
    }
  }

  function Power(k: nat): nat {
    if k == 0 then 1 else 2 * Power(k - 1)
  }

  /** One byte through the table: the low byte is looked up, the rest shifts. */
  lemma TableStep(c: Word, b: Byte)
    ensures Feed(c, Word32(b), 8) == Xor(Steps(Word32(LowByte(Xor(c, Word32(b)))), 8), Shift(c, 8))
  {
    hide Bits, Value, Steps, Feed;
    var w := Word32(b);
    var x := Xor(c, w);
    var low := Word32(LowByte(x));
    var high: Word := seq(WIDTH, i requires 0 <= i < WIDTH => i >= 8 && x[i]);
    ByteHigh(b);
    FeedAtOnce(c, w, 8);
    forall i: nat | i < WIDTH
      ensures low[i] == (i < 8 && x[i])
    {
      BitsValue(x[..8], WIDTH, i);
    }
    assert x == Xor(low, high);
    StepsLinear(low, high, 8);
    StepsShift(high, 8);
    assert Shift(high, 8) == Shift(c, 8);
    XorZero(Feed(c, w, 8), Shift(w, 8));
  }

  lemma ByteHigh(b: Byte)
    ensures forall i | 8 <= i < WIDTH :: !Word32(b)[i]
  {
    assert Power(8) == 256 by {
      assert Power(4) == 16;
    }
    forall i: nat | 8 <= i < WIDTH
      ensures !Word32(b)[i]
    {
      HighBitsZero(b, 8, WIDTH, i);
    }
  }

  lemma XorZero(a: Word, z: Word)
    requires forall i | 0 <= i < WIDTH :: !z[i]
    ensures Xor(a, z) == a
  {
  }

  /** The function apkg_crc32 with its static table, and pkg_crc32 likewise. */
  class Crc {
    const table: array<Word>
    var ready: bool

    ghost predicate Valid()
      reads this, table
    {
      table.Length == 256 && (ready ==> forall i: nat | i < 256 :: table[i] == Steps(Word32(i), 8))
    }

    constructor ()
      ensures Valid() && !ready && fresh(table)
    {
      table := new Word[256](_ => Word32(0));
      ready := false;
    }

    method Fill()
      requires Valid()
      modifies this`ready, table
      ensures Valid() && ready
    {
      hide Step, Word32;
      if ready {
        return;
      }
      for i := 0 to 256
        invariant forall k: nat | k < i :: table[k] == Steps(Word32(k), 8)
      {
        var c := Word32(i);
        for j := 0 to 8
          invariant Steps(c, 8 - j) == Steps(Word32(i), 8)
        {
          c := Step(c);
        }
        table[i] := c;
      }
      ready := true;
    }

    /** From the table, on the first call and on every later one: the bit-serial
        checksum of every byte sequence. */
    method Compute(data: seq<Byte>) returns (crc: Word)
      requires Valid()
      modifies this`ready, table
      ensures Valid() && ready && crc == Checksum(data)
    {
      hide Steps, Word32, Xor, Shift, Feed;
      Fill();
      crc := ONES;
      for i := 0 to |data|
        invariant Valid() && ready && crc == Register(data[..i])
      {
        var x := Xor(crc, Word32(data[i]));
        LowByteRange(x);
        TableStep(crc, data[i]);
        assert data[..i + 1][..i] == data[..i];
        crc := Xor(table[LowByte(x)], Shift(crc, 8));
      }
      assert data[..|data|] == data;
      crc := Xor(crc, ONES);
    }
  }

  lemma {:induction false} ValueRange(s: seq<bool>)
    ensures Value(s) < Power(|s|)
  {
    if s != [] {
      ValueRange(s[1..]);
    }
  }

  lemma LowByteRange(x: Word)
    ensures LowByte(x) < 256
  {
    ValueRange(x[..8]);
    assert Power(8) == 256 by {
      assert Power(4) == 16;
    }
  }

  // ---------------------------------------------------------------------
  // What the checksum is for
  // ---------------------------------------------------------------------

  /** The word whose only bit is bit `i`. */
  function Unit(i: nat): Word {
    seq(WIDTH, j => j == i)
  }

  /** A step is division by x: it moves every bit down by one, and the bit that falls
      out comes back as the polynomial. With `StepLinear` this is all of it. */
  lemma StepUnit(i: nat)
    requires i < WIDTH
    ensures i > 0 ==> Step(Unit(i)) == Unit(i - 1)
    ensures i == 0 ==> Step(Unit(i)) == POLYNOMIAL
  {
    hide Word32;
    if i == 0 {
      XorZero(POLYNOMIAL, Shift(Unit(0), 1));
    }
  }

  /** The register starts with ones, and the checksum is its complement. */
  lemma StartAndEnd(data: seq<Byte>, i: nat)
    requires i < WIDTH
    ensures Register([])[i] && (Checksum(data)[i] <==> !Register(data)[i])
  {
    OnesAll(i);
  }

  lemma OnesAll(i: nat)
    requires i < WIDTH
    ensures ONES[i]
  {
    assert Power(8) == 256 by {
      assert Power(4) == 16;
    }
    assert Power(16) == 0x1_0000 by {
      assert Power(12) == 16 * Power(8);
    }
    assert Power(24) == 256 * Power(16) by {
      assert Power(20) == 16 * Power(16);
    }
    assert Power(32) == 256 * Power(24) by {
      assert Power(28) == 16 * Power(24);
    }
    OnesFrom(0xFFFF_FFFF, WIDTH, i);
  }

  lemma {:induction false} OnesFrom(n: nat, k: nat, i: nat)
    requires i < k && n + 1 == Power(k)
    ensures Bits(n, k)[i]
    decreases k
  {
    var m := Power(k - 1) - 1;
    assert n == 2 * m + 1;
    assert n % 2 == 1 && n / 2 == m;
    if i > 0 {
      OnesFrom(m, k - 1, i - 1);
    }
  }

  /** No two registers are led to the same one. */
  lemma StepInjective(a: Word, b: Word)
    requires Step(a) == Step(b)
    ensures a == b
  {
    hide Word32;
    PolynomialIs(0);
    assert Step(a)[31] == a[0] && Step(b)[31] == b[0];
    forall i: nat | i < WIDTH
      ensures a[i] == b[i]
    {
      if i > 0 {
        assert Step(a)[i - 1] == (a[i] != (a[0] && POLYNOMIAL[i - 1]));
        assert Step(b)[i - 1] == (b[i] != (b[0] && POLYNOMIAL[i - 1]));
      }
    }
  }

  lemma {:induction false} FeedInjective(a: Word, b: Word, x: Word, n: nat)
    requires Feed(a, x, n) == Feed(b, x, n)
    ensures a == b
    decreases n
  {
    hide Step, Shift;
    if n > 0 {
      var p, q := XorBit(a, x[0]), XorBit(b, x[0]);
      FeedInjective(Step(p), Step(q), Shift(x, 1), n - 1);
      StepInjective(p, q);
      assert a == XorBit(p, x[0]) && b == XorBit(q, x[0]);
    }
  }

  /** Different bits lead to different registers. */
  lemma ByteInjective(c: Word, a: Byte, b: Byte)
    requires Feed(c, Word32(a), 8) == Feed(c, Word32(b), 8)
    ensures a == b
  {
    hide Steps, Feed, Word32, Xor, Shift;
    FeedIsSteps(c, a);
    FeedIsSteps(c, b);
    StepsInjective(Xor(c, Word32(a)), Xor(c, Word32(b)), 8);
    XorCancel(c, Word32(a), Word32(b));
    ValueWord(a);
    ValueWord(b);
  }

  lemma FeedIsSteps(c: Word, b: Byte)
    ensures Feed(c, Word32(b), 8) == Steps(Xor(c, Word32(b)), 8)
  {
    hide Steps, Feed, Word32;
    FeedAtOnce(c, Word32(b), 8);
    ByteHigh(b);
    XorZero(Feed(c, Word32(b), 8), Shift(Word32(b), 8));
  }

  lemma {:induction false} StepsInjective(a: Word, b: Word, n: nat)
    requires Steps(a, n) == Steps(b, n)
    ensures a == b
    decreases n
  {
    hide Step;
    if n > 0 {
      StepsInjective(Step(a), Step(b), n - 1);
      StepInjective(a, b);
    }
  }

  lemma XorCancel(c: Word, a: Word, b: Word)
    requires Xor(c, a) == Xor(c, b)
    ensures a == b
  {
    forall i: nat | i < WIDTH
      ensures a[i] == b[i]
    {
      assert Xor(c, a)[i] == (c[i] != a[i]) && Xor(c, b)[i] == (c[i] != b[i]);
    }
  }

  lemma {:induction false} ValueBits(n: nat, k: nat)
    requires n < Power(k)
    ensures Value(Bits(n, k)) == n
    decreases k
  {
    if k > 0 {
      ValueBits(n / 2, k - 1);
      assert Bits(n, k)[1..] == Bits(n / 2, k - 1);
    }
  }

  lemma ValueWord(b: Byte)
    ensures Value(Word32(b)) == b
  {
    PowerGrows(8, WIDTH);
    assert Power(8) == 256 by {
      assert Power(4) == 16;
    }
    ValueBits(b, WIDTH);
  }

  lemma {:induction false} PowerGrows(k: nat, l: nat)
    requires k <= l
    ensures Power(k) <= Power(l)
    decreases l
  {
    if k < l {
      PowerGrows(k, l - 1);
    }
  }

  /** Registers that differ stay different whatever follows. */
  lemma {:induction false} RegisterApart(d: seq<Byte>, e: seq<Byte>, more: seq<Byte>)
    requires Register(d) != Register(e)
    ensures Register(d + more) != Register(e + more)
    decreases |more|
  {
    hide Feed, Word32;
    if more == [] {
      assert d + more == d && e + more == e;
    } else {
      var init, b := more[..|more| - 1], more[|more| - 1];
      assert (d + more)[..|d + more| - 1] == d + init && (e + more)[..|e + more| - 1] == e + init;
      RegisterApart(d, e, init);
      if Register(d + more) == Register(e + more) {
        FeedInjective(Register(d + init), Register(e + init), Word32(b), 8);
      }
    }
  }

  /** A change of one byte, whatever it is, never goes unnoticed. */
  lemma OneByteDetected(data: seq<Byte>, i: nat, b: Byte)
    requires i < |data| && b != data[i]
    ensures Checksum(data[i := b]) != Checksum(data)
  {
    hide Feed, Word32, Register, Xor;
    var c, rest := data[..i], data[i + 1..];
    assert data == (c + [data[i]]) + rest && data[i := b] == (c + [b]) + rest;
    RegisterOne(c, data[i]);
    RegisterOne(c, b);
    if Register(c + [data[i]]) == Register(c + [b]) {
      ByteInjective(Register(c), data[i], b);
    }
    RegisterApart(c + [data[i]], c + [b], rest);
    if Checksum(data[i := b]) == Checksum(data) {
      XorSame(Register(data[i := b]), Register(data), ONES);
    }
  }

  lemma XorSame(a: Word, b: Word, c: Word)
    requires Xor(a, c) == Xor(b, c)
    ensures a == b
  {
    forall i: nat | i < WIDTH
      ensures a[i] == b[i]
    {
      assert Xor(a, c)[i] == (a[i] != c[i]) && Xor(b, c)[i] == (b[i] != c[i]);
    }
  }

  lemma RegisterOne(c: seq<Byte>, b: Byte)
    ensures Register(c + [b]) == Feed(Register(c), Word32(b), 8)
  {
    hide Feed, Word32;
    assert (c + [b])[..|c|] == c;
  }
}
