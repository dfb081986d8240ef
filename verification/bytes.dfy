/** Bytes and the little-endian numbers stored in them. */
module Bytes {

  type Byte = x: int | 0 <= x < 256

  /** The number stored in four bytes, least significant first. */
  function FromLe32(b0: Byte, b1: Byte, b2: Byte, b3: Byte): nat {
    b0 as int + 0x100 * (b1 as int + 0x100 * (b2 as int + 0x100 * b3 as int))
  }

  lemma FromToLe32(v: nat)
    requires v < 0x1_0000_0000
    ensures v / 0x100 / 0x100 / 0x100 < 0x100
    ensures FromLe32(v % 0x100, v / 0x100 % 0x100, v / 0x100 / 0x100 % 0x100, v / 0x100 / 0x100 / 0x100) == v
  {
    var v1 := v / 0x100;
    var v2 := v1 / 0x100;
    assert v2 < 0x1_0000;
  }

  /** The `i`-th 32-bit word of a buffer. */
  function Word(b: seq<Byte>, i: nat): nat
    requires 4 * i + 4 <= |b|
  {
    FromLe32(b[4 * i], b[4 * i + 1], b[4 * i + 2], b[4 * i + 3])
  }

  function PutWord(b: seq<Byte>, i: nat, v: nat): (r: seq<Byte>)
    requires 4 * i + 4 <= |b| && v < 0x1_0000_0000
    ensures |r| == |b|
  {
    var v1 := v / 0x100;
    var v2 := v1 / 0x100;
    b[4 * i := v % 0x100][4 * i + 1 := v1 % 0x100][4 * i + 2 := v2 % 0x100][4 * i + 3 := v2 / 0x100]
  }

  lemma WordPut(b: seq<Byte>, i: nat, v: nat, j: nat)
    requires 4 * i + 4 <= |b| && 4 * j + 4 <= |b| && v < 0x1_0000_0000
    ensures Word(PutWord(b, i, v), j) == if i == j then v else Word(b, j)
  {
    if i == j {
      FromToLe32(v);
    } else {
      hide FromLe32;
      assert 4 * i + 3 < 4 * j || 4 * j + 3 < 4 * i;
    }
  }

  function Zeros(n: nat): (z: seq<Byte>)
    ensures |z| == n && forall i | 0 <= i < n :: z[i] == 0
  {
    seq(n, _ => 0)
  }

  /** `b` with `data` copied to offset `at`. */
  function Splice(b: seq<Byte>, at: nat, data: seq<Byte>): (r: seq<Byte>)
    requires at + |data| <= |b|
    ensures |r| == |b|
    ensures forall i | 0 <= i < |b| :: r[i] == if at <= i < at + |data| then data[i - at] else b[i]
  {
    b[..at] + data + b[at + |data|..]
  }
}
