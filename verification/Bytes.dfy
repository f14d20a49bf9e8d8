/** Byte sequences, little-endian 16-bit words inside them, and the result types that stand for the
    exceptions and error returns of the source. */
module Bytes {

  datatype Option<+T> = None | Some(value: T)

  datatype Result<+T, +E> = Ok(value: T) | Err(error: E)

  type Byte = x: int | 0 <= x < 256

  type Word = x: int | 0 <= x < 0x1_0000

  const TWO32: int := 0x1_0000_0000

  function Zeros(n: nat): (z: seq<Byte>)
    ensures |z| == n
  {
    seq(n, _ => 0)
  }

  function Min(a: nat, b: nat): nat
  {
    if a < b then a else b
  }

  lemma SmallMod(x: int, d: int)
    requires 0 <= x < d
    ensures x % d == x
  {
  }

  /** A multiple is 0 or at least as far from 0 as what it is a multiple of. */
  lemma Scaled(d: int, k: int)
    requires d > 0
    ensures k < 0 ==> d * k <= -d
    ensures k == 0 ==> d * k == 0
    ensures k == 1 ==> d * k == d
    ensures k > 1 ==> d * k >= 2 * d
  {
    if k < 0 {
      assert d * (-k - 1) >= 0;
    } else if k > 1 {
      assert d * (k - 2) >= 0;
    }
  }

  lemma Associative<T>(a: seq<T>, b: seq<T>, c: seq<T>)
    ensures (a + b) + c == a + (b + c)
  {
  }

  /** The two bytes of `v`, low byte first.  For a negative `v` this is the
      two's complement pattern, since `/` and `%` are Euclidean. */
  function WordBytes(v: int): (r: seq<Byte>)
    ensures |r| == 2
  {
    [v % 256, (v / 256) % 256]
  }

  function ReadU16(s: seq<Byte>, off: int): (r: Word)
    requires 0 <= off && off + 1 < |s|
  {
    s[off] as int + 256 * (s[off + 1] as int)
  }

  /** `s` with the bytes `b` written over the ones at `off`. */
  function Splice(s: seq<Byte>, off: nat, b: seq<Byte>): (r: seq<Byte>)
    requires off + |b| <= |s|
    ensures |r| == |s|
  {
    s[..off] + b + s[off + |b|..]
  }

  function PatchU16(s: seq<Byte>, off: nat, v: int): (r: seq<Byte>)
    requires off + 1 < |s|
    ensures |r| == |s|
  {
    Splice(s, off, WordBytes(v))
  }

  /** Only the residue modulo 2^16 of a value reaches the bytes. */
  lemma WordBytesCongruent(a: int, b: int)
    requires (a - b) % 0x1_0000 == 0
    ensures WordBytes(a) == WordBytes(b)
  {
    var q := (a - b) / 0x1_0000;
    assert a == b + 256 * (256 * q);
    assert a / 256 == b / 256 + 256 * q;
  }

  lemma ReadPatched(s: seq<Byte>, off: nat, v: int)
    requires off + 1 < |s|
    ensures ReadU16(PatchU16(s, off, v), off) == v % 0x1_0000
  {
  }

  lemma PatchOutside(s: seq<Byte>, off: nat, v: int, i: nat)
    requires off + 1 < |s| && i < |s| && !(off <= i < off + 2)
    ensures PatchU16(s, off, v)[i] == s[i]
  {
  }

  lemma SpliceTwice(s: seq<Byte>, off: nat, b: seq<Byte>, c: seq<Byte>)
    requires off + |b| + |c| <= |s|
    ensures Splice(Splice(s, off, b), off + |b|, c) == Splice(s, off, b + c)
  {
  }

  lemma SpliceNothing(s: seq<Byte>, off: nat)
    requires off <= |s|
    ensures Splice(s, off, []) == s
  {
  }

  lemma SpliceLeft(a: seq<Byte>, b: seq<Byte>, off: nat, c: seq<Byte>)
    requires off + |c| <= |a|
    ensures Splice(a + b, off, c) == Splice(a, off, c) + b
  {
  }

  lemma SpliceRight(a: seq<Byte>, b: seq<Byte>, off: nat, c: seq<Byte>)
    requires off + |c| <= |b|
    ensures Splice(a + b, |a| + off, c) == a + Splice(b, off, c)
  {
  }

  method StoreByte(data: array<Byte>, off: nat, x: Byte)
    requires off < data.Length
    modifies data
    ensures data[..] == Splice(old(data[..]), off, [x])
  {
    data[off] := x;
  }

  /** In-place form of `PatchU16`, as the assembler, the linker and the loader use it. */
  method StoreU16(data: array<Byte>, off: nat, v: int)
    requires off + 1 < data.Length
    modifies data
    ensures data[..] == PatchU16(old(data[..]), off, v)
  {
    data[off] := v % 256;
    data[off + 1] := (v / 256) % 256;
  }

  method CopyBytes(data: array<Byte>, off: nat, bytes: seq<Byte>)
    requires off + |bytes| <= data.Length
    modifies data
    ensures data[..] == Splice(old(data[..]), off, bytes)
  {
    hide Splice;
    SpliceNothing(data[..], off);
    for j := 0 to |bytes|
      invariant data[..] == Splice(old(data[..]), off, bytes[..j])
    {
      SpliceTwice(old(data[..]), off, bytes[..j], [bytes[j]]);
      assert bytes[..j] + [bytes[j]] == bytes[..j + 1];
      StoreByte(data, off + j, bytes[j]);
    }
    assert bytes[..|bytes|] == bytes;
  }
}
