/** Octets, bit strings and byte strings, shared by the stream and codec models. */
module Bytes {

  type byte = b: int | 0 <= b < 256

  type Octets = seq<byte>

  datatype Option<T> = None | Some(value: T)

  function Min(a: int, b: int): (m: int)
    ensures m == a || m == b
  {
    if a <= b then a else b
  }

  function Max(a: int, b: int): int {
    if a >= b then a else b
  }

  /** The concatenation of a sequence of chunks. */
  function Concat<T>(chunks: seq<seq<T>>): seq<T> {
    if chunks == [] then [] else Concat(chunks[..|chunks| - 1]) + chunks[|chunks| - 1]
  }

  lemma ConcatOne<T>(chunks: seq<seq<T>>, i: nat)
    requires i < |chunks|
    ensures Concat(chunks[..i + 1]) == Concat(chunks[..i]) + chunks[i]
  {
    assert chunks[..i + 1][..i] == chunks[..i];
  }

  lemma Cancel(a: Octets, x: Octets, y: Octets)
    ensures a + x == a + y <==> x == y
  {
    assert (a + x)[|a|..] == x && (a + y)[|a|..] == y;
  }

  // ----- Bit strings, least significant bit first

  function Zeros(width: nat): (r: seq<bool>)
    ensures |r| == width
    ensures forall i :: 0 <= i < width ==> !r[i]
  {
    seq(width, _ => false)
  }

  function Xor(a: seq<bool>, b: seq<bool>): (r: seq<bool>)
    requires |a| == |b|
    ensures |r| == |a|
    ensures forall i :: 0 <= i < |a| ==> r[i] == (a[i] != b[i])
  {
    seq(|a|, i requires 0 <= i < |a| => a[i] != b[i])
  }

  function Pow2(k: nat): (r: nat)
    ensures r > 0
  {
    if k == 0 then 1 else 2 * Pow2(k - 1)
  }

  /** The low `width` bits of a number. */
  function Bits(v: nat, width: nat): (r: seq<bool>)
    ensures |r| == width
    decreases width
  {
    if width == 0 then [] else [v % 2 == 1] + Bits(v / 2, width - 1)
  }

  function Value(bits: seq<bool>): (v: nat)
    ensures v < Pow2(|bits|)
  {
    if bits == [] then 0 else (if bits[0] then 1 else 0) + 2 * Value(bits[1..])
  }

  lemma {:induction false} BitsOfValue(bits: seq<bool>)
    ensures Bits(Value(bits), |bits|) == bits
  {
    if bits != [] {
      BitsOfValue(bits[1..]);
      assert Value(bits) / 2 == Value(bits[1..]);
    }
  }

  lemma {:induction false} ValueOfBits(v: nat, width: nat)
    requires v < Pow2(width)
    ensures Value(Bits(v, width)) == v
    decreases width
  {
    if width > 0 {
      ValueOfBits(v / 2, width - 1);
      assert Bits(v, width)[1..] == Bits(v / 2, width - 1);
    }
  }

  /** Adding a new top bit to a smaller number is an exclusive or. */
  lemma {:induction false} BitsTopBit(j: nat, k: nat, width: nat)
    requires j < Pow2(k) && k < width
    ensures Bits(Pow2(k) + j, width) == Xor(Bits(Pow2(k), width), Bits(j, width))
    decreases k
  {
    if k == 0 {
      assert Pow2(k) + j == 1 && j == 0;
      BitsOfZero(width);
    } else {
      BitsTopBit(j / 2, k - 1, width - 1);
      assert (Pow2(k) + j) / 2 == Pow2(k - 1) + j / 2 && Pow2(k) / 2 == Pow2(k - 1);
      assert (Pow2(k) + j) % 2 == j % 2 && Pow2(k) % 2 == 0;
    }
  }

  lemma {:induction false} BitsOfZero(width: nat)
    ensures Bits(0, width) == Zeros(width)
  {
    if width > 0 {
      BitsOfZero(width - 1);
    }
  }

  lemma {:induction false} BitsOfDouble(v: nat, width: nat)
    requires width > 0
    ensures Bits(2 * v, width) == [false] + Bits(v, width)[..width - 1]
    decreases width
  {
    if width > 1 {
      BitsPrefix(v, width - 1);
    }
  }

  lemma {:induction false} BitsPrefix(v: nat, width: nat)
    ensures Bits(v, width + 1)[..width] == Bits(v, width)
    decreases width
  {
    if width > 0 {
      BitsPrefix(v / 2, width - 1);
    }
  }
}
