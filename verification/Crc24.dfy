/**
 The CRC-24 of section 6.1.1 of RFC 9580: the table-driven computation of
 `openpgp/src/armor/crc.rs`, the bit-by-bit reference next to it, and the error
 detection both owe to the generator polynomial.

 A `u32` is the string of its 32 bits, least significant first.  Both
 computations let garbage accumulate above bit 23; `Same24` is equality modulo
 that garbage.
 */
module Crc24 {
  import opened Bytes
  import opened Iteration

  type Word = w: seq<bool> | |w| == 32 witness Zeros(32)

  const OCTET: nat := 8

  /** 0xB704CE, hexadecimal digit by hexadecimal digit. */
  const CRC24_INIT: Word := [
    false, true, true, true, false, false, true, true, false, false, true, false,
    false, false, false, false, true, true, true, false, true, true, false, true] + Zeros(8)

  /** 0x864CFB; the bit for x to the 24 is implicit. */
  const CRC24_POLY: Word := [
    true, true, false, true, true, true, true, true, false, false, true, true,
    false, false, true, false, false, true, true, false, false, false, false, true] + Zeros(8)

  predicate Same24(a: Word, b: Word) {
    forall i :: 0 <= i < 24 ==> a[i] == b[i]
  }

  function Shl(n: Word, k: nat): (r: Word)
    ensures forall i :: 0 <= i < 32 ==> r[i] == (k <= i && n[i - k])
  {
    seq(32, i requires 0 <= i < 32 => k <= i && n[i - k])
  }

  function XorWord(a: Word, b: Word): (r: Word)
    ensures forall i :: 0 <= i < 32 ==> r[i] == (a[i] != b[i])
  {
    Xor(a, b)
  }

  // ----- One bit: a GF(2)-linear map, injective modulo 2^24

  /** Multiplies by x and reduces by the polynomial, never clearing bit 24. */
  function BitStep(n: Word): Word {
    if Shl(n, 1)[24] then XorWord(Shl(n, 1), CRC24_POLY) else Shl(n, 1)
  }

  function Steps(n: Word, k: nat): Word {
    Iterate(BitStep, n, k)
  }

  lemma BitStepLinear(a: Word, b: Word)
    ensures BitStep(XorWord(a, b)) == XorWord(BitStep(a), BitStep(b))
  {
  }

  lemma StepsLinear(a: Word, b: Word, k: nat)
    ensures Steps(XorWord(a, b), k) == XorWord(Steps(a, k), Steps(b, k))
  {
    forall x, y ensures BitStep(XorWord(x, y)) == XorWord(BitStep(x), BitStep(y)) {
      BitStepLinear(x, y);
    }
    IterateHomomorphism(BitStep, XorWord, a, b, k);
  }

  lemma BitStepReflects(a: Word, b: Word)
    ensures Same24(BitStep(a), BitStep(b)) <==> Same24(a, b)
  {
    if Same24(BitStep(a), BitStep(b)) {
      assert BitStep(a)[0] == a[23] && BitStep(b)[0] == b[23];
      forall i | 0 <= i < 24 ensures a[i] == b[i] {
        if i < 23 {
          assert BitStep(a)[i + 1] == BitStep(b)[i + 1];
        }
      }
    }
  }

  /** Any number of bit steps is well defined and injective on 24-bit states. */
  lemma StepsReflect(a: Word, b: Word, k: nat)
    ensures Same24(Steps(a, k), Steps(b, k)) <==> Same24(a, b)
  {
    forall x, y ensures Same24(BitStep(x), BitStep(y)) <==> Same24(x, y) {
      BitStepReflects(x, y);
    }
    IterateReflects(BitStep, Same24, a, b, k);
  }

  /** Steps only shift while bit 23 stays clear. */
  lemma {:induction false} QuietSteps(n: Word, k: nat)
    requires forall i :: 0 <= i < 24 && 24 - k <= i ==> !n[i]
    ensures Steps(n, k) == Shl(n, k)
    decreases k
  {
    hide CRC24_POLY;
    if k > 0 {
      assert BitStep(n) == Shl(n, 1);
      QuietSteps(Shl(n, 1), k - 1);
      assert Shl(Shl(n, 1), k - 1) == Shl(n, k);
    } else {
      assert Shl(n, 0) == n;
    }
  }

  lemma StepsUnfold(n: Word, k: nat)
    ensures Steps(n, 0) == n
    ensures Steps(n, k + 1) == BitStep(Steps(n, k)) == Steps(BitStep(n), k)
  {
    IterateSum(BitStep, n, k, 1);
  }

  // ----- The bitwise reference

  /** An octet moved up by 16 bits. */
  function Lift(octet: seq<bool>): (r: Word)
    requires |octet| == 8
    ensures forall i :: 0 <= i < 32 ==> r[i] == (16 <= i < 24 && octet[i - 16])
  {
    Zeros(16) + octet + Zeros(8)
  }

  function OctetStep(n: Word, octet: byte): Word {
    Steps(XorWord(n, Lift(Bits(octet, OCTET))), OCTET)
  }

  function Bitwise(n: Word, buf: Octets): Word
    decreases |buf|
  {
    if buf == [] then n else Bitwise(OctetStep(n, buf[0]), buf[1..])
  }

  /** The 24-bit checksum, as a bit string. */
  function Checksum(buf: Octets): (r: seq<bool>)
    ensures |r| == 24
  {
    Bitwise(CRC24_INIT, buf)[..24]
  }

  lemma {:induction false} BitwiseAppend(n: Word, a: Octets, b: Octets)
    ensures Bitwise(n, a + b) == Bitwise(Bitwise(n, a), b)
    decreases |a|
  {
    if a == [] {
      assert a + b == b;
    } else {
      assert (a + b)[1..] == a[1..] + b;
      BitwiseAppend(OctetStep(n, a[0]), a[1..], b);
    }
  }

  lemma XorReflects(a: Word, b: Word, c: Word)
    ensures Same24(XorWord(a, c), XorWord(b, c)) <==> Same24(a, b)
  {
    if Same24(XorWord(a, c), XorWord(b, c)) {
      forall i | 0 <= i < 24 ensures a[i] == b[i] {
        assert XorWord(a, c)[i] == XorWord(b, c)[i];
      }
    }
  }

  /** Feeding the same octets keeps equal states equal and distinct states distinct. */
  lemma {:induction false} BitwiseReflects(a: Word, b: Word, buf: Octets)
    ensures Same24(Bitwise(a, buf), Bitwise(b, buf)) <==> Same24(a, b)
    decreases |buf|
  {
    if buf != [] {
      BitwiseReflects(OctetStep(a, buf[0]), OctetStep(b, buf[0]), buf[1..]);
      var lifted := Lift(Bits(buf[0], OCTET));
      StepsReflect(XorWord(a, lifted), XorWord(b, lifted), OCTET);
      XorReflects(a, b, lifted);
    }
  }

  method Iterative(buf: Octets) returns (r: Word)
    ensures r == Checksum(buf) + Zeros(8)
  {
    hide Bits, Lift, Iterate, XorWord, Shl, CRC24_POLY;
    var n := CRC24_INIT;
    for i := 0 to |buf|
      invariant n == Bitwise(CRC24_INIT, buf[..i])
    {
      ghost var before := n;
      n := XorWord(n, Lift(Bits(buf[i], OCTET)));
      ghost var start := n;
      StepsUnfold(start, 0);
      for k := 0 to 8
        invariant n == Steps(start, k)
      {
        StepsUnfold(start, k);
        n := Shl(n, 1);
        if n[24] {
          n := XorWord(n, CRC24_POLY);
        }
      }
      assert n == OctetStep(before, buf[i]);
      assert buf[..i + 1] == buf[..i] + [buf[i]];
      BitwiseAppend(CRC24_INIT, buf[..i], [buf[i]]);
    }
    assert buf[..|buf|] == buf;
    r := n[..24] + Zeros(8);
  }

  // ----- The table, built by doubling

  function Entry(m: nat): Word {
    Steps(Lift(Bits(m, OCTET)), OCTET)
  }

  ghost predicate Filled(t: seq<Word>, bound: nat)
    requires |t| == 256
  {
    forall m :: 0 <= m < bound && m < 256 ==> t[m] == Entry(m)
  }

  /** An entry is the entry of its top bit plus the entry of the rest. */
  lemma EntryDoubling(j: nat, k: nat)
    requires j < Pow2(k) && k < 8
    ensures Entry(Pow2(k) + j) == XorWord(Entry(Pow2(k)), Entry(j))
  {
    hide Bits, Iterate, BitStep;
    BitsTopBit(j, k, OCTET);
    var a, b := Bits(Pow2(k), OCTET), Bits(j, OCTET);
    assert Lift(Xor(a, b)) == XorWord(Lift(a), Lift(b));
    StepsLinear(Lift(a), Lift(b), OCTET);
  }

  lemma EntryOfNextBit(k: nat)
    requires k < 7
    ensures Entry(Pow2(k + 1)) == BitStep(Entry(Pow2(k)))
  {
    hide Bits, Iterate;
    var octet := Bits(Pow2(k), OCTET);
    BitsOfDouble(Pow2(k), OCTET);
    BitsOfPower(k, 8, 7);
    assert Lift(Bits(Pow2(k + 1), OCTET)) == Shl(Lift(octet), 1) == BitStep(Lift(octet));
    StepsUnfold(Lift(octet), OCTET);
  }

  lemma {:induction false} BitsOfPower(k: nat, width: nat, i: nat)
    requires k < i < width
    ensures !Bits(Pow2(k), width)[i]
    decreases k
  {
    if k == 0 {
      BitsOfZero(width - 1);
    } else {
      BitsOfPower(k - 1, width - 1, i - 1);
    }
  }

  lemma EntryOfZero()
    ensures Entry(0) == Zeros(32)
  {
    BitsOfZero(8);
    QuietSteps(Lift(Zeros(8)), OCTET);
  }

  lemma EntryOfOne(start: Word)
    requires start == Zeros(23) + [true] + Zeros(8)
    ensures Entry(1) == BitStep(start)
  {
    var octet := Bits(1, OCTET);
    assert octet[0];
    BitsOfZero(7);
    assert octet == [true] + Zeros(7);
    QuietSteps(Lift(octet), 7);
    assert Shl(Lift(octet), 7) == start;
    IterateSum(BitStep, Lift(octet), 7, 1);
  }

  method BuildTable() returns (t: array<Word>)
    ensures fresh(t) && t.Length == 256
    ensures Filled(t[..], 256)
  {
    hide Bits, Lift, Iterate, XorWord, Shl, Entry, CRC24_POLY;
    t := new Word[256](_ => Zeros(32));
    var crc: Word := Zeros(23) + [true] + Zeros(8);
    var i := 1;
    ghost var k := 0;
    EntryOfOne(crc);
    EntryOfZero();
    while true
      invariant k < 8 && i == Pow2(k) && 2 * i <= 256
      invariant BitStep(crc) == Entry(i)
      invariant Filled(t[..], i)
      decreases 256 - i
    {
      if crc[23] {
        crc := XorWord(Shl(crc, 1), CRC24_POLY);
      } else {
        crc := Shl(crc, 1);
      }
      for j := 0 to i
        invariant Filled(t[..], i + j)
      {
        assert t[..][j] == Entry(j);
        EntryDoubling(j, k);
        t[i + j] := XorWord(crc, t[j]);
      }
      i := i * 2;
      if i == 256 {
        break;
      }
      PowerBelow(k);
      EntryOfNextBit(k);
      k := k + 1;
    }
  }

  lemma PowerBelow(k: nat)
    requires k < 8 && 2 * Pow2(k) <= 256 && 2 * Pow2(k) != 256
    ensures k < 7 && 4 * Pow2(k) <= 256
  {
    assert Pow2(7) == 2 * Pow2(6) == 4 * Pow2(5) == 8 * Pow2(4) == 16 * Pow2(3) == 32 * Pow2(2) == 64 * Pow2(1) == 128;
  }

  // ----- The table-driven computation

  /** One table look-up equals eight bit steps, modulo the garbage in the high octet. */
  lemma TableStep(n: Word, octet: byte, index: seq<bool>)
    requires index == Xor(Bits(octet, OCTET), n[16..24])
    ensures Same24(XorWord(Shl(n, 8), Entry(Value(index))), OctetStep(n, octet))
  {
    hide Bits, Value, Iterate, BitStep;
    var lifted := Lift(Bits(octet, OCTET));
    var low: Word := n[..16] + Zeros(16);
    BitsOfValue(index);
    assert Same24(XorWord(n, lifted), XorWord(low, Lift(index)));
    StepsReflect(XorWord(n, lifted), XorWord(low, Lift(index)), OCTET);
    StepsLinear(low, Lift(index), OCTET);
    QuietSteps(low, OCTET);
    assert Same24(XorWord(Shl(low, 8), Entry(Value(index))), XorWord(Shl(n, 8), Entry(Value(index))));
  }

  class Crc {
    var n: Word

    constructor ()
      ensures n == CRC24_INIT
    {
      n := CRC24_INIT;
    }

    method Update(buf: Octets)
      modifies this
      ensures Same24(n, Bitwise(old(n), buf))
    {
      hide Bits, Lift, Steps, Iterate, XorWord, Xor, Shl, Entry;
      var table := BuildTable();
      for i := 0 to |buf|
        invariant Same24(n, Bitwise(old(n), buf[..i]))
        invariant Filled(table[..], 256)
      {
        ghost var before, reference := n, Bitwise(old(n), buf[..i]);
        var index := Xor(Bits(buf[i], OCTET), n[16..24]);
        assert Pow2(8) == 256;
        n := XorWord(Shl(n, 8), table[Value(index)]);
        assert table[..][Value(index)] == Entry(Value(index));
        TableStep(before, buf[i], index);
        BitwiseReflects(before, reference, [buf[i]]);
        BitwiseAppend(old(n), buf[..i], [buf[i]]);
        assert buf[..i + 1] == buf[..i] + [buf[i]];
      }
      assert buf[..|buf|] == buf;
    }

    function Finalize(): (r: Word)
      reads this
    {
      n[..24] + Zeros(8)
    }
  }

  /** However the data is cut into updates, the table yields the bitwise checksum. */
  method ChecksumOf(chunks: seq<Octets>) returns (r: Word)
    ensures r == Checksum(Concat(chunks)) + Zeros(8)
  {
    var crc := new Crc();
    for i := 0 to |chunks|
      invariant Same24(crc.n, Bitwise(CRC24_INIT, Concat(chunks[..i])))
    {
      ghost var before := crc.n;
      crc.Update(chunks[i]);
      ChecksumExtends(before, Concat(chunks[..i]), chunks[i], crc.n);
      ConcatOne(chunks, i);
    }
    assert chunks[..|chunks|] == chunks;
    r := crc.Finalize();
  }

  lemma ChecksumExtends(before: Word, sofar: Octets, chunk: Octets, after: Word)
    requires Same24(before, Bitwise(CRC24_INIT, sofar))
    requires Same24(after, Bitwise(before, chunk))
    ensures Same24(after, Bitwise(CRC24_INIT, sofar + chunk))
  {
    BitwiseReflects(before, Bitwise(CRC24_INIT, sofar), chunk);
    BitwiseAppend(CRC24_INIT, sofar, chunk);
  }

  // ----- Error detection

  /** The bits of an octet, the most significant first, as they enter the checksum. */
  function MsbFirst(octet: byte): (r: seq<bool>)
    ensures |r| == 8
  {
    seq(8, i requires 0 <= i < 8 => Bits(octet, OCTET)[7 - i])
  }

  function MessageBits(buf: Octets): (r: seq<bool>)
    ensures |r| == 8 * |buf|
  {
    if buf == [] then [] else MsbFirst(buf[0]) + MessageBits(buf[1..])
  }

  /** Up to 24 bits, aligned to the top of a 24-bit word. */
  function Pack(bits: seq<bool>): (r: Word)
    requires |bits| <= 24
    ensures forall i :: 0 <= i < 32 ==> r[i] == (i < 24 && 23 - i < |bits| && bits[23 - i])
  {
    seq(32, i requires 0 <= i < 32 => i < 24 && 23 - i < |bits| && bits[23 - i])
  }

  /** The checksum, one bit at a time. */
  function Serial(n: Word, bits: seq<bool>): Word
    decreases |bits|
  {
    if bits == [] then n else Serial(BitStep(XorWord(n, Pack([bits[0]]))), bits[1..])
  }

  /** Feeding at most 24 bits is the same as xoring them in at once and stepping. */
  lemma {:induction false} SerialAtOnce(n: Word, bits: seq<bool>)
    requires |bits| <= 24
    ensures Serial(n, bits) == Steps(XorWord(n, Pack(bits)), |bits|)
    decreases |bits|
  {
    hide Iterate, BitStep;
    if bits == [] {
      assert XorWord(n, Pack(bits)) == n;
      StepsUnfold(n, 0);
    } else {
      var first, rest := XorWord(n, Pack([bits[0]])), bits[1..];
      var below: Word := Pack(rest)[1..] + [false];
      calc {
        Serial(n, bits);
        { SerialAtOnce(BitStep(first), rest); }
        Steps(XorWord(BitStep(first), Pack(rest)), |rest|);
        { ShiftedUp(rest, below); }
        Steps(XorWord(BitStep(first), BitStep(below)), |rest|);
        { BitStepLinear(first, below); }
        Steps(BitStep(XorWord(first, below)), |rest|);
        { assert XorWord(first, below) == XorWord(n, Pack(bits)); }
        Steps(BitStep(XorWord(n, Pack(bits))), |rest|);
        { StepsUnfold(XorWord(n, Pack(bits)), |rest|); }
        Steps(XorWord(n, Pack(bits)), |bits|);
      }
    }
  }

  lemma ShiftedUp(rest: seq<bool>, below: Word)
    requires |rest| <= 23 && below == Pack(rest)[1..] + [false]
    ensures BitStep(below) == Pack(rest)
  {
    hide Iterate;
    QuietSteps(below, 1);
    StepsUnfold(below, 0);
    assert Shl(below, 1) == Pack(rest);
  }

  lemma {:induction false} SerialAppend(n: Word, a: seq<bool>, b: seq<bool>)
    ensures Serial(n, a + b) == Serial(Serial(n, a), b)
    decreases |a|
  {
    hide BitStep, XorWord;
    if a == [] {
      assert a + b == b;
    } else {
      assert (a + b)[1..] == a[1..] + b;
      SerialAppend(BitStep(XorWord(n, Pack([a[0]]))), a[1..], b);
    }
  }

  lemma {:induction false} SerialReflects(a: Word, b: Word, bits: seq<bool>)
    ensures Same24(Serial(a, bits), Serial(b, bits)) <==> Same24(a, b)
    decreases |bits|
  {
    hide BitStep, XorWord, Same24;
    if bits != [] {
      var c := Pack([bits[0]]);
      XorReflects(a, b, c);
      BitStepReflects(XorWord(a, c), XorWord(b, c));
      SerialReflects(BitStep(XorWord(a, c)), BitStep(XorWord(b, c)), bits[1..]);
    }
  }

  /** The checksum takes the bits of the message in order. */
  lemma {:induction false} BitwiseIsSerial(n: Word, buf: Octets)
    ensures Bitwise(n, buf) == Serial(n, MessageBits(buf))
    decreases |buf|
  {
    hide Serial, Steps, Bits, XorWord;
    if buf == [] {
      NoBits(n);
    } else {
      var octet := MsbFirst(buf[0]);
      assert Pack(octet) == Lift(Bits(buf[0], OCTET));
      SerialAtOnce(n, octet);
      SerialAppend(n, octet, MessageBits(buf[1..]));
      BitwiseIsSerial(OctetStep(n, buf[0]), buf[1..]);
    }
  }

  lemma NoBits(n: Word)
    ensures Serial(n, []) == n
  {
  }

  lemma {:induction false} MessageBitsInjective(a: Octets, b: Octets)
    requires MessageBits(a) == MessageBits(b)
    ensures a == b
    decreases |a|
  {
    hide Bits, Value;
    if a != [] {
      var x, y := MessageBits(a), MessageBits(b);
      assert MsbFirst(a[0]) == x[..8] == y[..8] == MsbFirst(b[0]);
      assert MessageBits(a[1..]) == x[8..] == y[8..] == MessageBits(b[1..]);
      var p, q := Bits(a[0], OCTET), Bits(b[0], OCTET);
      forall i | 0 <= i < 8 ensures p[i] == q[i] {
        assert p[i] == MsbFirst(a[0])[7 - i] && q[i] == MsbFirst(b[0])[7 - i];
      }
      assert p == q && Pow2(8) == 256;
      ValueOfBits(a[0], OCTET);
      ValueOfBits(b[0], OCTET);
      MessageBitsInjective(a[1..], b[1..]);
    }
  }

  lemma PackInjective(n: Word, x: seq<bool>, y: seq<bool>)
    requires |x| == |y| <= 24
    requires Same24(XorWord(n, Pack(x)), XorWord(n, Pack(y)))
    ensures x == y
  {
    var a, b := XorWord(n, Pack(x)), XorWord(n, Pack(y));
    forall k | 0 <= k < |x| ensures x[k] == y[k] {
      assert a[23 - k] == b[23 - k];
    }
  }

  /**
   Two messages that differ only inside one window of 24 bits, wherever it starts,
   have the same checksum exactly if they are the same.
   */
  lemma BurstDetected(a: Octets, b: Octets, before: seq<bool>, x: seq<bool>, y: seq<bool>, after: seq<bool>)
    requires MessageBits(a) == before + x + after && MessageBits(b) == before + y + after
    requires |x| == |y| <= 24
    ensures Checksum(a) == Checksum(b) <==> a == b
  {
    hide Bits, Steps, XorWord, BitStep, Pack, Serial, Bitwise, MessageBits;
    var n := Serial(CRC24_INIT, before);
    BitwiseIsSerial(CRC24_INIT, a);
    BitwiseIsSerial(CRC24_INIT, b);
    SerialAppend(CRC24_INIT, before + x, after);
    SerialAppend(CRC24_INIT, before + y, after);
    SerialAppend(CRC24_INIT, before, x);
    SerialAppend(CRC24_INIT, before, y);
    SerialReflects(Serial(n, x), Serial(n, y), after);
    SerialAtOnce(n, x);
    SerialAtOnce(n, y);
    StepsReflect(XorWord(n, Pack(x)), XorWord(n, Pack(y)), |x|);
    if Checksum(a) == Checksum(b) {
      PackInjective(n, x, y);
      MessageBitsInjective(a, b);
    }
  }

  lemma {:induction false} MessageBitsAppend(a: Octets, b: Octets)
    ensures MessageBits(a + b) == MessageBits(a) + MessageBits(b)
    decreases |a|
  {
    hide MsbFirst;
    if a == [] {
      assert a + b == b;
    } else {
      assert (a + b)[1..] == a[1..] + b;
      MessageBitsAppend(a[1..], b);
    }
  }

  /** In particular if they differ only inside three consecutive octets. */
  lemma OctetsDetected(before: Octets, x: Octets, y: Octets, after: Octets)
    requires |x| == |y| <= 3
    ensures Checksum(before + x + after) == Checksum(before + y + after) <==> x == y
  {
    hide MessageBits, Checksum;
    MessageBitsAppend(before + x, after);
    MessageBitsAppend(before, x);
    MessageBitsAppend(before + y, after);
    MessageBitsAppend(before, y);
    BurstDetected(before + x + after, before + y + after,
                  MessageBits(before), MessageBits(x), MessageBits(y), MessageBits(after));
    if before + x + after == before + y + after {
      assert (before + x + after)[|before|..|before| + |x|] == x && (before + y + after)[|before|..|before| + |y|] == y;
    }
  }

  /** Whether an odd number of bits is set. */
  function Odd(bits: seq<bool>): bool {
    if bits == [] then false else bits[0] != Odd(bits[1..])
  }

  function OddWord(n: Word): bool {
    Odd(n[..24])
  }

  /** The number of bit positions in which two messages of one length differ. */
  function FlippedBits(a: Octets, b: Octets): nat
    requires |a| == |b|
  {
    if a == [] then 0
    else CountOnes(Xor(Bits(a[0], OCTET), Bits(b[0], OCTET))) + FlippedBits(a[1..], b[1..])
  }

  function CountOnes(bits: seq<bool>): nat {
    if bits == [] then 0 else (if bits[0] then 1 else 0) + CountOnes(bits[1..])
  }

  lemma {:induction false} OddIsOddCount(bits: seq<bool>)
    ensures Odd(bits) <==> CountOnes(bits) % 2 == 1
  {
    if bits != [] {
      OddIsOddCount(bits[1..]);
    }
  }

  lemma {:induction false} OddXor(a: seq<bool>, b: seq<bool>)
    requires |a| == |b|
    ensures Odd(Xor(a, b)) == (Odd(a) != Odd(b))
  {
    if a != [] {
      assert Xor(a, b)[1..] == Xor(a[1..], b[1..]);
      OddXor(a[1..], b[1..]);
    }
  }

  lemma {:induction false} OddAppend(a: seq<bool>, b: seq<bool>)
    ensures Odd(a + b) == (Odd(a) != Odd(b))
  {
    if a == [] {
      assert a + b == b;
    } else {
      assert (a + b)[1..] == a[1..] + b;
      OddAppend(a[1..], b);
    }
  }

  lemma PolynomialParity()
    ensures OddWord(CRC24_POLY)
  {
    hide Odd;
    var a, b := [true, true, false, true, true, true], [true, true, false, false, true, true];
    var c, d := [false, false, true, false, false, true], [true, false, false, false, false, true];
    assert CRC24_POLY[..24] == (a + b) + (c + d);
    OddAppend(a + b, c + d);
    OddAppend(a, b);
    OddAppend(c, d);
    OddOfSix(a);
    OddOfSix(b);
    OddOfSix(c);
    OddOfSix(d);
  }

  lemma OddOfSix(p: seq<bool>)
    requires |p| == 6
    ensures Odd(p) == (p[0] != (p[1] != (p[2] != (p[3] != (p[4] != p[5])))))
  {
    hide Odd;
    OddOfTwo(p);
    OddOfTwo(p[2..]);
    OddOfTwo(p[4..]);
    assert p[2..][2..] == p[4..] && p[4..][2..] == p[6..];
    OddOfNone(p[6..]);
  }

  lemma OddOfTwo(p: seq<bool>)
    requires |p| >= 2
    ensures Odd(p) == (p[0] != (p[1] != Odd(p[2..])))
  {
    assert p[1..][1..] == p[2..];
  }

  lemma OddOfNone(p: seq<bool>)
    requires p == []
    ensures !Odd(p)
  {
  }

  lemma BitStepKeepsParity(n: Word)
    ensures OddWord(BitStep(n)) == OddWord(n)
  {
    PolynomialParity();
    assert n[..24] == n[..23] + [n[23]];
    OddAppend(n[..23], [n[23]]);
    assert Shl(n, 1)[..24] == [false] + n[..23];
    if n[23] {
      assert BitStep(n)[..24] == Xor(Shl(n, 1)[..24], CRC24_POLY[..24]);
      OddXor(Shl(n, 1)[..24], CRC24_POLY[..24]);
    }
  }

  lemma StepsKeepParity(n: Word, k: nat)
    ensures OddWord(Steps(n, k)) == OddWord(n)
  {
    forall x ensures OddWord(BitStep(x)) == OddWord(x) {
      BitStepKeepsParity(x);
    }
    IterateInvariant(BitStep, OddWord, n, k);
  }

  lemma LiftParity(n: Word, octet: seq<bool>)
    requires |octet| == 8
    ensures OddWord(XorWord(n, Lift(octet))) == (OddWord(n) != Odd(octet))
  {
    assert XorWord(n, Lift(octet))[..24] == Xor(n[..24], Lift(octet)[..24]);
    OddXor(n[..24], Lift(octet)[..24]);
    assert Lift(octet)[..24] == Zeros(16) + octet;
    OddAppend(Zeros(16), octet);
    OddZeros(16);
  }

  lemma {:induction false} OddZeros(k: nat)
    ensures !Odd(Zeros(k))
  {
    if k > 0 {
      assert Zeros(k)[1..] == Zeros(k - 1);
      OddZeros(k - 1);
    }
  }

  lemma {:induction false} BitwiseParity(n: Word, m: Word, a: Octets, b: Octets)
    requires |a| == |b|
    ensures (OddWord(Bitwise(n, a)) != OddWord(Bitwise(m, b)))
         == ((OddWord(n) != OddWord(m)) != (FlippedBits(a, b) % 2 == 1))
    decreases |a|
  {
    hide Bits, Steps, XorWord, Xor, Lift, BitStep, Odd, OddWord, CountOnes;
    if a != [] {
      BitwiseParity(OctetStep(n, a[0]), OctetStep(m, b[0]), a[1..], b[1..]);
      var x, y := Bits(a[0], OCTET), Bits(b[0], OCTET);
      StepsKeepParity(XorWord(n, Lift(x)), OCTET);
      StepsKeepParity(XorWord(m, Lift(y)), OCTET);
      LiftParity(n, x);
      LiftParity(m, y);
      OddXor(x, y);
      OddIsOddCount(Xor(x, y));
    }
  }

  /** Because x + 1 divides the polynomial, any odd number of flipped bits changes the checksum. */
  lemma OddErrorDetected(a: Octets, b: Octets)
    requires |a| == |b| && FlippedBits(a, b) % 2 == 1
    ensures Checksum(a) != Checksum(b)
  {
    BitwiseParity(CRC24_INIT, CRC24_INIT, a, b);
  }
}
