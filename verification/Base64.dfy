/**
 The base64 encoding of section 4 of RFC 4648, as the armor code uses it through
 the `base64` crate: padded output, canonical padding and zero trailing bits on
 input.
 */
module Base64 {
  import opened Bytes

  const PAD: byte := 61

  datatype Decoded = Valid(data: Octets) | Invalid

  predicate IsBase64Char(b: byte) {
    65 <= b <= 90 || 97 <= b <= 122 || 48 <= b <= 57 || b == 43 || b == 47
  }

  type Sextet = i: int | 0 <= i < 64

  function Digit(i: Sextet): (b: byte)
    ensures IsBase64Char(b)
    ensures Undigit(b) == i
  {
    if i < 26 then 65 + i
    else if i < 52 then 97 + (i - 26)
    else if i < 62 then 48 + (i - 52)
    else if i == 62 then 43
    else 47
  }

  function Undigit(b: byte): (i: Sextet)
    requires IsBase64Char(b)
  {
    if 65 <= b <= 90 then b - 65
    else if 97 <= b <= 122 then b - 97 + 26
    else if 48 <= b <= 57 then b - 48 + 52
    else if b == 43 then 62
    else 63
  }

  lemma DigitOfUndigit(b: byte)
    requires IsBase64Char(b)
    ensures Digit(Undigit(b)) == b
  {
  }

  /** One quad for one to three octets. */
  function EncodeQuad(d: Octets): (q: Octets)
    requires 1 <= |d| <= 3
    ensures |q| == 4
    ensures IsBase64Char(q[0]) && IsBase64Char(q[1])
    ensures if |d| >= 2 then IsBase64Char(q[2]) else q[2] == PAD
    ensures if |d| == 3 then IsBase64Char(q[3]) else q[3] == PAD
  {
    var d1 := if |d| >= 2 then d[1] else 0;
    var d2 := if |d| == 3 then d[2] else 0;
    [ Digit(d[0] / 4),
      Digit(d[0] % 4 * 16 + d1 / 16),
      if |d| >= 2 then Digit(d1 % 16 * 4 + d2 / 64) else PAD,
      if |d| == 3 then Digit(d2 % 64) else PAD ]
  }

  function DecodeQuad(q: Octets): (r: Decoded)
    requires |q| == 4
  {
    if !IsBase64Char(q[0]) || !IsBase64Char(q[1]) then Invalid
    else
      var a, b := Undigit(q[0]), Undigit(q[1]);
      if q[2] == PAD && q[3] == PAD then
        if b % 16 == 0 then Valid([a * 4 + b / 16]) else Invalid
      else if !IsBase64Char(q[2]) then Invalid
      else
        var c := Undigit(q[2]);
        if q[3] == PAD then
          if c % 4 == 0 then Valid([a * 4 + b / 16, b % 16 * 16 + c / 4]) else Invalid
        else if !IsBase64Char(q[3]) then Invalid
        else Valid([a * 4 + b / 16, b % 16 * 16 + c / 4, c % 4 * 64 + Undigit(q[3])])
  }

  lemma Halves(x: nat, y: nat, n: nat)
    requires n in {4, 16, 64} && y < n
    ensures (x * n + y) / n == x && (x * n + y) % n == y
  {
  }

  /** Four sextets and three octets are the same 24 bits. */
  lemma Regroup(a: Sextet, b: Sextet, c: Sextet, e: Sextet, d0: byte, d1: byte, d2: byte)
    ensures (d0 == a * 4 + b / 16 && d1 == b % 16 * 16 + c / 4 && d2 == c % 4 * 64 + e)
       <==> (a == d0 / 4 && b == d0 % 4 * 16 + d1 / 16 && c == d1 % 16 * 4 + d2 / 64 && e == d2 % 64)
  {
    if d0 == a * 4 + b / 16 && d1 == b % 16 * 16 + c / 4 && d2 == c % 4 * 64 + e {
      Halves(a, b / 16, 4);
      Halves(b % 16, c / 4, 16);
      Halves(c % 4, e, 64);
    }
    if a == d0 / 4 && b == d0 % 4 * 16 + d1 / 16 && c == d1 % 16 * 4 + d2 / 64 && e == d2 % 64 {
      Halves(d0 % 4, d1 / 16, 16);
      Halves(d1 % 16, d2 / 64, 4);
    }
  }

  lemma PadIsNoDigit()
    ensures !IsBase64Char(PAD)
  {
  }

  /** A quad decodes to exactly the octets it encodes. */
  lemma QuadIff(q: Octets, d: Octets)
    requires |q| == 4 && 1 <= |d| <= 3
    ensures DecodeQuad(q) == Valid(d) <==> q == EncodeQuad(d)
  {
    hide Digit, Undigit, IsBase64Char;
    PadIsNoDigit();
    if IsBase64Char(q[0]) && IsBase64Char(q[1]) {
      var a, b := Undigit(q[0]), Undigit(q[1]);
      DigitOfUndigit(q[0]);
      DigitOfUndigit(q[1]);
      if q[2] == PAD && q[3] == PAD {
        Regroup(a, b, 0, 0, d[0], 0, 0);
      } else if IsBase64Char(q[2]) {
        var c := Undigit(q[2]);
        DigitOfUndigit(q[2]);
        if q[3] == PAD && |d| >= 2 {
          Regroup(a, b, c, 0, d[0], d[1], 0);
        } else if IsBase64Char(q[3]) && |d| == 3 {
          DigitOfUndigit(q[3]);
          Regroup(a, b, c, Undigit(q[3]), d[0], d[1], d[2]);
        }
      }
    }
  }

  function Encode(d: Octets): (t: Octets)
    ensures |t| == EncodedSize(|d|)
  {
    if |d| == 0 then []
    else if |d| <= 3 then EncodeQuad(d)
    else
      assert QuadCount(|d|) == 1 + QuadCount(|d| - 3);
      EncodeQuad(d[..3]) + Encode(d[3..])
  }

  /** The number of base64 characters that `s` octets take. */
  function EncodedSize(s: nat): nat {
    QuadCount(s) * 4
  }

  function QuadCount(s: nat): nat {
    (s + 3 - 1) / 3
  }

  function Decode(t: Octets): (r: Decoded)
  {
    if |t| == 0 then Valid([])
    else if |t| < 4 then Invalid
    else
      var head := DecodeQuad(t[..4]);
      if |t| == 4 then head
      else
        var tail := Decode(t[4..]);
        if head.Valid? && |head.data| == 3 && tail.Valid? then Valid(head.data + tail.data) else Invalid
  }

  /** Decoding succeeds on exactly the canonical encodings, and inverts them. */
  lemma {:induction false} DecodeIff(t: Octets, d: Octets)
    ensures Decode(t) == Valid(d) <==> t == Encode(d)
    decreases |t| + |d|
  {
    if |t| <= 4 && |d| <= 3 {
      if |t| == 4 && |d| > 0 {
        assert t[..4] == t;
        QuadIff(t, d);
      }
    } else if |t| > 4 && |d| > 3 {
      DecodeIff(t[4..], d[3..]);
      DecodeLonger(t, d);
    } else if |t| > 4 {
      if Decode(t).Valid? {
        DecodeIff(t[4..], []);
      }
    } else {
      assert |Encode(d)| > 4;
    }
  }

  lemma DecodeLonger(t: Octets, d: Octets)
    requires |t| > 4 && |d| > 3
    requires Decode(t[4..]) == Valid(d[3..]) <==> t[4..] == Encode(d[3..])
    ensures Decode(t) == Valid(d) <==> t == Encode(d)
  {
    hide DecodeQuad, EncodeQuad;
    QuadIff(t[..4], d[..3]);
    var head, tail := DecodeQuad(t[..4]), Decode(t[4..]);
    assert t == t[..4] + t[4..] && d == d[..3] + d[3..];
    if Decode(t) == Valid(d) {
      assert head.data == (head.data + tail.data)[..3] && tail.data == (head.data + tail.data)[3..];
    }
    if t == Encode(d) {
      assert Encode(d)[..4] == EncodeQuad(d[..3]) && Encode(d)[4..] == Encode(d[3..]);
    }
  }

  lemma {:induction false} EncodeAppend(a: Octets, b: Octets)
    requires |a| % 3 == 0
    ensures Encode(a + b) == Encode(a) + Encode(b)
    decreases |a|
  {
    if a == [] {
      assert a + b == b;
    } else if b == [] {
      assert a + b == a;
    } else {
      assert (a + b)[..3] == a[..3] && (a + b)[3..] == a[3..] + b;
      EncodeAppend(a[3..], b);
      if |a| == 3 {
        assert a[3..] == [];
      }
    }
  }
}
