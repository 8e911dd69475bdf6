/**
 The serialization of S-expressions in `ipc/src/sexp.rs`, and a decoder that is its
 exact inverse: serialized expressions can be told apart, wherever they stand.
 */
module Sexp {
  import opened Bytes

  datatype Sexp = String(text: Octets, hint: Option<Octets>) | List(items: seq<Sexp>)

  const OPEN: byte := 40
  const CLOSE: byte := 41
  const COLON: byte := 58
  const BRACKET: byte := 91
  const UNBRACKET: byte := 93

  // ----- Lengths in decimal

  function Decimal(n: nat): (d: Octets)
    ensures d != []
  {
    if n < 10 then [(48 + n) as byte] else Decimal(n / 10) + [(48 + n % 10) as byte]
  }

  predicate IsDigit(b: byte) {
    48 <= b <= 57
  }

  /** Digits without leading zeros. */
  predicate IsDecimal(d: Octets) {
    d != [] && (forall b :: b in d ==> IsDigit(b)) && (|d| > 1 ==> d[0] != 48)
  }

  function Number(d: Octets): nat
    requires forall b :: b in d ==> IsDigit(b)
  {
    if d == [] then 0
    else
      assert d[|d| - 1] in d && IsDigit(d[|d| - 1]);
      Number(d[..|d| - 1]) * 10 + (d[|d| - 1] as int - 48)
  }

  lemma {:induction false} NumberOfDecimal(n: nat)
    ensures IsDecimal(Decimal(n)) && Number(Decimal(n)) == n
    ensures n > 0 ==> Decimal(n)[0] != 48
  {
    if n >= 10 {
      NumberOfDecimal(n / 10);
      var d := Decimal(n);
      assert d[..|d| - 1] == Decimal(n / 10);
    }
  }

  lemma {:induction false} DecimalOfNumber(d: Octets)
    requires IsDecimal(d)
    ensures Decimal(Number(d)) == d && (Number(d) == 0 ==> d == [48])
    decreases |d|
  {
    var n := |d| - 1;
    assert d[n] in d && d == d[..n] + [d[n]];
    if n == 0 {
      assert Number(d[..0]) == 0;
    } else {
      hide Number, Decimal;
      DecimalOfNumber(d[..n]);
      NumberUnfold(d);
      DigitBehind(Number(d[..n]), d[n] as int - 48);
    }
  }

  lemma NumberUnfold(d: Octets)
    requires IsDecimal(d)
    ensures Number(d) == Number(d[..|d| - 1]) * 10 + (d[|d| - 1] as int - 48)
  {
  }

  /** One more digit. */
  lemma DigitBehind(n: nat, digit: nat)
    requires n > 0 && digit < 10
    ensures Decimal(n * 10 + digit) == Decimal(n) + [(48 + digit) as byte]
  {
    assert (n * 10 + digit) / 10 == n && (n * 10 + digit) % 10 == digit;
  }

  function DigitCount(t: Octets): (k: nat)
    ensures k <= |t| && (forall b :: b in t[..k] ==> IsDigit(b)) && (k < |t| ==> !IsDigit(t[k]))
  {
    if t == [] || !IsDigit(t[0]) then 0
    else
      var k := DigitCount(t[1..]);
      assert t[..1 + k] == [t[0]] + t[1..][..k];
      1 + k
  }

  lemma {:induction false} CountDigits(d: Octets, r: Octets)
    requires forall b :: b in d ==> IsDigit(b)
    ensures DigitCount(d + [COLON] + r) == |d|
    decreases |d|
  {
    var t := d + [COLON] + r;
    if d != [] {
      assert t[1..] == d[1..] + [COLON] + r;
      CountDigits(d[1..], r);
    }
  }

  /** Reads a length and the colon after it. */
  function ReadLength(t: Octets): Option<(nat, Octets)> {
    var k := DigitCount(t);
    if k < |t| && t[k] == COLON && IsDecimal(t[..k]) then Some((Number(t[..k]), t[k + 1..])) else None
  }

  lemma ReadLengthIff(t: Octets, n: nat, r: Octets)
    ensures ReadLength(t) == Some((n, r)) <==> t == Decimal(n) + [COLON] + r
  {
    var k := DigitCount(t);
    if t == Decimal(n) + [COLON] + r {
      NumberOfDecimal(n);
      CountDigits(Decimal(n), r);
      assert t[..k] == Decimal(n) && t[k + 1..] == r;
    }
    if ReadLength(t) == Some((n, r)) {
      DecimalOfNumber(t[..k]);
      assert t == t[..k] + [COLON] + t[k + 1..];
    }
  }

  // ----- Strings

  function Verbatim(s: Octets): Octets {
    Decimal(|s|) + [COLON] + s
  }

  function ReadVerbatim(t: Octets): (r: Option<(Octets, Octets)>)
    ensures r.Some? ==> |r.value.1| < |t|
  {
    var length := ReadLength(t);
    if length.None? || |length.value.1| < length.value.0 then None
    else Some((length.value.1[..length.value.0], length.value.1[length.value.0..]))
  }

  lemma ReadVerbatimIff(t: Octets, s: Octets, r: Octets)
    ensures ReadVerbatim(t) == Some((s, r)) <==> t == Verbatim(s) + r
  {
    hide ReadLength, Decimal;
    ReadLengthIff(t, |s|, s + r);
    assert Verbatim(s) + r == Decimal(|s|) + [COLON] + (s + r);
    if ReadVerbatim(t) == Some((s, r)) {
      var length := ReadLength(t).value;
      assert length.1 == s + r;
    }
    if t == Verbatim(s) + r {
      assert (s + r)[..|s|] == s && (s + r)[|s|..] == r;
    }
  }

  // ----- Expressions

  function Serialize(e: Sexp): (t: Octets)
    decreases e
  {
    match e
    case String(text, hint) =>
      (if hint.Some? then [BRACKET] + Verbatim(hint.value) + [UNBRACKET] else []) + Verbatim(text)
    case List(items) => [OPEN] + SerializeAll(items) + [CLOSE]
  }

  function SerializeAll(items: seq<Sexp>): Octets
    decreases items
  {
    if items == [] then [] else Serialize(items[0]) + SerializeAll(items[1..])
  }

  /** The reference decoder: an expression, and what follows it. */
  function Decode(t: Octets): (r: Option<(Sexp, Octets)>)
    ensures r.Some? ==> |r.value.1| < |t|
    decreases |t|, 0
  {
    if t == [] then None
    else if t[0] == OPEN then
      var items := DecodeAll(t[1..]);
      if items.None? then None else Some((List(items.value.0), items.value.1))
    else if t[0] == BRACKET then
      var hint := ReadVerbatim(t[1..]);
      if hint.None? || hint.value.1 == [] || hint.value.1[0] != UNBRACKET then None
      else
        var text := ReadVerbatim(hint.value.1[1..]);
        if text.None? then None else Some((String(text.value.0, Some(hint.value.0)), text.value.1))
    else
      var text := ReadVerbatim(t);
      if text.None? then None else Some((String(text.value.0, None), text.value.1))
  }

  /** The expressions up to a closing parenthesis. */
  function DecodeAll(t: Octets): (r: Option<(seq<Sexp>, Octets)>)
    ensures r.Some? ==> |r.value.1| < |t|
    decreases |t|, 1
  {
    if t == [] then None
    else if t[0] == CLOSE then Some(([], t[1..]))
    else
      var first := Decode(t);
      if first.None? then None
      else
        var more := DecodeAll(first.value.1);
        if more.None? then None else Some(([first.value.0] + more.value.0, more.value.1))
  }

  lemma FirstOctet(e: Sexp)
    ensures Serialize(e) != []
    ensures e.List? ==> Serialize(e)[0] == OPEN
    ensures e.String? && e.hint.Some? ==> Serialize(e)[0] == BRACKET
    ensures e.String? && e.hint.None? ==> Serialize(e) == Verbatim(e.text) && IsDigit(Serialize(e)[0])
  {
    if e.String? {
      NumberOfDecimal(|e.text|);
      assert Decimal(|e.text|)[0] in Decimal(|e.text|);
      assert [] + Verbatim(e.text) == Verbatim(e.text);
    }
  }

  lemma {:induction false} DecodeSerialized(e: Sexp, r: Octets)
    ensures Decode(Serialize(e) + r) == Some((e, r))
    decreases e
  {
    hide ReadVerbatim, Verbatim;
    var t := Serialize(e) + r;
    FirstOctet(e);
    if e.List? {
      assert t[1..] == SerializeAll(e.items) + ([CLOSE] + r);
      DecodeSerializedAll(e.items, r);
    } else if e.hint.Some? {
      var u := [UNBRACKET] + (Verbatim(e.text) + r);
      assert t[1..] == Verbatim(e.hint.value) + u;
      ReadVerbatimIff(t[1..], e.hint.value, u);
      assert u[1..] == Verbatim(e.text) + r;
      ReadVerbatimIff(u[1..], e.text, r);
    } else {
      ReadVerbatimIff(t, e.text, r);
    }
  }

  lemma {:induction false} DecodeSerializedAll(items: seq<Sexp>, r: Octets)
    ensures DecodeAll(SerializeAll(items) + ([CLOSE] + r)) == Some((items, r))
    decreases items
  {
    hide Decode, Serialize;
    var t := SerializeAll(items) + ([CLOSE] + r);
    if items == [] {
      assert t == [CLOSE] + r && t[1..] == r;
    } else {
      var u := SerializeAll(items[1..]) + ([CLOSE] + r);
      assert t == Serialize(items[0]) + u;
      FirstOctet(items[0]);
      DecodeSerialized(items[0], u);
      DecodeSerializedAll(items[1..], r);
      assert [items[0]] + items[1..] == items;
    }
  }

  lemma {:induction false} SerializeDecoded(t: Octets)
    requires Decode(t).Some?
    ensures t == Serialize(Decode(t).value.0) + Decode(t).value.1
    decreases |t|, 0
  {
    hide ReadVerbatim, Verbatim;
    var (e, r) := Decode(t).value;
    if e.List? {
      SerializeDecodedAll(t[1..]);
      assert t == [t[0]] + t[1..];
      assert t == Serialize(e) + r;
    } else if e.hint.Some? {
      var (hint, u) := ReadVerbatim(t[1..]).value;
      ReadVerbatimIff(t[1..], hint, u);
      ReadVerbatimIff(u[1..], e.text, r);
      assert t == [t[0]] + (Verbatim(hint) + ([u[0]] + (Verbatim(e.text) + r)));
      assert t == Serialize(e) + r;
    } else {
      ReadVerbatimIff(t, e.text, r);
      FirstOctet(e);
    }
  }

  lemma {:induction false} SerializeDecodedAll(t: Octets)
    requires DecodeAll(t).Some?
    ensures t == SerializeAll(DecodeAll(t).value.0) + ([CLOSE] + DecodeAll(t).value.1)
    decreases |t|, 1
  {
    hide Decode, Serialize;
    var (items, r) := DecodeAll(t).value;
    if t[0] == CLOSE {
      assert t == [] + ([CLOSE] + t[1..]);
    } else {
      var (e, u) := Decode(t).value;
      SerializeDecoded(t);
      SerializeDecodedAll(u);
      assert items[1..] == DecodeAll(u).value.0;
      assert t == Serialize(e) + (SerializeAll(items[1..]) + ([CLOSE] + r));
    }
  }

  /** The decoder reads exactly what is serialized. */
  lemma DecodeIff(t: Octets, e: Sexp, r: Octets)
    ensures Decode(t) == Some((e, r)) <==> t == Serialize(e) + r
  {
    hide Decode, Serialize;
    if Decode(t) == Some((e, r)) {
      SerializeDecoded(t);
    }
    if t == Serialize(e) + r {
      DecodeSerialized(e, r);
    }
  }

  /** A serialized expression ends in one place, and is serialized from one expression. */
  lemma UniquelyReadable(a: Sexp, r: Octets, b: Sexp, s: Octets)
    requires Serialize(a) + r == Serialize(b) + s
    ensures a == b && r == s
  {
    hide Decode, Serialize;
    DecodeSerialized(a, r);
    DecodeSerialized(b, s);
  }

  // ----- Writing

  lemma Regroup(a: Octets, b: Octets, c: Octets)
    ensures a + b + c == a + (b + c)
  {
  }

  class Sink {
    var written: Octets

    method WriteAll(data: Octets)
      modifies this
      ensures written == old(written) + data
    {
      written := written + data;
    }

    method WriteVerbatim(s: Octets)
      modifies this
      ensures written == old(written) + Verbatim(s)
    {
      WriteAll(Decimal(|s|) + [COLON]);
      WriteAll(s);
    }

    method Write(e: Sexp)
      modifies this
      ensures written == old(written) + Serialize(e)
      decreases e
    {
      hide Decimal;
      match e
      case String(text, hint) =>
        if hint.Some? {
          WriteAll([BRACKET]);
          WriteVerbatim(hint.value);
          WriteAll([UNBRACKET]);
        }
        WriteVerbatim(text);
      case List(items) =>
        WriteAll([OPEN]);
        ghost var start := written;
        for i := 0 to |items|
          invariant written + SerializeAll(items[i..]) == start + SerializeAll(items)
        {
          ghost var before := written;
          Write(items[i]);
          assert items[i..][1..] == items[i + 1..];
          Regroup(before, Serialize(items[i]), SerializeAll(items[i + 1..]));
        }
        assert written == start + SerializeAll(items) by {
          assert items[|items|..] == [];
          assert written + [] == written;
        }
        WriteAll([CLOSE]);
        Regroup(old(written), [OPEN], SerializeAll(items));
        Regroup(old(written), [OPEN] + SerializeAll(items), [CLOSE]);
    }
  }
}
