/**
 The text of an ASCII armor block (section 6.2 of RFC 9580): header and footer
 lines as `openpgp/src/armor.rs` writes and detects them, and the body broken
 into lines.
 */
module ArmorText {
  import opened Bytes
  import opened Base64Filter

  const LINE_LENGTH: nat := 64

  datatype Kind = Message | PublicKey | SecretKey | Signature | File

  datatype Profile = RFC4880 | RFC9580

  function Ascii(s: string): (r: Octets)
    ensures |r| == |s|
  {
    seq(|s|, i requires 0 <= i < |s| => if s[i] as int < 128 then s[i] as int else 0)
  }

  function Blurb(kind: Kind): Octets {
    match kind
    case Message => Ascii("MESSAGE")
    case PublicKey => Ascii("PUBLIC KEY BLOCK")
    case SecretKey => Ascii("PRIVATE KEY BLOCK")
    case Signature => Ascii("SIGNATURE")
    case File => Ascii("ARMORED FILE")
  }

  const DASHES: Octets := [45, 45, 45, 45, 45]

  function Begin(kind: Kind): Octets {
    DASHES + Ascii("BEGIN PGP ") + Blurb(kind) + DASHES
  }

  function End(kind: Kind): Octets {
    DASHES + Ascii("END PGP ") + Blurb(kind) + DASHES
  }

  type Headers = seq<(Octets, Octets)>

  function HeaderLine(header: (Octets, Octets)): Octets {
    header.0 + Ascii(": ") + header.1 + [NEWLINE]
  }

  function HeaderLines(headers: Headers): Octets {
    if headers == [] then [] else HeaderLine(headers[0]) + HeaderLines(headers[1..])
  }

  lemma {:induction false} HeaderLinesAppend(headers: Headers, last: (Octets, Octets))
    ensures HeaderLines(headers + [last]) == HeaderLines(headers) + HeaderLine(last)
  {
    if headers == [] {
      assert headers + [last] == [last] && [last][1..] == [];
    } else {
      assert (headers + [last])[1..] == headers[1..] + [last];
      HeaderLinesAppend(headers[1..], last);
    }
  }

  /** Everything up to the body: header line, key-value lines, blank line. */
  function Preamble(kind: Kind, headers: Headers): Octets {
    Begin(kind) + [NEWLINE] + HeaderLines(headers) + [NEWLINE]
  }

  // ----- The body

  /** A line break after every 64 characters. */
  function Broken(t: Octets): Octets {
    if |t| < LINE_LENGTH then t else t[..LINE_LENGTH] + [NEWLINE] + Broken(t[LINE_LENGTH..])
  }

  /** The body text: lines of 64 characters, the last one shorter, each terminated. */
  function Wrapped(t: Octets): Octets {
    Broken(t) + if Column(|t|) == 0 then [] else [NEWLINE]
  }

  /** The column after `n` characters. */
  function Column(n: nat): (c: nat)
    ensures c < LINE_LENGTH
  {
    n % LINE_LENGTH
  }

  lemma ColumnAdd(n: nat, m: nat)
    requires Column(n) + m <= LINE_LENGTH
    ensures Column(n + m) == if Column(n) + m == LINE_LENGTH then 0 else Column(n) + m
  {
  }

  lemma ColumnOfQuads(k: nat)
    ensures Column(k * 4) % 4 == 0
  {
    assert k * 4 == LINE_LENGTH * (k / 16) + 4 * (k % 16);
  }

  lemma {:induction false} BrokenExtend(a: Octets, b: Octets)
    requires |b| > 0 && Column(|a|) + |b| <= LINE_LENGTH
    ensures Broken(a + b) == Broken(a) + b + if Column(|a|) + |b| == LINE_LENGTH then [NEWLINE] else []
    decreases |a|
  {
    if |a| < LINE_LENGTH {
      assert Column(|a|) == |a|;
      if |a| + |b| == LINE_LENGTH {
        assert (a + b)[..LINE_LENGTH] == a + b && (a + b)[LINE_LENGTH..] == [];
      }
    } else {
      hide Column;
      assert Column(|a| - LINE_LENGTH) == Column(|a|) by { OneLineLess(|a|); }
      var rest := a[LINE_LENGTH..];
      assert (a + b)[..LINE_LENGTH] == a[..LINE_LENGTH] && (a + b)[LINE_LENGTH..] == rest + b;
      BrokenExtend(rest, b);
    }
  }

  lemma OneLineLess(n: nat)
    requires n >= LINE_LENGTH
    ensures Column(n - LINE_LENGTH) == Column(n)
  {
  }

  /** The body as a list of lines. */
  function Lines(t: Octets): seq<Octets> {
    if t == [] then [] else if |t| <= LINE_LENGTH then [t] else [t[..LINE_LENGTH]] + Lines(t[LINE_LENGTH..])
  }

  function Terminated(lines: seq<Octets>): Octets {
    if lines == [] then [] else lines[0] + [NEWLINE] + Terminated(lines[1..])
  }

  function Joined(lines: seq<Octets>): Octets {
    if lines == [] then [] else lines[0] + Joined(lines[1..])
  }

  /** No line is blank or overlong, only the last may be short, and no character is lost. */
  lemma {:induction false} WrappedLines(t: Octets)
    ensures Wrapped(t) == Terminated(Lines(t))
    ensures Joined(Lines(t)) == t
    ensures forall i :: 0 <= i < |Lines(t)| ==> 0 < |Lines(t)[i]| <= LINE_LENGTH
    ensures forall i :: 0 <= i < |Lines(t)| - 1 ==> |Lines(t)[i]| == LINE_LENGTH
    decreases |t|
  {
    if t == [] {
    } else if |t| <= LINE_LENGTH {
      assert Lines(t) == [t] && Lines(t)[1..] == [];
      assert Broken([]) == [] && Terminated([]) == [];
      if |t| == LINE_LENGTH {
        assert t[..LINE_LENGTH] == t && t[LINE_LENGTH..] == [];
      }
      assert Wrapped(t) == t + [NEWLINE];
    } else {
      var rest := t[LINE_LENGTH..];
      WrappedLines(rest);
      assert Lines(t)[0] == t[..LINE_LENGTH] && Lines(t)[1..] == Lines(rest);
      assert Column(|rest|) == Column(|t|);
      assert t == t[..LINE_LENGTH] + rest;
      assert Wrapped(t) == t[..LINE_LENGTH] + [NEWLINE] + Wrapped(rest);
    }
  }
}
