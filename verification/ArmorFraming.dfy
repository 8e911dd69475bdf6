/** Detecting the header and footer lines of an armor block, and its key-value headers. */
module ArmorFraming {
  import opened Bytes
  import opened Base64Filter
  import opened ArmorText

  /** What a header line announces. */
  datatype Label = Block(kind: Kind) | CleartextSignature

  // ----- Dashes

  /** The length of the dash (Unicode category Dash Punctuation, in UTF-8) at the start of `d`, or zero. */
  function DashLength(d: Octets): (n: nat)
    ensures n <= |d|
  {
    if |d| >= 1 && d[0] == 0x2D then 1
    else if |d| >= 2 && d[0] == 0xD6 && d[1] in {0x8A, 0xBE} then 2
    else if |d| < 3 then 0
    else
      var (a, b, c) := (d[0], d[1], d[2]);
      if || (a == 0xE1 && ((b == 0x90 && c == 0x80) || (b == 0xA0 && c == 0x86)))
         || (a == 0xE2 && ((b == 0x80 && 0x90 <= c <= 0x95)
                           || (b == 0xB8 && c in {0x97, 0x9A, 0xBA, 0xBB})
                           || (b == 0xB9 && c == 0x80)))
         || (a == 0xE3 && ((b == 0x80 && c in {0x9C, 0xB0}) || (b == 0x82 && c == 0xA0)))
         || (a == 0xEF && ((b == 0xB8 && c in {0xB1, 0xB2})
                           || (b == 0xB9 && c in {0x98, 0xA3})
                           || (b == 0xBC && c == 0x8D)))
      then 3 else 0
  }

  /** `dash_prefix`: the length of the run of dashes at the start of `d`. */
  function DashPrefix(d: Octets): (n: nat)
    ensures n <= |d|
  {
    var n := DashLength(d);
    if n == 0 then 0 else n + DashPrefix(d[n..])
  }

  lemma FiveDashes(rest: Octets)
    requires DashLength(rest) == 0
    ensures DashPrefix(DASHES + rest) == 5 && (DASHES + rest)[5..] == rest
  {
    var d := DASHES + rest;
    assert d[1..][1..] == d[2..] && d[2..][1..] == d[3..] && d[3..][1..] == d[4..] && d[4..][1..] == d[5..];
    assert d[5..] == rest;
    assert DashPrefix(d[4..]) == 1;
    assert DashPrefix(d[3..]) == 2;
    assert DashPrefix(d[2..]) == 3;
  }

  /** A letter or a digit is no dash. */
  lemma NoDash(s: Octets)
    requires s != [] && s[0] < 128 && s[0] != 0x2D
    ensures DashLength(s) == 0 && DashPrefix(s) == 0 && s[0..] == s
  {
  }

  // ----- Header and footer lines

  /** The label at the start of `rest` and the length of its blurb. */
  function DetectLabel(rest: Octets): Option<(Label, nat)> {
    if Blurb(Message) <= rest then Some((Block(Message), |Blurb(Message)|))
    else if Blurb(PublicKey) <= rest then Some((Block(PublicKey), |Blurb(PublicKey)|))
    else if Blurb(SecretKey) <= rest then Some((Block(SecretKey), |Blurb(SecretKey)|))
    else if Blurb(Signature) <= rest then Some((Block(Signature), |Blurb(Signature)|))
    else if Ascii("SIGNED MESSAGE") <= rest then Some((CleartextSignature, 14))
    else if Blurb(File) <= rest then Some((Block(File), |Blurb(File)|))
    else None
  }

  /** The label after `BEGIN PGP `, and the length of the line from there to its last dash. */
  function DetectBegin(rest: Octets): (r: Option<(Label, nat)>)
    ensures r.Some? ==> r.value.1 <= |rest|
  {
    if !(Ascii("BEGIN PGP ") <= rest) then None
    else
      var found := DetectLabel(rest[10..]);
      if found.None? then None
      else Some((found.value.0, 10 + found.value.1 + DashPrefix(rest[10 + found.value.1..])))
  }

  /** `Label::detect_header` */
  function DetectHeader(blurb: Octets): (r: Option<(Label, nat)>)
    ensures r.Some? ==> r.value.1 <= |blurb|
  {
    var leading := DashPrefix(blurb);
    var found := DetectBegin(blurb[leading..]);
    if found.None? then None else Some((found.value.0, leading + found.value.1))
  }

  /** `Kind::detect_footer` */
  function DetectFooter(kind: Kind, blurb: Octets): (r: Option<nat>)
    ensures r.Some? ==> r.value <= |blurb|
  {
    var leading := DashPrefix(blurb);
    var rest := blurb[leading..];
    var len := |Blurb(kind)|;
    if !(Ascii("END PGP ") <= rest && Blurb(kind) <= rest[8..]) then None
    else Some(leading + 8 + len + DashPrefix(rest[8 + len..]))
  }

  /** Three letters that tell the names of all kinds apart. */
  function Letters(kind: Kind): (byte, byte, byte) {
    match kind
    case Message => (77, 69, 65)
    case PublicKey => (80, 85, 73)
    case SecretKey => (80, 82, 65)
    case Signature => (83, 73, 65)
    case File => (65, 82, 82)
  }

  lemma BlurbLetters(kind: Kind)
    ensures 7 <= |Blurb(kind)| <= 17
    ensures (Blurb(kind)[0], Blurb(kind)[1], Blurb(kind)[4]) == Letters(kind)
  {
  }

  /** A text starts with the name of at most one kind, and then not with that of a cleartext signature. */
  lemma OneBlurb(s: Octets, kind: Kind, other: Kind)
    requires Blurb(kind) <= s
    ensures Blurb(other) <= s ==> other == kind
    ensures !(Ascii("SIGNED MESSAGE") <= s)
  {
    hide Blurb;
    BlurbLetters(kind);
    BlurbLetters(other);
    assert Ascii("SIGNED MESSAGE")[0] == 83 && Ascii("SIGNED MESSAGE")[4] == 69;
  }

  lemma BlurbsDiffer(kind: Kind, rest: Octets)
    ensures DetectLabel(Blurb(kind) + rest) == Some((Block(kind), |Blurb(kind)|))
    ensures 7 <= |Blurb(kind)| <= 17
  {
    hide Blurb, Ascii;
    BlurbLetters(kind);
    var s := Blurb(kind) + rest;
    forall other: Kind ensures Blurb(other) <= s ==> other == kind {
      OneBlurb(s, kind, other);
    }
    OneBlurb(s, kind, kind);
  }

  lemma NamesStartWithLetters(rest: Octets)
    ensures DashLength(Ascii("BEGIN PGP ") + rest) == 0 && DashLength(Ascii("END PGP ") + rest) == 0
  {
    assert Ascii("BEGIN PGP ")[0] == 66 && Ascii("END PGP ")[0] == 69;
  }

  lemma BeginDetected(kind: Kind, after: Octets)
    requires DashLength(after) == 0
    ensures DetectBegin(Ascii("BEGIN PGP ") + (Blurb(kind) + (DASHES + after)))
         == Some((Block(kind), 15 + |Blurb(kind)|))
  {
    hide DashPrefix, DashLength, DetectLabel, Blurb, Ascii;
    var begin, name, end := Ascii("BEGIN PGP "), Blurb(kind), DASHES + after;
    var rest := begin + (name + end);
    BlurbsDiffer(kind, end);
    FiveDashes(after);
    assert begin <= rest && rest[10..] == name + end && rest[10 + |name|..] == end;
  }

  /** The writer's header line is detected, however much of the text the look-ahead shows. */
  lemma HeaderDetected(kind: Kind, after: Octets)
    requires DashLength(after) == 0
    ensures DetectHeader(Begin(kind) + after) == Some((Block(kind), |Begin(kind)|))
    ensures 27 <= |Begin(kind)| <= 37
  {
    hide DashPrefix, DashLength, DetectBegin, Blurb, Ascii;
    var name := Blurb(kind) + (DASHES + after);
    var rest := Ascii("BEGIN PGP ") + name;
    assert Begin(kind) + after == DASHES + rest;
    NamesStartWithLetters(name);
    FiveDashes(rest);
    BlurbsDiffer(kind, DASHES + after);
    BeginDetected(kind, after);
  }

  lemma EndDetected(kind: Kind, after: Octets)
    requires DashLength(after) == 0
    ensures var rest := Ascii("END PGP ") + (Blurb(kind) + (DASHES + after));
            && Ascii("END PGP ") <= rest && Blurb(kind) <= rest[8..]
            && DashPrefix(rest[8 + |Blurb(kind)|..]) == 5
  {
    hide DashPrefix, DashLength, Blurb, Ascii;
    var begin, name, end := Ascii("END PGP "), Blurb(kind), DASHES + after;
    var rest := begin + (name + end);
    FiveDashes(after);
    assert rest[8..] == name + end && rest[8 + |name|..] == end;
  }

  lemma FooterDetected(kind: Kind, after: Octets)
    requires DashLength(after) == 0
    ensures DetectFooter(kind, End(kind) + after) == Some(|End(kind)|)
    ensures 25 <= |End(kind)| <= 35
  {
    hide DashPrefix, DashLength, Blurb, Ascii;
    var name := Blurb(kind) + (DASHES + after);
    var rest := Ascii("END PGP ") + name;
    assert End(kind) + after == DASHES + rest;
    NamesStartWithLetters(name);
    FiveDashes(rest);
    BlurbLetters(kind);
    EndDetected(kind, after);
  }

  // ----- Key-value headers

  /** `str::from_utf8(s).is_ok()` */
  predicate ValidUtf8(s: Octets) {
    if s == [] then true
    else if s[0] < 0x80 then ValidUtf8(s[1..])
    else if |s| >= 2 && 0xC2 <= s[0] <= 0xDF then Continuation(s[1]) && ValidUtf8(s[2..])
    else if |s| >= 3 && 0xE0 <= s[0] <= 0xEF then
      && Continuation(s[1]) && Continuation(s[2])
      && (s[0] == 0xE0 ==> s[1] >= 0xA0) && (s[0] == 0xED ==> s[1] <= 0x9F)
      && ValidUtf8(s[3..])
    else if |s| >= 4 && 0xF0 <= s[0] <= 0xF4 then
      && Continuation(s[1]) && Continuation(s[2]) && Continuation(s[3])
      && (s[0] == 0xF0 ==> s[1] >= 0x90) && (s[0] == 0xF4 ==> s[1] <= 0x8F)
      && ValidUtf8(s[4..])
    else false
  }

  predicate Continuation(b: byte) {
    0x80 <= b <= 0xBF
  }

  /** The length of the Unicode white space character at the start of `d`, or zero. */
  function SpaceLength(d: Octets): (n: nat)
    ensures n <= |d|
  {
    if |d| >= 1 && (0x09 <= d[0] <= 0x0D || d[0] == 0x20) then 1
    else if |d| >= 2 && d[0] == 0xC2 && d[1] in {0x85, 0xA0} then 2
    else if |d| < 3 then 0
    else
      var (a, b, c) := (d[0], d[1], d[2]);
      if || (a == 0xE1 && b == 0x9A && c == 0x80)
         || (a == 0xE2 && b == 0x80 && (0x80 <= c <= 0x8A || c in {0xA8, 0xA9, 0xAF}))
         || (a == 0xE2 && b == 0x81 && c == 0x9F)
         || (a == 0xE3 && b == 0x80 && c == 0x80)
      then 3 else 0
  }

  /** `str::trim_start` */
  function TrimStart(d: Octets): Octets {
    var n := SpaceLength(d);
    if n == 0 then d else TrimStart(d[n..])
  }

  /** Where `": "` first occurs, or the length of the line. */
  function Colon(line: Octets): (n: nat)
    ensures n <= |line|
    ensures n < |line| ==> n + 2 <= |line| && line[n..n + 2] == [58, 32]
  {
    if line == [] then 0
    else if |line| >= 2 && line[..2] == [58, 32] then 0
    else
      var n := Colon(line[1..]);
      assert n + 1 < |line| ==> line[1..][n..n + 2] == line[n + 1..n + 3];
      1 + n
  }

  /** A line without its line ending. */
  function Chomp(line: Octets): (r: Octets)
    ensures r <= line
  {
    if |line| >= 2 && line[|line| - 2..] == [13, 10] then line[..|line| - 2]
    else if |line| >= 1 && line[|line| - 1] == 10 then line[..|line| - 1]
    else line
  }

  /** Header keys and values on one line each. */
  predicate SingleLines(headers: Headers) {
    forall h :: h in headers ==> NEWLINE !in h.0 && NEWLINE !in h.1
  }

  /** Headers that the reader's line syntax can represent. */
  predicate Representable(h: (Octets, Octets)) {
    && ValidUtf8(HeaderLine(h))
    && Colon(h.0) == |h.0| && SpaceLength(h.0) == 0
    && (h.1 == [] || h.1[|h.1| - 1] != 13)
  }

  /** The first `": "` of a header line is the one the writer put there. */
  lemma {:induction false} ColonOfHeader(key: Octets, value: Octets)
    requires Colon(key) == |key|
    ensures Colon(key + [58, 32] + value) == |key|
    decreases |key|
  {
    var line := key + [58, 32] + value;
    if key == [] {
      assert line[..2] == [58, 32];
    } else {
      assert line[1..] == key[1..] + [58, 32] + value;
      ColonOfHeader(key[1..], value);
      if |key| == 1 {
        assert line[1] == 58;
      } else {
        assert line[..2] == key[..2];
      }
    }
  }

  lemma {:induction false} ColonExists(key: Octets, value: Octets)
    ensures Colon(key + [58, 32] + value) < |key + [58, 32] + value|
    decreases |key|
  {
    var line := key + [58, 32] + value;
    if key == [] {
      assert line[..2] == [58, 32];
    } else {
      assert line[1..] == key[1..] + [58, 32] + value;
      ColonExists(key[1..], value);
    }
  }

  /** An earlier `": "` hides the one that the writer put there. */
  lemma {:induction false} ColonOfKey(key: Octets, rest: Octets)
    requires Colon(key) < |key|
    ensures Colon(key + rest) == Colon(key)
    decreases |key|
  {
    var line := key + rest;
    if |key| >= 2 {
      assert line[..2] == key[..2] && line[1..] == key[1..] + rest;
      if key[..2] != [58, 32] {
        ColonOfKey(key[1..], rest);
      }
    }
  }

  lemma {:induction false} TrimStartShortens(d: Octets)
    ensures |TrimStart(d)| <= |d| && (TrimStart(d) == d <==> SpaceLength(d) == 0)
    decreases |d|
  {
    if SpaceLength(d) > 0 {
      TrimStartShortens(d[SpaceLength(d)..]);
    }
  }

  function WithoutCr(value: Octets): (r: Octets)
    ensures r <= value && (r == value <==> value == [] || value[|value| - 1] != 13)
  {
    if value != [] && value[|value| - 1] == 13 then value[..|value| - 1] else value
  }

  lemma ChompHeader(h: (Octets, Octets))
    ensures Ascii(": ") == [58, 32]
    ensures Chomp(HeaderLine(h)) == h.0 + [58, 32] + WithoutCr(h.1)
  {
    var line := HeaderLine(h);
    assert Ascii(": ") == [58, 32];
    assert line[|line| - 1] == 10;
    if h.1 != [] {
      assert line[|line| - 2] == h.1[|h.1| - 1];
    } else {
      assert line[|line| - 2] == 32;
    }
  }

  /** What the reader makes of a header line the writer wrote. */
  lemma HeaderParsed(h: (Octets, Octets))
    ensures var line := Chomp(HeaderLine(h));
            && Colon(line) < |line|
            && (ValidUtf8(HeaderLine(h)) && TrimStart(line[..Colon(line)]) == h.0 && line[Colon(line) + 2..] == h.1
                <==> Representable(h))
  {
    hide Colon, TrimStart, Chomp, HeaderLine, ValidUtf8, SpaceLength;
    ChompHeader(h);
    ColonExists(h.0, WithoutCr(h.1));
    var line := Chomp(HeaderLine(h));
    var n := Colon(line);
    TrimStartShortens(line[..n]);
    if Colon(h.0) == |h.0| {
      ColonOfHeader(h.0, WithoutCr(h.1));
      assert line[..n] == h.0 && line[n + 2..] == WithoutCr(h.1);
    } else {
      ColonOfKey(h.0, [58, 32] + WithoutCr(h.1));
      assert h.0 + ([58, 32] + WithoutCr(h.1)) == line;
    }
  }
}
