/**
 Update manifests, as in `net/src/updates.rs`: a range of epochs, and the first four
 octets of the fingerprints of the certificates that changed in it.
 */
module Manifests {
  import opened Bytes
  import opened GenericReader

  const MAGIC: Octets := [0xE4, 0x2B, 0xAF, 0xBD, 0xD5, 0x75, 0x77, 0x0A]

  type u32 = n: nat | n < 0x1_0000_0000

  // ----- Big-endian words

  function BigEndian(n: u32): (b: Octets)
    ensures |b| == 4
  {
    [n / 0x100 / 0x100 / 0x100, n / 0x100 / 0x100 % 0x100, n / 0x100 % 0x100, n % 0x100]
  }

  function Word(b: Octets): u32
    requires |b| == 4
  {
    ((b[0] as int * 0x100 + b[1] as int) * 0x100 + b[2] as int) * 0x100 + b[3] as int
  }

  lemma WordOfBigEndian(n: u32)
    ensures Word(BigEndian(n)) == n
  {
  }

  lemma BigEndianOfWord(b: Octets)
    requires |b| == 4
    ensures BigEndian(Word(b)) == b
  {
    var high := b[0] as int * 0x100 + b[1] as int;
    Digit(b[0], b[1]);
    Digit(high, b[2]);
    Digit(high * 0x100 + b[2] as int, b[3]);
  }

  lemma Digit(q: nat, r: byte)
    ensures (q * 0x100 + r as int) / 0x100 == q && (q * 0x100 + r as int) % 0x100 == r
  {
  }

  function Words(b: Octets): seq<u32>
    requires |b| % 4 == 0
  {
    if b == [] then [] else [Word(b[..4])] + Words(b[4..])
  }

  function BigEndianAll(words: seq<u32>): (b: Octets)
    ensures |b| == 4 * |words|
  {
    if words == [] then [] else BigEndian(words[0]) + BigEndianAll(words[1..])
  }

  lemma {:induction false} WordsOfBigEndian(words: seq<u32>)
    ensures Words(BigEndianAll(words)) == words
  {
    if words != [] {
      hide Word, BigEndian;
      var b := BigEndianAll(words);
      assert b[..4] == BigEndian(words[0]) && b[4..] == BigEndianAll(words[1..]);
      WordOfBigEndian(words[0]);
      WordsOfBigEndian(words[1..]);
    }
  }

  lemma {:induction false} WordsAppend(b: Octets, c: Octets)
    requires |b| % 4 == 0 && |c| == 4
    ensures Words(b + c) == Words(b) + [Word(c)]
    decreases |b|
  {
    hide Word;
    if b == [] {
      assert b + c == c && c[..4] == c && c[4..] == [];
    } else {
      assert (b + c)[..4] == b[..4] && (b + c)[4..] == b[4..] + c;
      WordsAppend(b[4..], c);
    }
  }

  // ----- What a manifest says

  datatype Contents = Contents(start: u32, end: u32, prefixes: set<u32>)

  function Elements(words: seq<u32>): set<u32> {
    set w | w in words
  }

  predicate Ascending(words: seq<u32>) {
    forall i, j :: 0 <= i < j < |words| ==> words[i] < words[j]
  }

  /** The octets of a manifest whose prefixes are listed in order. */
  function Encoded(start: u32, end: u32, words: seq<u32>): Octets {
    MAGIC + BigEndian(start) + BigEndian(end) + BigEndianAll(words)
  }

  datatype Reason = Disturbed | Truncated | BadMagic | BadEpochs

  datatype Parsed = Accepted(contents: Contents) | Rejected(reason: Reason)

  /** What a string of octets says. */
  function Decoded(b: Octets): Parsed {
    if |b| < 8 then Rejected(Truncated)
    else if b[..8] != MAGIC then Rejected(BadMagic)
    else if |b| < 16 then Rejected(Truncated)
    else if Word(b[8..12]) > Word(b[12..16]) then Rejected(BadEpochs)
    else if |b| % 4 != 0 then Rejected(Truncated)
    else Accepted(Contents(Word(b[8..12]), Word(b[12..16]), Elements(Words(b[16..]))))
  }

  /** A manifest is read back as it was written. */
  lemma RoundTrip(start: u32, end: u32, words: seq<u32>)
    requires start <= end
    ensures Decoded(Encoded(start, end, words)) == Accepted(Contents(start, end, Elements(words)))
  {
    hide Word, BigEndian, Words;
    var b := Encoded(start, end, words);
    assert b[..8] == MAGIC && b[8..12] == BigEndian(start) && b[12..16] == BigEndian(end);
    assert b[16..] == BigEndianAll(words);
    WordOfBigEndian(start);
    WordOfBigEndian(end);
    WordsOfBigEndian(words);
  }

  lemma {:induction false} BigEndianOfWords(b: Octets)
    requires |b| % 4 == 0
    ensures BigEndianAll(Words(b)) == b
    decreases |b|
  {
    if b != [] {
      hide Word, BigEndian;
      BigEndianOfWord(b[..4]);
      BigEndianOfWords(b[4..]);
      assert Words(b)[1..] == Words(b[4..]) && b == b[..4] + b[4..];
    }
  }

  /** Nothing else is accepted. */
  lemma OnlyEncoded(b: Octets)
    requires Decoded(b).Accepted?
    ensures var c := Decoded(b).contents;
            && c.start <= c.end
            && b == Encoded(c.start, c.end, Words(b[16..])) && Elements(Words(b[16..])) == c.prefixes
  {
    hide Word, BigEndian, Words;
    BigEndianOfWord(b[8..12]);
    BigEndianOfWord(b[12..16]);
    BigEndianOfWords(b[16..]);
    assert b == b[..8] + b[8..12] + b[12..16] + b[16..];
  }

  /** A partial prefix at the end is not accepted. */
  lemma TrailingPart(start: u32, end: u32, words: seq<u32>, part: Octets)
    requires start <= end && 0 < |part| < 4
    ensures Decoded(Encoded(start, end, words) + part) == Rejected(Truncated)
  {
    hide Word, BigEndian, Words;
    var b := Encoded(start, end, words) + part;
    assert b[..8] == MAGIC && b[8..12] == BigEndian(start) && b[12..16] == BigEndian(end);
    WordOfBigEndian(start);
    WordOfBigEndian(end);
  }

  // ----- Sources that are interrupted or fail

  /** Nothing fails, and nothing interrupts the source after its first `n` octets. */
  predicate Undisturbed(script: Script, n: nat) {
    script == [] ||
    match script[0]
    case Chunk(data) => data == [] || Undisturbed(script[1..], Max(n - |data|, 0))
    case Interrupted => n > 0 && Undisturbed(script[1..], n)
    case Failure(_) => false
  }

  lemma AnswerUndisturbed(script: Script, room: nat, n: nat)
    requires room > 0
    ensures var (event, rest) := Answer(script, room);
            Undisturbed(script, n) <==>
            match event
            case Chunk(data) => data == [] || Undisturbed(rest, Max(n - |data|, 0))
            case Interrupted => n > 0 && Undisturbed(rest, n)
            case Failure(_) => false
  {
    if script != [] && script[0].Chunk? && |script[0].data| > room {
      var rest := script[0 := Chunk(script[0].data[room..])];
      assert rest[1..] == script[1..];
    }
  }

  /** Reads `n` octets, like `read_exact` of the standard library. */
  method ReadExact(script: Script, n: nat, ghost k: nat) returns (r: Option<Octets>, why: Reason, rest: Script)
    ensures r.Some? ==> |r.value| == n && Pending(script) == r.value + Pending(rest)
    ensures r.Some? ==> (Undisturbed(script, n + k) <==> Undisturbed(rest, k))
    ensures r.None? && Undisturbed(script, n + k) ==> why == Truncated && |Pending(script)| < n
  {
    hide Answer, Undisturbed, Pending;
    var got: Octets := [];
    rest, why := script, Truncated;
    while |got| < n
      invariant |got| <= n
      invariant Pending(script) == got + Pending(rest)
      invariant Undisturbed(script, n + k) <==> Undisturbed(rest, n + k - |got|)
      decreases n - |got|, |rest|
    {
      AnswerUndisturbed(rest, n - |got|, n + k - |got|);
      var (event, next) := Answer(rest, n - |got|);
      if event.Failure? {
        return None, Disturbed, next;
      }
      if event.Chunk? {
        if event.data == [] {
          return None, Truncated, next;
        }
        Shift(Pending(script), got, event.data, Pending(next));
        got := got + event.data;
      }
      rest := next;
    }
    return Some(got), why, rest;
  }

  lemma Shift(all: Octets, a: Octets, b: Octets, c: Octets)
    ensures all == a + (b + c) <==> all == a + b + c
  {
    assert a + (b + c) == a + b + c;
  }

  datatype Found = Prefix(octets: Octets) | End | Stop(reason: Reason)

  /** Reads one prefix; unlike `ReadExact`, this does not read on when it is interrupted. */
  method ReadPrefix(script: Script) returns (r: Found, rest: Script)
    ensures r.Prefix? ==> |r.octets| == 4 && Pending(script) == r.octets + Pending(rest)
    ensures r.Prefix? ==> (Undisturbed(script, 0) <==> Undisturbed(rest, 0))
    ensures r.End? ==> Undisturbed(script, 0) && Pending(script) == []
    ensures r.Stop? && Undisturbed(script, 0) ==> r.reason == Truncated && 0 < |Pending(script)| < 4
  {
    hide Answer, Undisturbed, Pending;
    var got: Octets := [];
    rest := script;
    while true
      invariant |got| < 4
      invariant Pending(script) == got + Pending(rest)
      invariant Undisturbed(script, 0) <==> Undisturbed(rest, 0)
      decreases 4 - |got|
    {
      AnswerUndisturbed(rest, 4 - |got|, 0);
      var (event, next) := Answer(rest, 4 - |got|);
      if !event.Chunk? {
        return Stop(Disturbed), next;
      }
      if event.data == [] {
        return if got == [] then End else Stop(Truncated), next;
      }
      Shift(Pending(script), got, event.data, Pending(next));
      got := got + event.data;
      rest := next;
      if |got| == 4 {
        return Prefix(got), rest;
      }
    }
  }

  method ReadPrefixes(script: Script) returns (prefixes: set<u32>, failure: Option<Reason>)
    ensures failure.None? ==>
              && Undisturbed(script, 0) && |Pending(script)| % 4 == 0
              && prefixes == Elements(Words(Pending(script)))
    ensures failure.Some? && Undisturbed(script, 0) ==> failure.value == Truncated && |Pending(script)| % 4 != 0
  {
    hide Undisturbed, Pending, Word, Words;
    ghost var read: Octets := [];
    var rest := script;
    prefixes := {};
    NoWords();
    while true
      invariant Pending(script) == read + Pending(rest) && |read| % 4 == 0
      invariant Undisturbed(script, 0) <==> Undisturbed(rest, 0)
      invariant prefixes == Elements(Words(read))
      decreases |Pending(rest)|
    {
      var found;
      found, rest := ReadPrefix(rest);
      match found {
        case Prefix(octets) =>
          Shift(Pending(script), read, octets, Pending(rest));
          WordsAppend(read, octets);
          read := read + octets;
          prefixes := prefixes + {Word(octets)};
        case End =>
          assert read + [] == read;
          return prefixes, None;
        case Stop(reason) =>
          return prefixes, Some(reason);
      }
    }
  }

  lemma NoWords()
    ensures Words([]) == []
  {
  }

  /** Reads a manifest, however the source cuts it into pieces. */
  method Parse(script: Script) returns (r: Parsed)
    ensures Undisturbed(script, 16) ==> r == Decoded(Pending(script))
    ensures !Undisturbed(script, 16) ==> r.Rejected?
  {
    hide Undisturbed, Pending, Word, Words;
    var magic, why, rest := ReadExact(script, 8, 8);
    if magic.None? {
      return Rejected(why);
    }
    Sliced(Pending(script), magic.value, Pending(rest));
    if magic.value != MAGIC {
      return Rejected(BadMagic);
    }
    var start, why', rest' := ReadExact(rest, 4, 4);
    if start.None? {
      return Rejected(why');
    }
    Sliced(Pending(rest), start.value, Pending(rest'));
    var end, why'', rest'' := ReadExact(rest', 4, 0);
    if end.None? {
      return Rejected(why'');
    }
    Sliced(Pending(rest'), end.value, Pending(rest''));
    if Word(start.value) > Word(end.value) {
      return Rejected(BadEpochs);
    }
    var prefixes, failure := ReadPrefixes(rest'');
    if failure.Some? {
      return Rejected(failure.value);
    }
    return Accepted(Contents(Word(start.value), Word(end.value), prefixes));
  }

  lemma Sliced(all: Octets, a: Octets, b: Octets)
    requires all == a + b
    ensures all[..|a|] == a && all[|a|..] == b
    ensures forall i, j :: |a| <= i <= j <= |all| ==> all[i..j] == b[i - |a|..j - |a|]
    ensures forall i :: |a| <= i <= |all| ==> all[i..] == b[i - |a|..]
  {
  }

  // ----- Manifests

  function Merged(a: Contents, b: Contents): (c: Contents)
    ensures a.prefixes <= c.prefixes && b.prefixes <= c.prefixes
    ensures c.start <= a.start && c.start <= b.start && a.end <= c.end && b.end <= c.end
  {
    Contents(if a.start <= b.start then a.start else b.start,
             if a.end >= b.end then a.end else b.end,
             a.prefixes + b.prefixes)
  }

  lemma MergeLaws(a: Contents, b: Contents, c: Contents)
    ensures Merged(a, b) == Merged(b, a)
    ensures Merged(a, Merged(b, c)) == Merged(Merged(a, b), c)
    ensures Merged(a, a) == a
  {
    assert a.prefixes + (b.prefixes + c.prefixes) == a.prefixes + b.prefixes + c.prefixes;
  }

  predicate IsLeast(p: u32, s: set<u32>) {
    p in s && forall q :: q in s ==> p <= q
  }

  lemma {:induction false} Least(s: set<u32>)
    requires s != {}
    ensures exists p :: p in s && IsLeast(p, s)
    decreases s
  {
    var x :| x in s;
    var t := s - {x};
    assert s == t + {x};
    if t == {} {
      assert IsLeast(x, s);
    } else {
      Least(t);
      var p :| p in t && IsLeast(p, t);
      assert IsLeast(if x < p then x else p, s);
    }
  }

  class Manifest {
    var start: u32
    var end: u32
    var prefixes: set<u32>

    ghost function Value(): Contents
      reads this
    {
      Contents(start, end, prefixes)
    }

    constructor (c: Contents)
      ensures Value() == c
    {
      start, end, prefixes := c.start, c.end, c.prefixes;
    }

    /** Epochs come in order. */
    static method Between(start: u32, end: u32) returns (r: Option<Manifest>)
      ensures r.Some? <==> start <= end
      ensures r.Some? ==> fresh(r.value) && r.value.Value() == Contents(start, end, {})
    {
      if start <= end {
        var m := new Manifest(Contents(start, end, {}));
        return Some(m);
      }
      return None;
    }

    static function PrefixOf(fingerprint: Octets): u32
      requires |fingerprint| >= 4
    {
      Word(fingerprint[..4])
    }

    predicate Contains(fingerprint: Octets)
      requires |fingerprint| >= 4
      reads this
    {
      PrefixOf(fingerprint) in prefixes
    }

    method Insert(fingerprint: Octets)
      requires |fingerprint| >= 4
      modifies this
      ensures Contains(fingerprint)
      ensures Value() == old(Value()).(prefixes := old(prefixes) + {PrefixOf(fingerprint)})
    {
      prefixes := prefixes + {PrefixOf(fingerprint)};
    }

    method Merge(other: Manifest) returns (m: Manifest)
      ensures fresh(m) && m.Value() == Merged(Value(), other.Value())
    {
      m := new Manifest(Contents(if start <= other.start then start else other.start,
                                 if end >= other.end then end else other.end,
                                 prefixes + other.prefixes));
    }

    /** Writes the manifest, with its prefixes in order. */
    method Serialize() returns (out: Octets, ghost words: seq<u32>)
      ensures out == Encoded(start, end, words)
      ensures Ascending(words) && Elements(words) == prefixes
    {
      hide BigEndian, Encoded, Listed, IsLeast, Ascending, Elements;
      ListedNone(start, end, prefixes);
      out, words := MAGIC + BigEndian(start) + BigEndian(end), [];
      var rest := prefixes;
      while rest != {}
        invariant Listed(words, rest, prefixes)
        invariant out == Encoded(start, end, words)
        decreases |rest|
      {
        Least(rest);
        var p :| p in rest && IsLeast(p, rest);
        out := out + BigEndian(p);
        ListedNext(start, end, words, rest, prefixes, p);
        words := words + [p];
        rest := rest - {p};
      }
      ListedAll(words, prefixes);
    }
  }

  /** The least of some prefixes are listed; the others are the rest. */
  ghost predicate Listed(words: seq<u32>, rest: set<u32>, all: set<u32>) {
    && rest <= all && Elements(words) == all - rest && Ascending(words)
    && forall w, p :: w in words && p in rest ==> w < p
  }

  lemma ListedNone(start: u32, end: u32, all: set<u32>)
    ensures Listed([], all, all)
    ensures MAGIC + BigEndian(start) + BigEndian(end) == Encoded(start, end, [])
  {
    hide BigEndian;
  }

  lemma ListedAll(words: seq<u32>, all: set<u32>)
    requires Listed(words, {}, all)
    ensures Ascending(words) && Elements(words) == all
  {
  }

  lemma ListedNext(start: u32, end: u32, words: seq<u32>, rest: set<u32>, all: set<u32>, p: u32)
    requires Listed(words, rest, all) && IsLeast(p, rest)
    ensures Listed(words + [p], rest - {p}, all)
    ensures Encoded(start, end, words) + BigEndian(p) == Encoded(start, end, words + [p])
  {
    hide BigEndian;
    BigEndianAppend(words, p);
    Shift(Encoded(start, end, words + [p]),
          MAGIC + BigEndian(start) + BigEndian(end), BigEndianAll(words), BigEndian(p));
    var words' := words + [p];
    forall w ensures w in Elements(words') <==> w in all - (rest - {p}) {
      assert w in words' <==> w in words || w == p;
      assert w in Elements(words) <==> w in words;
    }
    forall i, j | 0 <= i < j < |words'| ensures words'[i] < words'[j] {
      assert words[i] in words;
    }
  }

  lemma {:induction false} BigEndianAppend(words: seq<u32>, w: u32)
    ensures BigEndianAll(words + [w]) == BigEndianAll(words) + BigEndian(w)
  {
    hide BigEndian;
    if words == [] {
      assert words + [w] == [w] && [w][1..] == [];
    } else {
      assert (words + [w])[1..] == words[1..] + [w];
      BigEndianAppend(words[1..], w);
    }
  }

  // ----- Sending a manifest

  lemma {:induction false} PiecesUndisturbed(b: Octets, sizes: seq<nat>, n: nat)
    ensures Undisturbed(Pieces(b, sizes), n)
    decreases |sizes|
  {
    if b != [] && sizes != [] {
      if sizes[0] == 0 || sizes[0] >= |b| {
        PiecesUndisturbed(b, sizes[1..], n);
      } else {
        PiecesUndisturbed(b[sizes[0]..], sizes[1..], Max(n - sizes[0], 0));
        assert Pieces(b, sizes)[1..] == Pieces(b[sizes[0]..], sizes[1..]);
      }
    }
  }

  /** A manifest arrives as it was sent, in whatever pieces. */
  method Transmit(m: Manifest, sizes: seq<nat>) returns (r: Parsed)
    requires m.start <= m.end
    ensures r == Accepted(m.Value())
  {
    hide Undisturbed, Pending, Word, Words, BigEndian, Pieces, Decoded;
    var out, words := m.Serialize();
    PiecesPending(out, sizes);
    PiecesUndisturbed(out, sizes, 16);
    r := Parse(Pieces(out, sizes));
    RoundTrip(m.start, m.end, words);
  }

  // ----- Manifests never forget

  /** A fingerprint is inserted, another manifest is merged, or the manifest is sent in pieces of some sizes. */
  datatype Change = InsertChange(fingerprint: Octets) | MergeChange(other: Contents) | SendChange(sizes: seq<nat>)

  predicate IsChange(change: Change) {
    change.InsertChange? ==> |change.fingerprint| >= 4
  }

  function Changed(c: Contents, change: Change): Contents
    requires IsChange(change)
  {
    match change
    case InsertChange(fingerprint) => c.(prefixes := c.prefixes + {Manifest.PrefixOf(fingerprint)})
    case MergeChange(other) => Merged(c, other)
    case SendChange(_) => c
  }

  function After(c: Contents, changes: seq<Change>): Contents
    requires forall change :: change in changes ==> IsChange(change)
    decreases |changes|
  {
    if changes == [] then c
    else
      assert changes[|changes| - 1] in changes;
      Changed(After(c, changes[..|changes| - 1]), changes[|changes| - 1])
  }

  /** What was contained, or was inserted, stays contained, and epochs are only added. */
  lemma {:induction false} NeverForgets(c: Contents, changes: seq<Change>)
    requires forall change :: change in changes ==> IsChange(change)
    ensures c.prefixes <= After(c, changes).prefixes
    ensures forall change :: change in changes && change.InsertChange? ==>
              Manifest.PrefixOf(change.fingerprint) in After(c, changes).prefixes
    ensures After(c, changes).start <= c.start && c.end <= After(c, changes).end
    decreases |changes|
  {
    if changes != [] {
      hide Word;
      var front, last := changes[..|changes| - 1], changes[|changes| - 1];
      assert changes == front + [last];
      NeverForgets(c, front);
    }
  }

  /**
   Carries out changes on a manifest. Every transmission arrives, whatever its pieces,
   and every fingerprint that was contained or inserted is contained in the end.
   */
  method Replay(m: Manifest, changes: seq<Change>) returns (n: Manifest)
    requires m.start <= m.end && forall change :: change in changes ==> IsChange(change)
    ensures fresh(n) && n.Value() == After(m.Value(), changes)
    ensures forall f: Octets :: |f| >= 4 && (m.Contains(f) || InsertChange(f) in changes) ==> n.Contains(f)
  {
    hide Word;
    n := new Manifest(Contents(m.start, m.end, m.prefixes));
    for i := 0 to |changes|
      invariant fresh(n) && n.Value() == After(m.Value(), changes[..i])
    {
      assert changes[..i + 1][..i] == changes[..i] && changes[i] in changes;
      NeverForgets(m.Value(), changes[..i]);
      if changes[i].InsertChange? {
        n.Insert(changes[i].fingerprint);
      } else if changes[i].MergeChange? {
        var other := new Manifest(changes[i].other);
        n := n.Merge(other);
      } else {
        var r := Transmit(n, changes[i].sizes);
        n := new Manifest(r.contents);
      }
    }
    assert changes[..|changes|] == changes;
    NeverForgets(m.Value(), changes);
  }
}
