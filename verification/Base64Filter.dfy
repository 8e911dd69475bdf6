/**
 `base64_filter` of `openpgp/src/armor/base64_utils.rs`: strips whitespace and
 quoting prefixes from armored text and hands out whole base64 quads.
 */
module Base64Filter {
  import opened Bytes
  import opened Base64

  const NEWLINE: byte := 10

  predicate IsWhitespace(b: byte) {
    b == 32 || b == 9 || b == 10 || b == 12 || b == 13
  }

  // ----- What the text means

  /**
   The text without whitespace and without the first `prefix` octets of every
   line, given that `remaining` octets of the current line's prefix are left.
   */
  function Visible(s: Octets, remaining: nat, prefix: nat): Octets {
    if s == [] then []
    else if remaining > 0 then Visible(s[1..], remaining - 1, prefix)
    else if IsWhitespace(s[0]) then Visible(s[1..], if s[0] == NEWLINE then prefix else 0, prefix)
    else [s[0]] + Visible(s[1..], 0, prefix)
  }

  /** How much of the current line's prefix is left after `s`. */
  function Remaining(s: Octets, remaining: nat, prefix: nat): nat {
    if s == [] then remaining
    else if remaining > 0 then Remaining(s[1..], remaining - 1, prefix)
    else Remaining(s[1..], if s[0] == NEWLINE then prefix else 0, prefix)
  }

  /** Base64 characters, then at most two padding characters, none at the start of a quad. */
  ghost predicate Legal(q: Octets) {
    forall i :: 0 <= i < |q| ==>
      if q[i] == PAD then i % 4 != 0 && |q| - 2 <= i && q[|q| - 1] == PAD else IsBase64Char(q[i])
  }

  /** The longest run of whole, legal quads at the start of `d`. */
  function Quads(d: Octets): (q: Octets)
    ensures q <= d && |q| % 4 == 0
  {
    if |d| < 4 || !IsQuad(d[..4]) then []
    else if d[3] == PAD then d[..4]
    else d[..4] + Quads(d[4..])
  }

  predicate IsQuad(q: Octets)
    requires |q| == 4
  {
    && IsBase64Char(q[0])
    && IsBase64Char(q[1])
    && (IsBase64Char(q[2]) || (q[2] == PAD && q[3] == PAD))
    && (IsBase64Char(q[3]) || q[3] == PAD)
  }

  lemma {:induction false} VisibleAppend(a: Octets, b: Octets, remaining: nat, prefix: nat)
    ensures Visible(a + b, remaining, prefix)
         == Visible(a, remaining, prefix) + Visible(b, Remaining(a, remaining, prefix), prefix)
    ensures Remaining(a + b, remaining, prefix) == Remaining(b, Remaining(a, remaining, prefix), prefix)
    decreases |a|
  {
    if a == [] {
      assert a + b == b;
    } else {
      assert (a + b)[1..] == a[1..] + b;
      var next := if remaining > 0 then remaining - 1 else if a[0] == NEWLINE then prefix else 0;
      VisibleAppend(a[1..], b, next, prefix);
    }
  }

  lemma {:induction false} VisibleNoLonger(s: Octets, remaining: nat, prefix: nat)
    ensures |Visible(s, remaining, prefix)| <= |s|
    decreases |s|
  {
    if s != [] {
      VisibleNoLonger(s[1..], if remaining > 0 then remaining - 1 else if s[0] == NEWLINE then prefix else 0, prefix);
    }
  }

  lemma {:induction false} NothingRemains(s: Octets)
    ensures Remaining(s, 0, 0) == 0
    decreases |s|
  {
    if s != [] {
      NothingRemains(s[1..]);
    }
  }

  /** `Quads` is the longest legal prefix made of whole quads, and nothing else is. */
  lemma {:induction false} QuadsAreLongest(d: Octets, n: nat)
    requires n <= |d| && n % 4 == 0
    ensures Legal(d[..n]) <==> n <= |Quads(d)|
    decreases |d|
  {
    if n >= 4 {
      var first, rest := d[..4], d[4..];
      if Legal(d[..n]) {
        assert forall i :: 0 <= i < 4 ==> d[..n][i] == first[i];
        assert forall i :: 4 <= i < n ==> d[..n][i] == rest[..n - 4][i - 4];
      }
      if !IsQuad(first) {
        if Legal(d[..n]) { assert false; }
      } else if d[3] == PAD {
        if n > 4 && Legal(d[..n]) { assert false; }
      } else {
        QuadsAreLongest(rest, n - 4);
        assert rest[..n - 4] == d[..n][4..];
        LegalSplit(d[..n]);
      }
    }
  }

  lemma LegalSplit(q: Octets)
    requires |q| >= 4 && IsQuad(q[..4]) && q[3] != PAD
    ensures Legal(q) <==> Legal(q[4..])
  {
    var rest := q[4..];
    if Legal(q) {
      forall i | 0 <= i < |rest|
        ensures if rest[i] == PAD then i % 4 != 0 && |rest| - 2 <= i && rest[|rest| - 1] == PAD
                else IsBase64Char(rest[i])
      {
        assert rest[i] == q[i + 4];
      }
    } else if Legal(rest) {
      forall i | 0 <= i < |q|
        ensures if q[i] == PAD then i % 4 != 0 && |q| - 2 <= i && q[|q| - 1] == PAD else IsBase64Char(q[i])
      {
        if i >= 4 {
          assert q[i] == rest[i - 4];
        } else {
          assert q[i] == q[..4][i];
        }
      }
    }
  }

  // ----- The in-place filter

  /** What the loop knows about the characters kept so far. */
  ghost predicate Kept(q: Octets, padding: nat) {
    && Legal(q)
    && padding <= 2
    && (padding > 0 <==> |q| > 0 && q[|q| - 1] == PAD)
    && (padding == 2 <==> |q| > 1 && q[|q| - 2] == PAD)
  }

  /** One more character keeps the characters legal exactly when the loop accepts it. */
  lemma KeepOne(q: Octets, padding: nat, b: byte)
    requires Kept(q, padding)
    ensures b == PAD ==> (padding < 2 && |q| % 4 != 0 <==> Legal(q + [b]))
    ensures b != PAD ==> (padding == 0 && IsBase64Char(b) <==> Legal(q + [b]))
    ensures padding <= 2
    ensures Legal(q + [b]) ==> Kept(q + [b], if b == PAD then padding + 1 else padding)
  {
    var r := q + [b];
    if b == PAD {
      if padding < 2 && |q| % 4 != 0 {
        forall i | 0 <= i < |q| && q[i] == PAD ensures |r| - 2 <= i {
        }
      } else {
        assert r[|q|] == PAD && (padding == 2 ==> r[|q| - 2] == PAD);
      }
    } else if padding > 0 {
      assert r[|q| - 1] == PAD && r[|r| - 1] != PAD;
    } else if Legal(r) {
      assert r[|q|] == b;
    }
    if Legal(r) {
      assert padding > 0 ==> r[|q| - 1] == PAD;
    }
  }

  /** Nothing legal and whole follows a prefix that cannot be extended by its next character. */
  lemma CannotExtend(d: Octets, k: nat)
    requires k < |d| && Legal(d[..k]) && !Legal(d[..k + 1])
    ensures |Quads(d)| <= k
  {
    var n := |Quads(d)|;
    QuadsAreLongest(d, n);
    if n > k {
      assert d[..n][..k + 1] == d[..k + 1];
      LegalPrefix(d[..n], k + 1);
    }
  }

  lemma LegalPrefix(q: Octets, k: nat)
    requires k <= |q| && Legal(q)
    ensures Legal(q[..k])
  {
    forall i | 0 <= i < k
      ensures if q[i] == PAD then i % 4 != 0 && k - 2 <= i && q[k - 1] == PAD else IsBase64Char(q[i])
    {
      assert q[i] == q[..k][i];
    }
  }

  /** Where the last whole quad of `kept` ends in the text. */
  ghost predicate EndsAt(s: Octets, remaining: nat, prefix: nat, quads: Octets, at: nat) {
    && at <= |s|
    && Visible(s[..at], remaining, prefix) == quads
    && (quads != [] ==> at > 0 && |Visible(s[..at - 1], remaining, prefix)| == |quads| - 1)
  }

  lemma ScanOne(s: Octets, at: nat, remaining: nat, prefix: nat)
    requires at < |s|
    ensures var left, kept := Remaining(s[..at], remaining, prefix), Visible(s[..at], remaining, prefix);
            && Remaining(s[..at + 1], remaining, prefix)
            == (if left > 0 then left - 1 else if s[at] == NEWLINE then prefix else 0)
            && Visible(s[..at + 1], remaining, prefix)
            == (if left > 0 || IsWhitespace(s[at]) then kept else kept + [s[at]])
  {
    assert s[..at + 1] == s[..at] + [s[at]];
    VisibleAppend(s[..at], [s[at]], remaining, prefix);
    var left := Remaining(s[..at], remaining, prefix);
    assert [s[at]][1..] == [];
    assert Visible([], 0, prefix) == [];
  }

  /** What the loop knows when it may stop: nothing more can be kept. */
  ghost predicate Exhausted(s: Octets, at: nat, remaining: nat, prefix: nat, limit: nat)
    requires at <= |s|
  {
    var kept := Visible(s[..at], remaining, prefix);
    || at == |s|
    || |kept| == limit
    || (|kept| > 0 && kept[|kept| - 1] == PAD && |kept| % 4 == 0)
    || (Remaining(s[..at], remaining, prefix) == 0 && !IsWhitespace(s[at]) && !Legal(kept + [s[at]]))
  }

  /** Where the loop stops: the first offset at which nothing more can be kept. */
  ghost function StopFrom(s: Octets, at: nat, remaining: nat, prefix: nat, limit: nat): (stop: nat)
    requires at <= |s|
    ensures at <= stop <= |s| && Exhausted(s, stop, remaining, prefix, limit)
    ensures forall i :: at <= i < stop ==> !Exhausted(s, i, remaining, prefix, limit)
    decreases |s| - at
  {
    if Exhausted(s, at, remaining, prefix, limit) then at else StopFrom(s, at + 1, remaining, prefix, limit)
  }

  ghost function StopOffset(s: Octets, max: nat, remaining: nat, prefix: nat): (stop: nat)
    ensures stop <= |s|
  {
    StopFrom(s, 0, remaining, prefix, max / 4 * 4)
  }

  lemma ExhaustedIsDone(s: Octets, at: nat, remaining: nat, prefix: nat, limit: nat, padding: nat)
    requires at <= |s| && limit % 4 == 0
    requires Kept(Visible(s[..at], remaining, prefix), padding)
    requires |Visible(s[..at], remaining, prefix)| <= limit
    requires Exhausted(s, at, remaining, prefix, limit)
    ensures var kept, quads := Visible(s[..at], remaining, prefix), Quads(Visible(s, remaining, prefix));
            quads[..Min(|quads|, limit)] == kept[..|kept| - |kept| % 4]
  {
    hide Visible, Remaining, Quads, Legal, Kept;
    var kept, d := Visible(s[..at], remaining, prefix), Visible(s, remaining, prefix);
    assert s == s[..at] + s[at..];
    VisibleAppend(s[..at], s[at..], remaining, prefix);
    NothingYet(Remaining(s[..at], remaining, prefix), prefix);
    if at < |s| && Remaining(s[..at], remaining, prefix) == 0 && !IsWhitespace(s[at]) {
      NextVisible(s, at, remaining, prefix);
    }
    DoneWith(d, kept, limit, padding);
  }

  lemma KeptIsLegal(q: Octets, padding: nat)
    requires Kept(q, padding)
    ensures Legal(q)
  {
  }

  /** Nothing can be kept behind a padded quad. */
  lemma PaddedIsLast(q: Octets, padding: nat, b: byte)
    requires Kept(q, padding) && |q| > 0 && q[|q| - 1] == PAD && |q| % 4 == 0
    ensures !Legal(q + [b])
  {
    hide Legal;
    KeepOne(q, padding, b);
  }

  /** The whole quads are found once nothing more can be kept. */
  lemma DoneWith(d: Octets, kept: Octets, limit: nat, padding: nat)
    requires kept <= d && Kept(kept, padding) && |kept| <= limit && limit % 4 == 0
    requires || |kept| == |d|
             || |kept| == limit
             || (|kept| > 0 && kept[|kept| - 1] == PAD && |kept| % 4 == 0)
             || !Legal(kept + [d[|kept|]])
    ensures Quads(d)[..Min(|Quads(d)|, limit)] == kept[..|kept| - |kept| % 4]
  {
    hide Quads, Legal, Kept;
    var k := |kept|;
    var whole := k - k % 4;
    KeptIsLegal(kept, padding);
    LegalPrefix(kept, whole);
    assert d[..k] == kept && d[..whole] == kept[..whole];
    QuadsAreLongest(d, whole);
    if k < |d| && k < limit {
      assert d[..k + 1] == kept + [d[k]];
      if |kept| > 0 && kept[|kept| - 1] == PAD && |kept| % 4 == 0 {
        PaddedIsLast(kept, padding, d[k]);
      }
      CannotExtend(d, k);
    }
    QuadsEnd(d, whole, k, limit);
  }

  lemma QuadsEnd(d: Octets, whole: nat, k: nat, limit: nat)
    requires whole == k - k % 4 && k <= |d| && k <= limit && limit % 4 == 0
    requires whole <= |Quads(d)| && (k < |d| && k < limit ==> |Quads(d)| <= k)
    ensures Quads(d)[..Min(|Quads(d)|, limit)] == d[..whole]
  {
    hide Quads;
  }

  lemma NextVisible(s: Octets, at: nat, remaining: nat, prefix: nat)
    requires at < |s| && Remaining(s[..at], remaining, prefix) == 0 && !IsWhitespace(s[at])
    ensures Visible(s[..at], remaining, prefix) + [s[at]] <= Visible(s, remaining, prefix)
  {
    hide Visible, Remaining;
    ScanOne(s, at, remaining, prefix);
    assert s == s[..at + 1] + s[at + 1..];
    VisibleAppend(s[..at + 1], s[at + 1..], remaining, prefix);
  }

  /** The loop's variables; `left` is the part of the quoting prefix still to skip. */
  datatype Scan = Scan(leading: nat, bytes: Octets, offset: nat, len: nat, padding: nat, complete: nat, left: nat)

  function Whole(n: nat): (w: nat)
    ensures w <= n
  {
    n - n % 4
  }

  ghost predicate InBounds(s: Octets, v: Scan) {
    v.complete <= v.offset <= |v.bytes| && v.len <= v.offset && v.leading + |v.bytes| == |s|
  }

  ghost predicate Scanned(s: Octets, remaining: nat, prefix: nat, v: Scan)
    requires InBounds(s, v)
  {
    && v.bytes[v.offset..] == s[v.leading + v.offset..]
    && v.left == Remaining(s[..v.leading + v.offset], remaining, prefix)
    && v.bytes[..v.len] == Visible(s[..v.leading + v.offset], remaining, prefix)
    && Kept(v.bytes[..v.len], v.padding)
    && EndsAt(s, remaining, prefix, v.bytes[..Whole(v.len)], v.leading + v.complete)
  }

  lemma SkipOne(s: Octets, remaining: nat, prefix: nat, v: Scan, left: nat)
    requires InBounds(s, v) && Scanned(s, remaining, prefix, v) && v.offset < |v.bytes|
    requires v.left > 0 || IsWhitespace(v.bytes[v.offset])
    requires left == if v.left > 0 then v.left - 1 else if v.bytes[v.offset] == NEWLINE then prefix else 0
    ensures Scanned(s, remaining, prefix, v.(offset := v.offset + 1, left := left))
  {
    hide Visible, Remaining, Kept, IsWhitespace, Whole, EndsAt;
    var at := v.leading + v.offset;
    Moved(v.bytes, v.offset, v.offset, 0);
    Moved(s, at, at, 0);
    ScanOne(s, at, remaining, prefix);
  }

  /** In front of all that is kept, skipping an octet can be done by cutting it off. */
  lemma SkipLeading(s: Octets, remaining: nat, prefix: nat, v: Scan)
    requires InBounds(s, v) && v.offset == 1 && v.len == 0 && v.complete == 0
    requires Scanned(s, remaining, prefix, v)
    ensures Scanned(s, remaining, prefix, v.(leading := v.leading + 1, bytes := v.bytes[1..], offset := 0))
  {
    hide Visible, Remaining, Kept;
    var w := v.(leading := v.leading + 1, bytes := v.bytes[1..], offset := 0);
    assert w.bytes[0..] == v.bytes[1..] && w.bytes[..0] == v.bytes[..0];
  }

  /** What is kept of the text, with one more character. */
  lemma KeepStep(s: Octets, remaining: nat, prefix: nat, v: Scan, bytes: Octets, padding: nat, complete: nat)
    requires InBounds(s, v) && Scanned(s, remaining, prefix, v) && v.offset < |v.bytes|
    requires v.left == 0 && !IsWhitespace(v.bytes[v.offset])
    requires bytes == v.bytes[v.len := v.bytes[v.offset]]
    requires Kept(v.bytes[..v.len] + [v.bytes[v.offset]], padding)
    requires complete == if (v.len + 1) % 4 == 0 then v.offset + 1 else v.complete
    ensures Scanned(s, remaining, prefix,
                    v.(bytes := bytes, offset := v.offset + 1, len := v.len + 1,
                       padding := padding, complete := complete))
  {
    hide Visible, Remaining, Kept, Whole, EndsAt;
    var at := v.leading + v.offset;
    Moved(v.bytes, v.len, v.offset, Whole(v.len));
    Moved(s, at, at, at);
    ScanOne(s, at, remaining, prefix);
    WholeNext(v.len);
    assert v.bytes[v.offset] == s[at];
    assert bytes[..v.len + 1] == Visible(s[..at + 1], remaining, prefix);
    QuadEnd(s, remaining, prefix, v, bytes);
  }

  /** Where the last whole quad ends, with one more character. */
  lemma QuadEnd(s: Octets, remaining: nat, prefix: nat, v: Scan, bytes: Octets)
    requires InBounds(s, v) && v.offset < |v.bytes| == |bytes|
    requires bytes[..Whole(v.len)] == v.bytes[..Whole(v.len)]
    requires EndsAt(s, remaining, prefix, v.bytes[..Whole(v.len)], v.leading + v.complete)
    requires bytes[..v.len + 1] == Visible(s[..v.leading + v.offset + 1], remaining, prefix)
    requires bytes[..v.len + 1] == Visible(s[..v.leading + v.offset], remaining, prefix) + [s[v.leading + v.offset]]
    ensures EndsAt(s, remaining, prefix, bytes[..Whole(v.len + 1)],
                   v.leading + if (v.len + 1) % 4 == 0 then v.offset + 1 else v.complete)
  {
    hide Visible, Remaining, Whole, EndsAt;
    WholeNext(v.len);
    if (v.len + 1) % 4 == 0 {
      EndsHere(s, remaining, prefix, v.leading + v.offset, bytes[..v.len + 1]);
    }
  }

  /** Moving one octet down. */
  lemma Moved(b: Octets, len: nat, offset: nat, w: nat)
    requires w <= len <= offset < |b|
    ensures var c := b[len := b[offset]];
            c[offset + 1..] == b[offset..][1..] && c[..len + 1] == b[..len] + [b[offset]] && c[..w] == b[..w]
    ensures b[offset..][0] == b[offset] && b[offset..][1..] == b[offset + 1..]
  {
  }

  lemma EndsHere(s: Octets, remaining: nat, prefix: nat, at: nat, kept: Octets)
    requires at < |s| && Visible(s[..at + 1], remaining, prefix) == kept
    requires kept == Visible(s[..at], remaining, prefix) + [s[at]]
    ensures EndsAt(s, remaining, prefix, kept, at + 1)
  {
    hide Visible;
  }

  lemma WholeNext(n: nat)
    ensures Whole(n + 1) == if (n + 1) % 4 == 0 then n + 1 else Whole(n)
  {
  }

  lemma StopAt(s: Octets, remaining: nat, prefix: nat, v: Scan, limit: nat)
    requires InBounds(s, v) && Scanned(s, remaining, prefix, v) && v.len <= limit
    requires || v.offset == |v.bytes|
             || v.len == limit
             || (v.padding > 0 && v.len % 4 == 0)
             || (v.left == 0 && !IsWhitespace(v.bytes[v.offset]) && !Legal(v.bytes[..v.len] + [v.bytes[v.offset]]))
    ensures Exhausted(s, v.leading + v.offset, remaining, prefix, limit)
  {
    hide Visible, Remaining, Legal, IsWhitespace, EndsAt;
    if v.offset < |v.bytes| {
      assert v.bytes[v.offset] == v.bytes[v.offset..][0] == s[v.leading + v.offset];
    }
  }

  /** The loop goes on only where it may not stop. */
  lemma GoOn(s: Octets, remaining: nat, prefix: nat, v: Scan, limit: nat)
    requires InBounds(s, v) && Scanned(s, remaining, prefix, v)
    requires v.offset < |v.bytes| && v.len < limit && !(v.padding > 0 && v.len % 4 == 0)
    requires v.left > 0 || IsWhitespace(v.bytes[v.offset]) || Legal(v.bytes[..v.len] + [v.bytes[v.offset]])
    ensures var at := v.leading + v.offset;
            StopFrom(s, at, remaining, prefix, limit) == StopFrom(s, at + 1, remaining, prefix, limit)
  {
    hide Visible, Remaining, Legal, IsWhitespace, EndsAt;
    assert v.bytes[v.offset] == v.bytes[v.offset..][0] == s[v.leading + v.offset];
  }

  lemma StopsHere(s: Octets, at: nat, remaining: nat, prefix: nat, limit: nat)
    requires at <= |s| && Exhausted(s, at, remaining, prefix, limit)
    ensures StopFrom(s, at, remaining, prefix, limit) == at
  {
  }

  lemma StartScan(s: Octets, remaining: nat, prefix: nat)
    ensures Scanned(s, remaining, prefix, Scan(0, s, 0, 0, 0, 0, remaining))
  {
    NothingYet(remaining, prefix);
    assert s[..0] == [] && s[0..] == s;
  }

  lemma FinishScan(s: Octets, remaining: nat, prefix: nat, v: Scan, limit: nat)
    requires InBounds(s, v) && Scanned(s, remaining, prefix, v) && v.len <= limit && limit % 4 == 0
    requires Exhausted(s, v.leading + v.offset, remaining, prefix, limit)
    ensures var quads := Quads(Visible(s, remaining, prefix));
            v.bytes[..Whole(v.len)] == quads[..Min(|quads|, limit)]
    ensures EndsAt(s, remaining, prefix, v.bytes[..Whole(v.len)], v.leading + v.complete)
    ensures v.left == Remaining(s[..v.leading + v.offset], remaining, prefix)
  {
    hide Visible, Remaining, Quads, EndsAt, Exhausted;
    ExhaustedIsDone(s, v.leading + v.offset, remaining, prefix, limit, v.padding);
    assert v.bytes[..v.len][..Whole(v.len)] == v.bytes[..Whole(v.len)];
  }

  /** The state of the loop, short of where it stops. */
  ghost predicate Scanning(s: Octets, remaining: nat, prefix: nat, limit: nat, v: Scan)
    requires InBounds(s, v)
  {
    && Scanned(s, remaining, prefix, v) && v.len <= limit
    && StopFrom(s, 0, remaining, prefix, limit) == StopFrom(s, v.leading + v.offset, remaining, prefix, limit)
  }

  predicate MayGoOn(v: Scan, limit: nat) {
    v.offset < |v.bytes| && v.len < limit && !(v.padding > 0 && v.len % 4 == 0)
  }

  /** The next character can be kept. */
  predicate CanKeep(v: Scan, c: byte) {
    if c == PAD then v.padding != 2 && v.len % 4 != 0 else v.padding == 0 && IsBase64Char(c)
  }

  lemma Starts(s: Octets, remaining: nat, prefix: nat, limit: nat)
    ensures Scanning(s, remaining, prefix, limit, Scan(0, s, 0, 0, 0, 0, remaining))
  {
    hide Scanned, StopFrom;
    StartScan(s, remaining, prefix);
  }

  lemma Skips(s: Octets, remaining: nat, prefix: nat, limit: nat, v: Scan, left: nat)
    requires InBounds(s, v) && Scanning(s, remaining, prefix, limit, v) && MayGoOn(v, limit)
    requires v.left > 0 || IsWhitespace(v.bytes[v.offset])
    requires left == if v.left > 0 then v.left - 1 else if v.bytes[v.offset] == NEWLINE then prefix else 0
    ensures Scanning(s, remaining, prefix, limit, v.(offset := v.offset + 1, left := left))
    ensures v.offset == 0 ==>
              Scanning(s, remaining, prefix, limit, v.(leading := v.leading + 1, bytes := v.bytes[1..], left := left))
  {
    hide Scanned, StopFrom, IsWhitespace;
    SkipOne(s, remaining, prefix, v, left);
    if v.offset == 0 {
      SkipLeading(s, remaining, prefix, v.(offset := 1, left := left));
    }
    GoOn(s, remaining, prefix, v, limit);
  }

  lemma Keeps(s: Octets, remaining: nat, prefix: nat, limit: nat, v: Scan)
    requires InBounds(s, v) && Scanning(s, remaining, prefix, limit, v) && MayGoOn(v, limit)
    requires v.left == 0 && !IsWhitespace(v.bytes[v.offset]) && CanKeep(v, v.bytes[v.offset])
    ensures var c := v.bytes[v.offset];
            Scanning(s, remaining, prefix, limit,
                     v.(bytes := v.bytes[v.len := c], offset := v.offset + 1, len := v.len + 1,
                        padding := if c == PAD then v.padding + 1 else v.padding,
                        complete := if (v.len + 1) % 4 == 0 then v.offset + 1 else v.complete))
  {
    hide Scanned, StopFrom, IsWhitespace, Kept, Legal, IsBase64Char;
    var c := v.bytes[v.offset];
    ScannedIsKept(s, remaining, prefix, v);
    KeepOne(v.bytes[..v.len], v.padding, c);
    GoOn(s, remaining, prefix, v, limit);
    KeepStep(s, remaining, prefix, v, v.bytes[v.len := c], if c == PAD then v.padding + 1 else v.padding,
             if (v.len + 1) % 4 == 0 then v.offset + 1 else v.complete);
  }

  lemma Finishes(s: Octets, remaining: nat, prefix: nat, limit: nat, v: Scan)
    requires InBounds(s, v) && Scanning(s, remaining, prefix, limit, v) && limit % 4 == 0
    requires MayGoOn(v, limit) ==>
               v.left == 0 && !IsWhitespace(v.bytes[v.offset]) && !CanKeep(v, v.bytes[v.offset])
    ensures var quads := Quads(Visible(s, remaining, prefix));
            v.bytes[..Whole(v.len)] == quads[..Min(|quads|, limit)]
    ensures EndsAt(s, remaining, prefix, v.bytes[..Whole(v.len)], v.leading + v.complete)
    ensures StopFrom(s, 0, remaining, prefix, limit) == v.leading + v.offset
    ensures v.left == Remaining(s[..v.leading + v.offset], remaining, prefix)
  {
    hide Scanned, StopFrom, IsWhitespace, Kept, Legal, IsBase64Char, Quads, Visible, Remaining, EndsAt, Exhausted;
    ScannedIsKept(s, remaining, prefix, v);
    if MayGoOn(v, limit) {
      KeepOne(v.bytes[..v.len], v.padding, v.bytes[v.offset]);
    }
    StopAt(s, remaining, prefix, v, limit);
    FinishScan(s, remaining, prefix, v, limit);
    StopsHere(s, v.leading + v.offset, remaining, prefix, limit);
  }

  method Filter(s: Octets, max: nat, remaining: nat, prefix: nat)
    returns (data: Octets, consumed: nat, remaining': nat)
    ensures var quads := Quads(Visible(s, remaining, prefix));
            data == quads[..Min(|quads|, max / 4 * 4)]
    ensures EndsAt(s, remaining, prefix, data, consumed)
    ensures consumed <= StopOffset(s, max, remaining, prefix)
    ensures remaining' == Remaining(s[..StopOffset(s, max, remaining, prefix)], remaining, prefix)
  {
    hide Visible, Remaining, Quads, IsBase64Char, IsWhitespace, Scanning, EndsAt, Whole, StopFrom;
    var bytes: Octets, owned := s, false;
    var leading := 0;
    var limit := max / 4 * 4;
    var len, offset, complete, padding := 0, 0, 0, 0;
    remaining' := remaining;
    Starts(s, remaining, prefix, limit);
    while offset < |bytes| && len < limit && !(padding > 0 && len % 4 == 0)
      invariant InBounds(s, Scan(leading, bytes, offset, len, padding, complete, remaining'))
      invariant Scanning(s, remaining, prefix, limit, Scan(leading, bytes, offset, len, padding, complete, remaining'))
      invariant offset == 0 ==> !owned
      decreases |s| - (leading + offset)
    {
      ghost var v := Scan(leading, bytes, offset, len, padding, complete, remaining');
      var c := bytes[offset];
      if remaining' > 0 {
        remaining' := remaining' - 1;
        Skips(s, remaining, prefix, limit, v, remaining');
        if offset == 0 && !owned {
          bytes := bytes[1..];
          leading := leading + 1;
          continue;
        }
        offset := offset + 1;
        continue;
      }
      if IsWhitespace(c) {
        if c == NEWLINE {
          remaining' := prefix;
        }
        Skips(s, remaining, prefix, limit, v, remaining');
        if offset == 0 && !owned {
          bytes := bytes[1..];
          leading := leading + 1;
          continue;
        }
      } else if c == PAD {
        if padding == 2 { break; }
        if len % 4 == 0 { break; }
        Keeps(s, remaining, prefix, limit, v);
        assert offset == len ==> bytes[len := c] == bytes;
        if offset != len {
          bytes, owned := bytes[len := PAD], true;
        }
        len := len + 1;
        if len % 4 == 0 {
          complete := offset + 1;
        }
        padding := padding + 1;
      } else if padding > 0 {
        break;
      } else if IsBase64Char(c) {
        Keeps(s, remaining, prefix, limit, v);
        assert offset == len ==> bytes[len := c] == bytes;
        if offset != len {
          bytes, owned := bytes[len := c], true;
        }
        len := len + 1;
        if len % 4 == 0 {
          complete := offset + 1;
        }
      } else {
        break;
      }
      offset := offset + 1;
    }
    Finishes(s, remaining, prefix, limit, Scan(leading, bytes, offset, len, padding, complete, remaining'));
    len := Whole(len);
    complete := complete + leading;
    data, consumed := bytes[..len], complete;
  }

  lemma ScannedIsKept(s: Octets, remaining: nat, prefix: nat, v: Scan)
    requires InBounds(s, v) && Scanned(s, remaining, prefix, v)
    ensures Kept(v.bytes[..v.len], v.padding)
  {
  }

  lemma NothingYet(remaining: nat, prefix: nat)
    ensures Visible([], remaining, prefix) == [] && Remaining([], remaining, prefix) == remaining
    ensures Kept([], 0)
  {
  }

  // ----- Cutting quads

  lemma QuadsUnfold(d: Octets)
    ensures Quads(d) != [] ==>
              |d| >= 4 && Quads(d) == if d[3] == PAD then d[..4] else d[..4] + Quads(d[4..])
  {
  }

  lemma {:induction false} QuadsCut(d: Octets, n: nat)
    requires n % 4 == 0 && n <= |Quads(d)|
    ensures Quads(d) == d[..n] + if n > 0 && d[n - 1] == PAD then [] else Quads(d[n..])
    decreases n
  {
    hide IsQuad, Quads;
    QuadsUnfold(d);
    if n == 0 {
      assert d[0..] == d;
    } else if d[3] != PAD {
      var rest := d[4..];
      QuadsCut(rest, n - 4);
      CutFour(d, n, if d[n - 1] == PAD then [] else Quads(d[n..]));
    } else {
      assert n == 4;
    }
  }

  lemma CutFour(d: Octets, n: nat, tail: Octets)
    requires 4 <= n <= |d|
    ensures d[4..][n - 4..] == d[n..] && (n > 4 ==> d[4..][n - 5] == d[n - 1])
    ensures d[..4] + (d[4..][..n - 4] + tail) == d[..n] + tail
  {
  }
}
