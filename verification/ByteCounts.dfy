/**
 The two byte-count grammars (cmd/openvox-ca/launcher_memlimit.go): the one the
 Go runtime accepts for GOMEMLIMIT, and the configuration grammar that also takes
 the IEC prefix without its "B". Both parsers are proved against the grammars,
 values included, and decimal printing is proved to be undone by parsing.
 */
module ByteCounts {
  import opened Options
  import opened Strings

  const MAX_INT64: int := 0x7fff_ffff_ffff_ffff

  newtype int64 = x: int | -0x8000_0000_0000_0000 <= x <= 0x7fff_ffff_ffff_ffff

  // ----- The grammars

  predicate IsDigit(c: char) { '0' <= c <= '9' }

  predicate AllDigits(s: string) { forall i :: 0 <= i < |s| ==> IsDigit(s[i]) }

  function Decimal(s: string): (n: nat)
    requires AllDigits(s)
  {
    if s == "" then 0 else Decimal(s[..|s| - 1]) * 10 + (s[|s| - 1] as int - '0' as int)
  }

  const PREFIXES := ["", "Ki", "Mi", "Gi", "Ti"]

  const SCALES: seq<nat> := [1, 0x400, 0x10_0000, 0x4000_0000, 0x100_0000_0000]

  /** `s` is digits, then the p-th IEC prefix, then "B" if `b`: the words of `[0-9]+([KMGT]i)?B?`. */
  ghost predicate Written(s: string, digits: string, p: nat, b: bool) {
    digits != "" && AllDigits(digits) && p <= 4 && s == digits + PREFIXES[p] + (if b then "B" else "")
  }

  ghost function Value(digits: string, p: nat): (n: nat)
    requires AllDigits(digits) && p <= 4
  {
    Decimal(digits) * SCALES[p]
  }

  /** What the runtime reads: a prefix needs its "B", and the scaled value fits in an int64. */
  ghost predicate GoDenotes(s: string, n: int) {
    exists d, p: nat, b :: Written(s, d, p, b) && (p > 0 ==> b) && n == Value(d, p) && n <= MAX_INT64
  }

  ghost predicate ConfiguredDenotes(s: string, n: int) {
    exists d, p: nat, b :: Written(s, d, p, b) && n == Value(d, p) && n <= MAX_INT64
  }

  /** A word is written in one way only. */
  lemma WrittenOnce(s: string, d: string, p: nat, b: bool, d': string, p': nat, b': bool)
    requires Written(s, d, p, b) && Written(s, d', p', b')
    ensures d == d' && p == p' && b == b'
  {
    assert b <==> s[|s| - 1] == 'B' by {
      LastOf(s, d, p, b);
    }
    assert b' <==> s[|s| - 1] == 'B' by {
      LastOf(s, d', p', b');
    }
    var t := if b then s[..|s| - 1] else s;
    assert t == d + PREFIXES[p] && t == d' + PREFIXES[p'];
    PrefixOf(t, d, p);
    PrefixOf(t, d', p');
  }

  /** The last character tells whether the "B" is there. */
  lemma LastOf(s: string, d: string, p: nat, b: bool)
    requires Written(s, d, p, b)
    ensures b <==> s[|s| - 1] == 'B'
    ensures !b && p == 0 ==> IsDigit(s[|s| - 1])
    ensures !b && p > 0 ==> s[|s| - 1] == 'i'
  {
    if !b && p == 0 {
      assert s[|s| - 1] == d[|d| - 1];
    }
  }

  /** What precedes the "B" tells the prefix. */
  lemma PrefixOf(t: string, d: string, p: nat)
    requires d != "" && AllDigits(d) && p <= 4 && t == d + PREFIXES[p]
    ensures p == 0 <==> IsDigit(t[|t| - 1])
    ensures forall q :: 1 <= q <= 4 ==> (HasSuffix(t, PREFIXES[q]) <==> p == q)
    ensures d == t[..|t| - |PREFIXES[p]|]
  {
    if p == 0 {
      assert t == d && t[|t| - 1] == d[|d| - 1];
      forall q | 1 <= q <= 4 && |t| >= 2 ensures t[|t| - 2..] != PREFIXES[q] {
        assert t[|t| - 2..][1] == t[|t| - 1] && PREFIXES[q][1] == 'i';
      }
    } else {
      assert t[|t| - 2..] == PREFIXES[p];
    }
  }

  ghost function GoByteCount(s: string): (r: Option<int>)
    ensures r.Some? <==> exists n :: GoDenotes(s, n)
    ensures r.Some? ==> GoDenotes(s, r.value)
  {
    if exists n :: GoDenotes(s, n) then
      var n :| GoDenotes(s, n); Some(n)
    else None
  }

  ghost function ConfiguredByteCount(s: string): (r: Option<int>)
    ensures r.Some? <==> exists n :: ConfiguredDenotes(s, n)
    ensures r.Some? ==> ConfiguredDenotes(s, r.value)
  {
    if exists n :: ConfiguredDenotes(s, n) then
      var n :| ConfiguredDenotes(s, n); Some(n)
    else None
  }

  lemma DenotesOnce(s: string, n: int, m: int)
    requires ConfiguredDenotes(s, n) && ConfiguredDenotes(s, m)
    ensures n == m
  {
    var d, p: nat, b :| Written(s, d, p, b) && n == Value(d, p);
    var d', p': nat, b' :| Written(s, d', p', b') && m == Value(d', p');
    WrittenOnce(s, d, p, b, d', p', b');
  }

  lemma GoIs(s: string, n: int)
    requires GoDenotes(s, n)
    ensures GoByteCount(s) == Some(n) && ConfiguredDenotes(s, n)
  {
    DenotesOnce(s, n, GoByteCount(s).value);
  }

  /** The configuration grammar is a conservative extension: same value wherever the runtime has one. */
  lemma ConfiguredExtendsGo(s: string)
    ensures GoByteCount(s).Some? ==> ConfiguredByteCount(s) == GoByteCount(s)
  {
    if GoByteCount(s).Some? {
      GoIs(s, GoByteCount(s).value);
      DenotesOnce(s, GoByteCount(s).value, ConfiguredByteCount(s).value);
    }
  }

  // ----- The parsers

  /** strconv.ParseInt(digits, 10, 64) on a string of digits. */
  function ParseInt(digits: string): (r: Option<int64>)
    requires AllDigits(digits)
  {
    if Decimal(digits) <= MAX_INT64 then Some(Decimal(digits) as int64) else None
  }

  /** The digits, prefix and "B" are the only way the runtime could read the word. */
  ghost predicate OnlyReading(s: string, digits: string, p: nat, b: bool) {
    && p <= 4 && (p > 0 ==> b) && s == digits + PREFIXES[p] + (if b then "B" else "")
    && forall d, q: nat, c :: Written(s, d, q, c) && (q > 0 ==> c) ==> d == digits && q == p && c == b
  }

  lemma NoReading(s: string, digits: string, p: nat, b: bool)
    requires OnlyReading(s, digits, p, b) && (digits == "" || !AllDigits(digits))
    ensures GoByteCount(s).None?
  {
  }

  lemma EndsInI(s: string)
    requires HasSuffix(s, "i")
    ensures !AllDigits(s)
  {
    assert s[|s| - 1..][0] == s[|s| - 1];
  }

  /** The suffix handling: which digits and which prefix the word must be made of. */
  method StripUnit(s: string) returns (ok: bool, digits: string, p: nat, ghost b: bool)
    requires s != ""
    ensures ok ==> OnlyReading(s, digits, p, b)
    ensures !ok ==> GoByteCount(s).None?
  {
    ok, digits, p, b := true, s, 0, false;
    if HasSuffix(s, "B") {
      b := true;
      digits := s[..|s| - 1];
      ghost var t := digits;
      for i := 1 to 5
        invariant digits == t && p == 0
        invariant forall q :: 1 <= q < i ==> !HasSuffix(t, PREFIXES[q])
      {
        if HasSuffix(digits, PREFIXES[i]) {
          digits := digits[..|digits| - 2];
          p := i;
          break;
        }
      }
      StrippedWithB(s, t, digits, p);
      if HasSuffix(digits, "i") {
        // The letter before the "i" is none of the four.
        EndsInI(digits);
        NoReading(s, digits, p, b);
        ok := false;
      }
    } else {
      StrippedBare(s);
      ok := IsDigit(s[|s| - 1]);
      if !ok {
        NoReading(s, digits, p, b);
      }
    }
  }

  method ParseGoByteCount(s: string) returns (r: Option<int64>)
    ensures r.Some? <==> GoByteCount(s).Some?
    ensures r.Some? ==> r.value as int == GoByteCount(s).value
  {
    if s == "" {
      return None;
    }
    var ok, digits, p, b := StripUnit(s);
    if !ok {
      return None;
    }
    if digits == "" {
      NoReading(s, digits, p, b);
      return None;
    }
    for i := 0 to |digits|
      invariant forall j :: 0 <= j < i ==> IsDigit(digits[j])
    {
      if !IsDigit(digits[i]) {
        NoReading(s, digits, p, b);
        return None;
      }
    }
    ReadingDecides(s, digits, p, b);
    var n := ParseInt(digits);
    if n.None? {
      return None;
    }
    // The shift is refused where it would leave the int64 range.
    if p > 0 && n.value as int > MAX_INT64 / SCALES[p] {
      return None;
    }
    r := Some(n.value * SCALES[p] as int64);
  }

  lemma ReadingDecides(s: string, digits: string, p: nat, b: bool)
    requires OnlyReading(s, digits, p, b) && digits != "" && AllDigits(digits)
    ensures GoByteCount(s) ==
            if Decimal(digits) <= MAX_INT64 && (p == 0 || Decimal(digits) <= MAX_INT64 / SCALES[p])
            then Some(Decimal(digits) * SCALES[p]) else None
    ensures Decimal(digits) <= MAX_INT64 && (p == 0 || Decimal(digits) <= MAX_INT64 / SCALES[p]) ==>
              Decimal(digits) * SCALES[p] <= MAX_INT64
  {
    var n := Decimal(digits);
    assert Written(s, digits, p, b);
    if n <= MAX_INT64 {
      GuardIsExact(n, p);
      if n * SCALES[p] <= MAX_INT64 {
        assert GoDenotes(s, Value(digits, p));
        GoIs(s, Value(digits, p));
      }
    } else {
      assert n * SCALES[p] >= n;
    }
  }

  /** The guard refuses exactly the shifts that leave the range. */
  lemma GuardIsExact(n: nat, p: nat)
    requires p <= 4 && n <= MAX_INT64
    ensures n * SCALES[p] <= MAX_INT64 <==> p == 0 || n <= MAX_INT64 / SCALES[p]
  {
    if p == 1 {
      assert SCALES[p] == 0x400;
    } else if p == 2 {
      assert SCALES[p] == 0x10_0000;
    } else if p == 3 {
      assert SCALES[p] == 0x4000_0000;
    } else if p == 4 {
      assert SCALES[p] == 0x100_0000_0000;
    }
  }

  /** With a trailing "B", stripping it and the first matching prefix recovers the only writing. */
  lemma StrippedWithB(s: string, t: string, digits: string, p: nat)
    requires HasSuffix(s, "B") && t == s[..|s| - 1] && p <= 4
    requires if p == 0 then digits == t && (forall q :: 1 <= q <= 4 ==> !HasSuffix(t, PREFIXES[q]))
             else HasSuffix(t, PREFIXES[p]) && digits == t[..|t| - 2]
    ensures OnlyReading(s, digits, p, true)
  {
    assert s[|s| - 1..] == "B" && s == t + "B";
    forall d, q: nat, c | Written(s, d, q, c) ensures d == digits && q == p && c {
      LastOf(s, d, q, c);
      assert t == d + PREFIXES[q];
      PrefixOf(t, d, q);
    }
  }

  /** Without one, only a bare count can be meant. */
  lemma StrippedBare(s: string)
    requires s != "" && !HasSuffix(s, "B")
    ensures OnlyReading(s, s, 0, false)
  {
    forall d, q: nat, c | Written(s, d, q, c) && (q > 0 ==> c) ensures d == s && q == 0 && !c && IsDigit(s[|s| - 1]) {
      LastOf(s, d, q, c);
      assert s[|s| - 1..] == [s[|s| - 1]];
    }
  }

  method ParseConfiguredByteCount(s: string) returns (r: Option<int64>)
    ensures r.Some? <==> ConfiguredByteCount(s).Some?
    ensures r.Some? ==> r.value as int == ConfiguredByteCount(s).value
  {
    r := ParseGoByteCount(s);
    if r.Some? {
      ConfiguredExtendsGo(s);
      return;
    }
    for i := 1 to 5
      invariant forall q :: 1 <= q < i ==> !HasSuffix(s, PREFIXES[q])
    {
      if HasSuffix(s, PREFIXES[i]) {
        r := ParseGoByteCount(s + "B");
        Retried(s, i);
        return;
      }
    }
    NothingToRetry(s);
    r := None;
  }

  lemma WithoutB(s: string, d: string, p: nat, b: bool)
    requires Written(s + "B", d, p, b)
    ensures Written(s, d, p, false)
  {
    LastOf(s + "B", d, p, b);
    assert s == (s + "B")[..|s|];
    assert (d + PREFIXES[p] + "B")[..|d + PREFIXES[p]|] == d + PREFIXES[p];
  }

  /** A word ending in a bare prefix means what it means with the "B" restored. */
  lemma Retried(s: string, i: nat)
    requires 1 <= i <= 4 && HasSuffix(s, PREFIXES[i])
    ensures ConfiguredByteCount(s) == GoByteCount(s + "B")
  {
    assert s[|s| - 2..][1] == 'i';
    forall n ensures ConfiguredDenotes(s, n) <==> GoDenotes(s + "B", n) {
      if ConfiguredDenotes(s, n) {
        var d, p: nat, b :| Written(s, d, p, b) && n == Value(d, p) && n <= MAX_INT64;
        LastOf(s, d, p, b);
        assert Written(s + "B", d, p, true);
      }
      if GoDenotes(s + "B", n) {
        var d, p: nat, b :| Written(s + "B", d, p, b) && (p > 0 ==> b) && n == Value(d, p) && n <= MAX_INT64;
        WithoutB(s, d, p, b);
      }
    }
    if ConfiguredByteCount(s).Some? {
      GoIs(s + "B", ConfiguredByteCount(s).value);
    }
  }

  lemma NothingToRetry(s: string)
    requires GoByteCount(s).None? && forall q :: 1 <= q <= 4 ==> !HasSuffix(s, PREFIXES[q])
    ensures ConfiguredByteCount(s).None?
  {
    if ConfiguredByteCount(s).Some? {
      var n := ConfiguredByteCount(s).value;
      var d, p: nat, b :| Written(s, d, p, b) && n == Value(d, p) && n <= MAX_INT64;
      PrefixOf(if b then s[..|s| - 1] else s, d, p);
      assert GoDenotes(s, n);
    }
  }

  // ----- Printing

  /** strconv.FormatInt(n, 10) for a non-negative n. */
  function FormatInt(n: nat): (s: string)
    ensures s != "" && AllDigits(s)
  {
    if n < 10 then [('0' as int + n) as char] else FormatInt(n / 10) + [('0' as int + n % 10) as char]
  }

  lemma {:induction false} DecimalOfFormat(n: nat)
    ensures Decimal(FormatInt(n)) == n
  {
    var s := FormatInt(n);
    if n < 10 {
      assert s[..0] == "";
    } else {
      DecimalOfFormat(n / 10);
      assert s[..|s| - 1] == FormatInt(n / 10);
    }
  }

  /** Any non-negative int64, printed in decimal, is read back unchanged by the runtime's grammar. */
  lemma FormatRoundTrip(n: int)
    requires 0 <= n <= MAX_INT64
    ensures GoByteCount(FormatInt(n)) == Some(n)
  {
    var s := FormatInt(n);
    DecimalOfFormat(n);
    assert Written(s, s, 0, false) && n == Value(s, 0);
    assert GoDenotes(s, n);
    GoIs(s, n);
  }
}
