/**
 Revocation material of one foreign trust domain: which CRLs a set holds, filed
 under the key that signed them, and the three comparisons a reload makes
 between the installed set and a candidate (internal/api/clientcrl.go).

 Times are natural numbers of seconds; zero is the zero time, so a CRL whose
 `nextUpdate` is zero carries none. A signature verifies under exactly the key
 that made it.
 */
module ClientCrlSets {
  import opened Options

  type Key = string

  /** A certificate of an anchor bundle; `signsCrls` is its CA and key-usage check. */
  datatype Anchor = Anchor(key: Key, name: string, signsCrls: bool)

  datatype Scope = Complete | Delta | DistributionPoint

  datatype Crl = Crl(signedBy: Key, thisUpdate: nat, nextUpdate: nat, number: Option<int>,
                     scope: Scope, revoked: seq<int>)

  datatype CrlSet = CrlSet(full: map<Key, seq<Crl>>, partials: map<Key, seq<Crl>>, anchors: seq<Anchor>)

  const CLOCK_SKEW_TOLERANCE: nat := 300

  // ----- Filing

  predicate ChecksUnder(crl: Crl, anchor: Anchor) {
    anchor.signsCrls && crl.signedBy == anchor.key
  }

  /** The first anchor whose key signed the CRL. */
  function SignerOf(crl: Crl, anchors: seq<Anchor>): (r: Option<Anchor>)
    ensures r.Some? ==> r.value in anchors && ChecksUnder(crl, r.value)
    ensures r.None? <==> forall a | a in anchors :: !ChecksUnder(crl, a)
  {
    if anchors == [] then None
    else if ChecksUnder(crl, anchors[0]) then Some(anchors[0])
    else SignerOf(crl, anchors[1..])
  }

  predicate FiledUnder(crl: Crl, anchors: seq<Anchor>, key: Key, partial: bool) {
    SignerOf(crl, anchors).Some? && SignerOf(crl, anchors).value.key == key && (crl.scope != Complete) == partial
  }

  /** The CRLs of `crls` filed under `key`, in file order. */
  function Filed(crls: seq<Crl>, anchors: seq<Anchor>, key: Key, partial: bool): (r: seq<Crl>)
    ensures forall c :: c in r <==> c in crls && FiledUnder(c, anchors, key, partial)
  {
    if crls == [] then []
    else
      var last := crls[|crls| - 1];
      assert crls == crls[..|crls| - 1] + [last];
      Filed(crls[..|crls| - 1], anchors, key, partial) +
      (if FiledUnder(last, anchors, key, partial) then [last] else [])
  }

  /** What is filed where, on the CRL's own fields: under its signing key if an anchor of that key may sign, by its scope. */
  ghost predicate BelongsUnder(c: Crl, anchors: seq<Anchor>, key: Key, partial: bool) {
    && c.signedBy == key && (partial <==> c.scope == Delta || c.scope == DistributionPoint)
    && exists a :: a in anchors && a.key == key && a.signsCrls
  }

  lemma FiledUnderIff(c: Crl, anchors: seq<Anchor>, key: Key, partial: bool)
    ensures FiledUnder(c, anchors, key, partial) <==> BelongsUnder(c, anchors, key, partial)
  {
    forall a | a in anchors && a.key == key && a.signsCrls && c.signedBy == key ensures ChecksUnder(c, a) {
    }
  }

  /** Every copy of a CRL is filed, where it belongs and nowhere else. */
  lemma {:induction false} FiledCounts(crls: seq<Crl>, anchors: seq<Anchor>, key: Key, partial: bool, c: Crl)
    ensures multiset(Filed(crls, anchors, key, partial))[c] ==
            if BelongsUnder(c, anchors, key, partial) then multiset(crls)[c] else 0
  {
    if crls == [] {
    } else {
      var rest, last := crls[..|crls| - 1], crls[|crls| - 1];
      assert crls == rest + [last];
      FiledCounts(rest, anchors, key, partial, c);
      FiledUnderIff(last, anchors, key, partial);
    }
  }

  function Keys(anchors: seq<Anchor>): (r: set<Key>) {
    set a | a in anchors :: a.key
  }

  function FiledMap(crls: seq<Crl>, anchors: seq<Anchor>, partial: bool): (r: map<Key, seq<Crl>>) {
    map k | k in Keys(anchors) && Filed(crls, anchors, k, partial) != [] :: Filed(crls, anchors, k, partial)
  }

  function NewSet(crls: seq<Crl>, anchors: seq<Anchor>): (s: CrlSet) {
    CrlSet(FiledMap(crls, anchors, false), FiledMap(crls, anchors, true), anchors)
  }

  function At(m: map<Key, seq<Crl>>, key: Key): (r: seq<Crl>) {
    if key in m then m[key] else []
  }

  lemma FiledMapAt(crls: seq<Crl>, anchors: seq<Anchor>, key: Key, partial: bool)
    ensures At(FiledMap(crls, anchors, partial), key) == Filed(crls, anchors, key, partial)
  {
    var filed := Filed(crls, anchors, key, partial);
    if filed != [] {
      assert filed[0] in filed;
      assert key in Keys(anchors);
    }
  }

  lemma {:induction false} FiledSnoc(crls: seq<Crl>, c: Crl, anchors: seq<Anchor>, key: Key, partial: bool)
    ensures Filed(crls + [c], anchors, key, partial) ==
            Filed(crls, anchors, key, partial) + (if FiledUnder(c, anchors, key, partial) then [c] else [])
  {
    assert (crls + [c])[..|crls|] == crls;
  }

  ghost predicate NoEmptyEntry(m: map<Key, seq<Crl>>) { forall k :: k in m ==> m[k] != [] }

  lemma SameEntries(m: map<Key, seq<Crl>>, n: map<Key, seq<Crl>>)
    requires NoEmptyEntry(m) && NoEmptyEntry(n)
    requires forall k :: At(m, k) == At(n, k)
    ensures m == n
  {
    forall k ensures k in m <==> k in n {
      assert At(m, k) == At(n, k);
    }
    forall k | k in m ensures m[k] == n[k] {
      assert At(m, k) == At(n, k);
    }
  }

  function Appended(m: map<Key, seq<Crl>>, key: Key, c: Crl): (r: map<Key, seq<Crl>>) {
    m[key := At(m, key) + [c]]
  }

  function FiledOneMore(m: map<Key, seq<Crl>>, c: Crl, anchors: seq<Anchor>, partial: bool): (r: map<Key, seq<Crl>>) {
    var signer := SignerOf(c, anchors);
    if signer.Some? && (c.scope != Complete) == partial then Appended(m, signer.value.key, c) else m
  }

  /** Filing one more CRL touches the entry of its signer's key and no other. */
  lemma FiledOneMoreAt(m: map<Key, seq<Crl>>, c: Crl, anchors: seq<Anchor>, partial: bool, key: Key)
    ensures At(FiledOneMore(m, c, anchors, partial), key) ==
            At(m, key) + (if FiledUnder(c, anchors, key, partial) then [c] else [])
  {
  }

  lemma {:induction false} FiledMapSnoc(crls: seq<Crl>, c: Crl, anchors: seq<Anchor>, partial: bool)
    ensures FiledMap(crls + [c], anchors, partial) == FiledOneMore(FiledMap(crls, anchors, partial), c, anchors, partial)
  {
    var before, after := FiledMap(crls, anchors, partial), FiledMap(crls + [c], anchors, partial);
    var expected := FiledOneMore(before, c, anchors, partial);
    assert NoEmptyEntry(before) && NoEmptyEntry(after);
    assert NoEmptyEntry(expected);
    forall k ensures At(after, k) == At(expected, k) {
      FiledSnoc(crls, c, anchors, k, partial);
      FiledMapAt(crls, anchors, k, partial);
      FiledMapAt(crls + [c], anchors, k, partial);
      FiledOneMoreAt(before, c, anchors, partial, k);
    }
    SameEntries(after, expected);
  }

  /** The construction loop: one pass over the CRLs, appending to two maps. */
  method NewClientCrlSet(crls: seq<Crl>, anchors: seq<Anchor>) returns (s: CrlSet)
    ensures s == NewSet(crls, anchors)
  {
    var full: map<Key, seq<Crl>>, partials: map<Key, seq<Crl>> := map[], map[];
    for i := 0 to |crls|
      invariant full == FiledMap(crls[..i], anchors, false)
      invariant partials == FiledMap(crls[..i], anchors, true)
    {
      var crl := crls[i];
      assert crls[..i + 1] == crls[..i] + [crl];
      FiledMapSnoc(crls[..i], crl, anchors, false);
      FiledMapSnoc(crls[..i], crl, anchors, true);
      var signer := SignerOf(crl, anchors);
      if signer.None? {
        continue;
      }
      var key := signer.value.key;
      if crl.scope != Complete {
        partials := Appended(partials, key, crl);
        continue;
      }
      full := Appended(full, key, crl);
    }
    assert crls[..|crls|] == crls;
    s := CrlSet(full, partials, anchors);
  }

  /**
   Isolation of a set: whatever is filed under a key was signed by that key, and
   the key belongs to an anchor of this bundle allowed to sign CRLs. Partial CRLs
   are filed apart.
   */
  ghost predicate Isolated(s: CrlSet) {
    && (forall k, c :: c in At(s.full, k) || c in At(s.partials, k) ==>
          c.signedBy == k && exists a :: a in s.anchors && a.key == k && a.signsCrls)
    && (forall k, c :: c in At(s.partials, k) ==> c.scope != Complete)
  }

  lemma NewSetIsolated(crls: seq<Crl>, anchors: seq<Anchor>)
    ensures Isolated(NewSet(crls, anchors))
    ensures NewSet(crls, anchors).anchors == anchors
    ensures forall k, c :: c in At(NewSet(crls, anchors).full, k) ==> c in crls && c.scope == Complete
  {
    var s := NewSet(crls, anchors);
    forall k, c | c in At(s.full, k) || c in At(s.partials, k)
      ensures c.signedBy == k && c in crls
      ensures exists a :: a in s.anchors && a.key == k && a.signsCrls
    {
      FiledMapAt(crls, anchors, k, false);
      FiledMapAt(crls, anchors, k, true);
      var a := SignerOf(c, anchors).value;
      assert a in s.anchors && a.key == k && a.signsCrls;
    }
    forall k, c | c in At(s.full, k) ensures c in crls && c.scope == Complete {
      FiledMapAt(crls, anchors, k, false);
    }
    forall k, c | c in At(s.partials, k) ensures c.scope != Complete {
      FiledMapAt(crls, anchors, k, true);
    }
  }

  // ----- Currency and coverage

  predicate NotYetIssued(c: Crl, now: nat) { c.thisUpdate > now + CLOCK_SKEW_TOLERANCE }

  predicate CurrentAt(c: Crl, now: nat) { c.nextUpdate != 0 && c.nextUpdate > now }

  /** Whether a currently valid full CRL is filed under the key. */
  predicate AnyValid(s: CrlSet, key: Key, now: nat) {
    exists c :: c in At(s.full, key) && !NotYetIssued(c, now) && CurrentAt(c, now)
  }

  predicate Present(s: CrlSet, key: Key) { key in Keys(s.anchors) && At(s.full, key) != [] }

  predicate Current(s: CrlSet, key: Key, now: nat) { key in Keys(s.anchors) && AnyValid(s, key, now) }

  predicate Loses(current: CrlSet, candidate: CrlSet, now: nat) {
    exists k :: k in Keys(current.anchors) &&
      ((Present(current, k) && !Present(candidate, k)) || (Current(current, k, now) && !Current(candidate, k, now)))
  }

  /** All full CRLs of an issuer, and whether any of them is currently valid. */
  method ForIssuer(s: CrlSet, key: Key, now: nat) returns (crls: seq<Crl>, anyValid: bool)
    ensures crls == At(s.full, key)
    ensures anyValid == AnyValid(s, key, now)
  {
    crls, anyValid := [], false;
    var held := At(s.full, key);
    for i := 0 to |held|
      invariant crls == held[..i]
      invariant anyValid <==> exists c :: c in held[..i] && !NotYetIssued(c, now) && CurrentAt(c, now)
    {
      crls := crls + [held[i]];
      if !NotYetIssued(held[i], now) && CurrentAt(held[i], now) {
        anyValid := true;
      }
    }
    assert held[..|held|] == held;
  }

  method Coverage(s: CrlSet, now: nat) returns (present: set<Key>, current: set<Key>)
    ensures forall k :: k in present <==> Present(s, k)
    ensures forall k :: k in current <==> Current(s, k, now)
    ensures present <= Keys(s.anchors) && current <= Keys(s.anchors)
  {
    present, current := {}, {};
    for i := 0 to |s.anchors|
      invariant forall k :: k in present <==> k in Keys(s.anchors[..i]) && At(s.full, k) != []
      invariant forall k :: k in current <==> k in Keys(s.anchors[..i]) && AnyValid(s, k, now)
    {
      var key := s.anchors[i].key;
      assert Keys(s.anchors[..i + 1]) == Keys(s.anchors[..i]) + {key} by {
        assert s.anchors[..i + 1] == s.anchors[..i] + [s.anchors[i]];
      }
      var crls, anyValid := ForIssuer(s, key, now);
      if |crls| > 0 {
        present := present + {key};
      }
      if anyValid {
        current := current + {key};
      }
    }
    assert s.anchors[..|s.anchors|] == s.anchors;
  }

  method LosesCoverage(current: CrlSet, candidate: CrlSet, now: nat) returns (r: bool)
    ensures r == Loses(current, candidate, now)
  {
    var wasPresent, wasCurrent := Coverage(current, now);
    var isPresent, isCurrent := Coverage(candidate, now);
    r := !(wasPresent <= isPresent) || !(wasCurrent <= isCurrent);
    if r {
      var k :| k in Keys(current.anchors) && ((k in wasPresent && k !in isPresent) || (k in wasCurrent && k !in isCurrent));
    }
  }

  // ----- Freshness

  /** Two independent high-water marks; `latest` counts only where `dated`. */
  datatype Freshness = Freshness(maxNumber: Option<int>, latest: nat, dated: bool) {
    predicate RegressedFrom(other: Freshness) {
      if maxNumber.Some? && other.maxNumber.Some? && maxNumber.value < other.maxNumber.value then true
      else if !other.dated then maxNumber.None? || other.maxNumber.None?
      else if !dated then false
      else latest < other.latest
    }

    predicate AdvancedOver(other: Freshness) {
      dated && other.dated && latest > other.latest && !RegressedFrom(other)
    }
  }

  /** What the marks of a list of CRLs mean, said without the loop. */
  ghost predicate Marks(crls: seq<Crl>, now: nat, f: Freshness) {
    && (f.dated <==> exists c :: c in crls && !NotYetIssued(c, now))
    && (f.dated ==> exists c :: c in crls && !NotYetIssued(c, now) && c.thisUpdate == f.latest)
    && (!f.dated ==> f.latest == 0)
    && (forall c :: c in crls && !NotYetIssued(c, now) ==> c.thisUpdate <= f.latest)
    && (f.maxNumber.Some? ==> exists c :: c in crls && c.number == f.maxNumber)
    && (forall c :: c in crls && c.number.Some? ==> f.maxNumber.Some? && c.number.value <= f.maxNumber.value)
  }

  function Advance(f: Freshness, c: Crl, now: nat): (r: Freshness) {
    var dated := if NotYetIssued(c, now) then f
                 else f.(dated := true, latest := if c.thisUpdate > f.latest then c.thisUpdate else f.latest);
    if c.number.Some? && (f.maxNumber.None? || c.number.value > f.maxNumber.value)
    then dated.(maxNumber := c.number) else dated
  }

  function FreshnessOf(crls: seq<Crl>, now: nat): (f: Freshness)
    ensures Marks(crls, now, f)
  {
    if crls == [] then Freshness(None, 0, false)
    else
      var last := crls[|crls| - 1];
      assert crls == crls[..|crls| - 1] + [last];
      var f := FreshnessOf(crls[..|crls| - 1], now);
      AdvanceMarks(crls[..|crls| - 1], f, last, now);
      Advance(f, last, now)
  }

  lemma AdvanceMarks(crls: seq<Crl>, f: Freshness, c: Crl, now: nat)
    requires Marks(crls, now, f)
    ensures Marks(crls + [c], now, Advance(f, c, now))
  {
    var all, g := crls + [c], Advance(f, c, now);
    assert c in all;
    if g.dated {
      if NotYetIssued(c, now) || (f.dated && c.thisUpdate <= f.latest) {
        var w :| w in crls && !NotYetIssued(w, now) && w.thisUpdate == f.latest;
        assert w in all && !NotYetIssued(w, now) && w.thisUpdate == g.latest;
      } else {
        assert c in all && !NotYetIssued(c, now) && c.thisUpdate == g.latest;
      }
    }
    if g.maxNumber.Some? {
      if g.maxNumber == f.maxNumber {
        var w :| w in crls && w.number == f.maxNumber;
        assert w in all && w.number == g.maxNumber;
      } else {
        assert c in all && c.number == g.maxNumber;
      }
    }
  }

  /** The marks do not depend on the order of the CRLs in the file, nor on repeats. */
  lemma {:induction false} MarksOrderFree(a: seq<Crl>, b: seq<Crl>, now: nat)
    requires forall c :: c in a <==> c in b
    ensures FreshnessOf(a, now) == FreshnessOf(b, now)
  {
    MarksUnique(a, b, now, FreshnessOf(a, now), FreshnessOf(b, now));
  }

  lemma MarksUnique(a: seq<Crl>, b: seq<Crl>, now: nat, f: Freshness, g: Freshness)
    requires forall c :: c in a <==> c in b
    requires Marks(a, now, f) && Marks(b, now, g)
    ensures f == g
  {
  }

  method ComputeFreshness(crls: seq<Crl>, now: nat) returns (f: Freshness)
    ensures f == FreshnessOf(crls, now)
  {
    f := Freshness(None, 0, false);
    for i := 0 to |crls|
      invariant f == FreshnessOf(crls[..i], now)
    {
      assert crls[..i + 1][..i] == crls[..i];
      var crl := crls[i];
      var next := f;
      if !NotYetIssued(crl, now) {
        next := next.(dated := true);
        if crl.thisUpdate > next.latest {
          next := next.(latest := crl.thisUpdate);
        }
      }
      if crl.number.Some? && (next.maxNumber.None? || crl.number.value > next.maxNumber.value) {
        next := next.(maxNumber := crl.number);
      }
      f := next;
    }
    assert crls[..|crls|] == crls;
  }

  // ----- The two remaining guards

  function Mark(s: CrlSet, key: Key, now: nat): (f: Freshness) {
    FreshnessOf(At(s.full, key), now)
  }

  /** Some anchor with full CRLs on both sides would go backwards. */
  predicate MovesBack(current: CrlSet, candidate: CrlSet, now: nat) {
    exists k :: k in Keys(current.anchors) && Present(current, k) && Present(candidate, k) &&
      Mark(candidate, k, now).RegressedFrom(Mark(current, k, now))
  }

  predicate BaseAdvanced(current: CrlSet, candidate: CrlSet, key: Key, now: nat) {
    Present(current, key) && Present(candidate, key) && Mark(candidate, key, now).AdvancedOver(Mark(current, key, now))
  }

  /** Some key holds fewer partial CRLs although its full CRL did not advance. */
  predicate DropsPartials(current: CrlSet, candidate: CrlSet, now: nat) {
    exists k :: k in current.partials.Keys && |At(candidate.partials, k)| < |current.partials[k]| &&
      !BaseAdvanced(current, candidate, k, now)
  }

  method Regresses(current: CrlSet, candidate: CrlSet, now: nat) returns (r: bool)
    ensures r == MovesBack(current, candidate, now)
  {
    var held, _ := Coverage(current, now);
    var offered, _ := Coverage(candidate, now);
    ghost var done: set<Key> := {};
    var todo := held;
    while todo != {}
      invariant todo <= held && done == held - todo
      invariant forall k :: k in done && Present(candidate, k) ==> !Mark(candidate, k, now).RegressedFrom(Mark(current, k, now))
      decreases todo
    {
      var key :| key in todo;
      todo, done := todo - {key}, done + {key};
      var cur := ComputeFreshness(At(current.full, key), now);
      if key !in offered {
        continue;
      }
      var cand := ComputeFreshness(At(candidate.full, key), now);
      if cand.RegressedFrom(cur) {
        return true;
      }
    }
    r := false;
  }

  method PartialsDropped(current: CrlSet, candidate: CrlSet, now: nat) returns (r: bool)
    ensures r == DropsPartials(current, candidate, now)
  {
    var held, _ := Coverage(current, now);
    var offered, _ := Coverage(candidate, now);
    var todo := current.partials.Keys;
    ghost var done: set<Key> := {};
    while todo != {}
      invariant todo <= current.partials.Keys && done == current.partials.Keys - todo
      invariant forall k :: k in done && |At(candidate.partials, k)| < |current.partials[k]| ==> BaseAdvanced(current, candidate, k, now)
      decreases todo
    {
      var key :| key in todo;
      todo, done := todo - {key}, done + {key};
      if |At(candidate.partials, key)| >= |current.partials[key]| {
        continue;
      }
      if key in held && key in offered {
        var cur := ComputeFreshness(At(current.full, key), now);
        var cand := ComputeFreshness(At(candidate.full, key), now);
        if cand.AdvancedOver(cur) {
          continue;
        }
      }
      return true;
    }
    r := false;
  }
}
