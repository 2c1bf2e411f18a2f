/**
 The per-request chain check over an installed CRL set, and what reloads mean
 for it: which revoked clients stay refused over every run of reloads, and the
 delivery histories under which the reload guards do let a serial go.
 */
module ClientRevocation {
  import opened Options
  import opened ClientCrlSets
  import opened ClientCrlReload

  datatype Cert = Cert(key: Key, serial: int)

  datatype Verdict = Admitted | Unavailable | Revoked(depth: nat)

  /** A full or partial CRL of the issuer names the serial. */
  ghost predicate Listed(s: CrlSet, issuer: Key, serial: int) {
    exists c :: c in At(s.full, issuer) + At(s.partials, issuer) && serial in c.revoked
  }

  /** Any policy name other than the two that check less means "require". */
  predicate Requires(policy: string) { policy != "skip" && policy != "check" }

  /** The certificate at position i passes against its issuer's CRLs. */
  ghost predicate LinkPasses(s: CrlSet, policy: string, chain: seq<Cert>, i: nat, now: nat)
    requires i + 1 < |chain|
  {
    !Listed(s, chain[i + 1].key, chain[i].serial) && (Requires(policy) ==> AnyValid(s, chain[i + 1].key, now))
  }

  /** Which verified chains (leaf first, anchor last) are admitted. */
  ghost predicate Admits(s: CrlSet, policy: string, chain: seq<Cert>, now: nat) {
    policy == "skip" ||
    ((|chain| < 2 ==> !Requires(policy)) && forall i :: 0 <= i < |chain| - 1 ==> LinkPasses(s, policy, chain, i, now))
  }

  method AnyNames(crls: seq<Crl>, serial: int) returns (r: bool)
    ensures r <==> exists c :: c in crls && serial in c.revoked
  {
    for n := 0 to |crls|
      invariant forall c :: c in crls[..n] ==> serial !in c.revoked
    {
      for e := 0 to |crls[n].revoked|
        invariant serial !in crls[n].revoked[..e]
      {
        if crls[n].revoked[e] == serial {
          return true;
        }
      }
    }
    r := false;
  }

  method CheckChainRevocation(chain: seq<Cert>, s: CrlSet, policy: string, now: nat) returns (v: Verdict)
    ensures v.Admitted? == Admits(s, policy, chain, now)
    ensures v.Revoked? ==> v.depth + 1 < |chain| && Listed(s, chain[v.depth + 1].key, chain[v.depth].serial)
    ensures v.Unavailable? ==>
              Requires(policy) && (|chain| < 2 || exists i :: 0 < i < |chain| && !AnyValid(s, chain[i].key, now))
  {
    if policy == "skip" {
      return Admitted;
    }
    if |chain| < 2 {
      return if Requires(policy) then Unavailable else Admitted;
    }
    for i := 0 to |chain| - 1
      invariant forall j :: 0 <= j < i ==> LinkPasses(s, policy, chain, j, now)
    {
      var subject, issuer := chain[i], chain[i + 1];
      var crls, anyValid := ForIssuer(s, issuer.key, now);
      if Requires(policy) && !anyValid {
        assert !LinkPasses(s, policy, chain, i, now);
        return Unavailable;
      }
      var named := AnyNames(crls + At(s.partials, issuer.key), subject.serial);
      if named {
        assert !LinkPasses(s, policy, chain, i, now);
        return Revoked(i);
      }
    }
    v := Admitted;
  }

  /** A CRL that vouches at this moment: dated no more than five minutes ahead, with an expiry that has not come. */
  ghost predicate Vouches(c: Crl, now: nat) { c.thisUpdate <= now + 300 && c.nextUpdate > now }

  /** Under "require", admission means each link's issuer has such a CRL and none of its CRLs names the certificate. */
  lemma RequireIsStrict(s: CrlSet, policy: string, chain: seq<Cert>, now: nat)
    requires policy != "skip" && policy != "check"
    ensures Admits(s, policy, chain, now) <==>
            && |chain| >= 2
            && forall i :: 0 <= i < |chain| - 1 ==> LinkVouched(s, chain, i, now)
  {
    forall i | 0 <= i < |chain| - 1 ensures LinkVouched(s, chain, i, now) <==> LinkPasses(s, policy, chain, i, now) {
      var key := chain[i + 1].key;
      assert AnyValid(s, key, now) <==> exists c :: c in At(s.full, key) && Vouches(c, now) by {
        forall c ensures Vouches(c, now) <==> !NotYetIssued(c, now) && CurrentAt(c, now) {
        }
      }
    }
  }

  ghost predicate LinkVouched(s: CrlSet, chain: seq<Cert>, i: nat, now: nat)
    requires i + 1 < |chain|
  {
    var key, serial := chain[i + 1].key, chain[i].serial;
    && (exists c :: c in At(s.full, key) && Vouches(c, now))
    && (forall c :: c in At(s.full, key) || c in At(s.partials, key) ==> serial !in c.revoked)
  }

  /** Under "check" an issuer without such a CRL is no reason to refuse, and under "skip" nothing is. */
  lemma LaxPolicies(s: CrlSet, chain: seq<Cert>, now: nat)
    ensures Admits(s, "skip", chain, now)
    ensures Admits(s, "check", chain, now) <==>
            forall i :: 0 <= i < |chain| - 1 ==> !Listed(s, chain[i + 1].key, chain[i].serial)
  {
    forall i | 0 <= i < |chain| - 1
      ensures LinkPasses(s, "check", chain, i, now) <==> !Listed(s, chain[i + 1].key, chain[i].serial)
    {
    }
  }

  /** A named serial anywhere below the anchor refuses the chain under every policy that checks. */
  lemma NamedIsRefused(s: CrlSet, policy: string, chain: seq<Cert>, now: nat, i: nat)
    requires policy != "skip" && i + 1 < |chain| && Names(s, chain[i + 1].key, chain[i].serial)
    ensures !Admits(s, policy, chain, now)
  {
    var c :| c in At(s.full, chain[i + 1].key) && chain[i].serial in c.revoked;
    assert c in At(s.full, chain[i + 1].key) + At(s.partials, chain[i + 1].key);
    assert !LinkPasses(s, policy, chain, i, now);
  }

  /**
   End to end: a client whose chain holds a certificate revoked by a numbering
   issuer is refused after every run of reloads, at every later moment.
   */
  lemma RevokedClientStaysRefused(current: CrlSet, passes: seq<Pass>, issued: set<Crl>, policy: string,
                                  chain: seq<Cert>, now: nat, i: nat)
    requires policy != "skip" && i + 1 < |chain| && Isolated(current) && NumbersInOrder(issued)
    requires DrawnFrom(current, passes, chain[i + 1].key, issued)
    requires Names(current, chain[i + 1].key, chain[i].serial)
    ensures !Admits(After(current, passes), policy, chain, now)
  {
    var key := chain[i + 1].key;
    var c :| c in At(current.full, key) && chain[i].serial in c.revoked;
    assert Present(current, key) by {
      var a :| a in current.anchors && a.key == key && a.signsCrls;
    }
    NumberedRevocationIsForever(current, passes, key, issued, chain[i].serial);
    NamedIsRefused(After(current, passes), policy, chain, now, i);
  }

  /** A require-mode client of a covered issuer is never cut off by the reload itself. */
  lemma ReloadKeepsAdmission(current: CrlSet, pass: Pass, chain: seq<Cert>, i: nat)
    requires Isolated(current) && i + 1 < |chain| && chain[i + 1].key in Keys(current.anchors)
    requires AnyValid(current, chain[i + 1].key, pass.now)
    ensures AnyValid(Step(current, pass), chain[i + 1].key, pass.now)
  {
    AcceptedPassGuards(current, pass, chain[i + 1].key);
  }

  // ----- When a pass does let a serial go

  /** The full, or the partial, CRLs a pass offers for a key: those of its file this bundle verifies. */
  ghost function Offered(current: CrlSet, pass: Pass, key: Key, partial: bool): (r: seq<Crl>) {
    if pass.file.Unreadable? || Malformed in pass.file.blocks then []
    else Filed(Verified(pass.file.blocks, current.anchors), current.anchors, key, partial)
  }

  lemma StepInstallsOffer(current: CrlSet, pass: Pass, key: Key)
    ensures var next := Step(current, pass);
            if Accepts(current, pass) then
              next.anchors == current.anchors &&
              At(next.full, key) == Offered(current, pass, key, false) &&
              At(next.partials, key) == Offered(current, pass, key, true)
            else next == current
  {
    if Accepts(current, pass) {
      var crls := Verified(pass.file.blocks, current.anchors);
      FiledMapAt(crls, current.anchors, key, false);
      FiledMapAt(crls, current.anchors, key, true);
    }
  }

  // ----- The guards, on the CRLs themselves

  /** A CRL this host believes: dated at most five minutes ahead. */
  ghost predicate Believed(c: Crl, now: nat) { c.thisUpdate <= now + 300 }

  /** Every number offered is below one that is held. */
  ghost predicate NumberFalls(held: seq<Crl>, offered: seq<Crl>) {
    && (exists d :: d in offered && d.number.Some?)
    && exists c :: c in held && c.number.Some? && NumberedBelow(offered, c.number.value)
  }

  ghost predicate NumberedBelow(offered: seq<Crl>, n: int) {
    forall d :: d in offered && d.number.Some? ==> d.number.value < n
  }

  /** Every believed date offered is before a believed one that is held. */
  ghost predicate DateFalls(held: seq<Crl>, offered: seq<Crl>, now: nat) {
    && (exists d :: d in offered && Believed(d, now))
    && exists c :: c in held && Believed(c, now) && DatedBefore(offered, c.thisUpdate, now)
  }

  ghost predicate DatedBefore(offered: seq<Crl>, date: nat, now: nat) {
    forall d :: d in offered && Believed(d, now) ==> d.thisUpdate < date
  }

  /** Nothing held is believed, and one side has no number to go by. */
  ghost predicate NothingToOrderBy(held: seq<Crl>, offered: seq<Crl>, now: nat) {
    && (forall c :: c in held ==> !Believed(c, now))
    && ((forall c :: c in held ==> c.number.None?) || (forall d :: d in offered ==> d.number.None?))
  }

  ghost predicate GoesBack(held: seq<Crl>, offered: seq<Crl>, now: nat) {
    NumberFalls(held, offered) || DateFalls(held, offered, now) || NothingToOrderBy(held, offered, now)
  }

  /** The comparison of the two high-water marks says exactly this about the CRLs. */
  lemma RegressedIff(held: seq<Crl>, offered: seq<Crl>, now: nat)
    ensures FreshnessOf(offered, now).RegressedFrom(FreshnessOf(held, now)) <==> GoesBack(held, offered, now)
  {
    var cur, cand := FreshnessOf(held, now), FreshnessOf(offered, now);
    assert forall c: Crl :: Believed(c, now) <==> !NotYetIssued(c, now);
    assert NumberFalls(held, offered) <==>
           cand.maxNumber.Some? && cur.maxNumber.Some? && cand.maxNumber.value < cur.maxNumber.value by {
      NumberFallsIff(held, offered, now, cur, cand);
    }
    assert DateFalls(held, offered, now) <==> cur.dated && cand.dated && cand.latest < cur.latest by {
      DateFallsIff(held, offered, now, cur, cand);
    }
    assert NothingToOrderBy(held, offered, now) <==> !cur.dated && (cand.maxNumber.None? || cur.maxNumber.None?);
  }

  lemma NumberFallsIff(held: seq<Crl>, offered: seq<Crl>, now: nat, cur: Freshness, cand: Freshness)
    requires Marks(held, now, cur) && Marks(offered, now, cand)
    ensures NumberFalls(held, offered) <==>
            cand.maxNumber.Some? && cur.maxNumber.Some? && cand.maxNumber.value < cur.maxNumber.value
  {
    if cand.maxNumber.Some? && cur.maxNumber.Some? {
      var c :| c in held && c.number == cur.maxNumber;
      var d :| d in offered && d.number == cand.maxNumber;
      if cand.maxNumber.value < cur.maxNumber.value {
        assert NumberedBelow(offered, c.number.value);
      }
    }
  }

  lemma DateFallsIff(held: seq<Crl>, offered: seq<Crl>, now: nat, cur: Freshness, cand: Freshness)
    requires Marks(held, now, cur) && Marks(offered, now, cand)
    ensures DateFalls(held, offered, now) <==> cur.dated && cand.dated && cand.latest < cur.latest
  {
    assert forall c: Crl :: Believed(c, now) <==> !NotYetIssued(c, now);
    if cur.dated && cand.dated {
      var c :| c in held && !NotYetIssued(c, now) && c.thisUpdate == cur.latest;
      var d :| d in offered && !NotYetIssued(d, now) && d.thisUpdate == cand.latest;
      if cand.latest < cur.latest {
        assert DatedBefore(offered, c.thisUpdate, now);
      }
    }
  }

  /** A believed CRL is offered that is later than every believed one held, of which there is one. */
  ghost predicate MovesOn(held: seq<Crl>, offered: seq<Crl>, now: nat) {
    && (exists c :: c in held && Believed(c, now))
    && (exists d :: d in offered && Believed(d, now) && DatedBefore(held, d.thisUpdate, now))
    && !GoesBack(held, offered, now)
  }

  lemma AdvancedIff(held: seq<Crl>, offered: seq<Crl>, now: nat)
    ensures FreshnessOf(offered, now).AdvancedOver(FreshnessOf(held, now)) <==> MovesOn(held, offered, now)
  {
    var cur, cand := FreshnessOf(held, now), FreshnessOf(offered, now);
    RegressedIff(held, offered, now);
    assert forall c: Crl :: Believed(c, now) <==> !NotYetIssued(c, now);
    if cur.dated && cand.dated {
      var c :| c in held && !NotYetIssued(c, now) && c.thisUpdate == cur.latest;
      var d :| d in offered && !NotYetIssued(d, now) && d.thisUpdate == cand.latest;
      if cand.latest > cur.latest {
        assert DatedBefore(held, d.thisUpdate, now);
      }
    }
  }

  ghost predicate SomeVouch(crls: seq<Crl>, now: nat) { exists c :: c in crls && Vouches(c, now) }

  /** What the three guards ask of one anchor's CRLs. */
  ghost predicate KeyAccepts(held: seq<Crl>, offered: seq<Crl>, heldParts: nat, offeredParts: nat, now: nat) {
    && (held != [] ==> offered != [] && !GoesBack(held, offered, now))
    && (SomeVouch(held, now) ==> SomeVouch(offered, now))
    && (heldParts <= offeredParts || (held != [] && MovesOn(held, offered, now)))
  }

  lemma VouchIsValid(s: CrlSet, key: Key, now: nat)
    ensures AnyValid(s, key, now) <==> SomeVouch(At(s.full, key), now)
  {
    assert forall c: Crl :: Vouches(c, now) <==> !NotYetIssued(c, now) && CurrentAt(c, now);
  }

  /** The guards' answer for one key, against the CRLs that would be installed. */
  lemma KeyGuards(current: CrlSet, candidate: CrlSet, key: Key, now: nat)
    requires candidate.anchors == current.anchors && key in Keys(current.anchors)
    ensures KeyAccepts(At(current.full, key), At(candidate.full, key),
                       |At(current.partials, key)|, |At(candidate.partials, key)|, now) <==>
            && (Present(current, key) ==> Present(candidate, key))
            && (Current(current, key, now) ==> Current(candidate, key, now))
            && !(Present(current, key) && Present(candidate, key) &&
                 Mark(candidate, key, now).RegressedFrom(Mark(current, key, now)))
            && (|At(candidate.partials, key)| >= |At(current.partials, key)| || BaseAdvanced(current, candidate, key, now))
  {
    VouchIsValid(current, key, now);
    VouchIsValid(candidate, key, now);
    RegressedIff(At(current.full, key), At(candidate.full, key), now);
    AdvancedIff(At(current.full, key), At(candidate.full, key), now);
  }

  /** Every key with a partial CRL is an anchor's. */
  lemma PartialsHaveAnchors(s: CrlSet, key: Key)
    requires Isolated(s) && At(s.partials, key) != []
    ensures key in Keys(s.anchors)
  {
    var c := At(s.partials, key)[0];
    assert c in At(s.partials, key);
    assert c.signedBy == key && exists a :: a in s.anchors && a.key == key && a.signsCrls;
    var a :| a in s.anchors && a.key == key && a.signsCrls;
  }

  /**
   Exactly which files a domain takes, on the CRLs it holds and the ones the file
   offers, key by key: the file can be read, and for every anchor nothing is lost,
   nothing goes back, and fewer partial CRLs come only with a base that moved on.
   */
  lemma AcceptsIff(current: CrlSet, pass: Pass)
    requires Isolated(current)
    ensures Accepts(current, pass) <==>
            && pass.file.Blocks? && Malformed !in pass.file.blocks
            && forall key :: key in Keys(current.anchors) ==>
                 KeyAccepts(At(current.full, key), Offered(current, pass, key, false),
                            |At(current.partials, key)|, |Offered(current, pass, key, true)|, pass.now)
  {
    if pass.file.Blocks? && Malformed !in pass.file.blocks {
      var crls := Verified(pass.file.blocks, current.anchors);
      GuardsIff(current, NewSet(crls, current.anchors), pass.now);
      forall key
        ensures At(NewSet(crls, current.anchors).full, key) == Offered(current, pass, key, false)
        ensures At(NewSet(crls, current.anchors).partials, key) == Offered(current, pass, key, true)
      {
        FiledMapAt(crls, current.anchors, key, false);
        FiledMapAt(crls, current.anchors, key, true);
      }
    }
  }

  lemma GuardsIff(current: CrlSet, candidate: CrlSet, now: nat)
    requires Isolated(current) && candidate.anchors == current.anchors
    ensures !Loses(current, candidate, now) && !MovesBack(current, candidate, now) && !DropsPartials(current, candidate, now) <==>
            forall key :: key in Keys(current.anchors) ==>
              KeyAccepts(At(current.full, key), At(candidate.full, key),
                         |At(current.partials, key)|, |At(candidate.partials, key)|, now)
  {
    forall key | key in Keys(current.anchors) {
      KeyGuards(current, candidate, key, now);
    }
    forall key | key in current.partials && current.partials[key] != [] ensures key in Keys(current.anchors) {
      PartialsHaveAnchors(current, key);
    }
  }

  /** A later CRL of the issuer names everything an earlier one does, whatever their numbers. */
  ghost predicate NeverForgets(issued: set<Crl>) {
    forall c, d :: c in issued && d in issued && c.thisUpdate <= d.thisUpdate ==>
      forall s :: s in c.revoked ==> s in d.revoked
  }

  /** And something more. */
  ghost predicate StrictlyGrowing(issued: set<Crl>) {
    forall c, d :: c in issued && d in issued && c.thisUpdate < d.thisUpdate ==>
      exists s :: s in d.revoked && s !in c.revoked
  }

  /** `d` is dated latest among the CRLs, believed by this host or not. */
  ghost predicate LatestOf(crls: seq<Crl>, d: Crl) {
    d in crls && forall c :: c in crls ==> c.thisUpdate <= d.thisUpdate
  }

  /** Every one of the CRLs is dated before `o`. */
  ghost predicate AllOlder(crls: seq<Crl>, o: Crl) { forall d :: d in crls ==> d.thisUpdate < o.thisUpdate }

  /**
   The guards' part: where the latest installed CRL is believed, an accepted pass
   offers one at least as late. The candidate's marks reach it, or none of its
   CRLs is believed and all are dated beyond it.
   */
  lemma BelievedDateIsReached(current: CrlSet, pass: Pass, key: Key, o: Crl)
    requires Isolated(current) && Present(current, key) && Accepts(current, pass)
    requires LatestOf(At(current.full, key), o) && !NotYetIssued(o, pass.now)
    ensures !AllOlder(Offered(current, pass, key, false), o)
  {
    var next := Step(current, pass);
    StepInstallsOffer(current, pass, key);
    AcceptedPassGuards(current, pass, key);
    var cur, cand := Mark(current, key, pass.now), Mark(next, key, pass.now);
    assert cur.dated && cur.latest == o.thisUpdate;
    assert !cand.RegressedFrom(cur) by {
      assert Present(next, key);
    }
    if cand.dated {
      var w :| w in At(next.full, key) && !NotYetIssued(w, pass.now) && w.thisUpdate == cand.latest;
      assert w.thisUpdate >= o.thisUpdate;
    } else {
      assert At(next.full, key)[0] in At(next.full, key);
    }
  }

  lemma PresentWhereFiled(s: CrlSet, key: Key, c: Crl)
    requires Isolated(s) && c in At(s.full, key)
    ensures Present(s, key)
  {
    var a :| a in s.anchors && a.key == key && a.signsCrls;
  }

  /** A CRL at least as late as the latest installed one names all that was named. */
  lemma ReachedDateNames(current: CrlSet, next: CrlSet, key: Key, issued: set<Crl>, o: Crl, d: Crl, serial: int)
    requires NeverForgets(issued) && LatestOf(At(current.full, key), o) && Names(current, key, serial)
    requires forall c :: c in At(current.full, key) || c in At(next.full, key) ==> c in issued
    requires d in At(next.full, key) && o.thisUpdate <= d.thisUpdate
    ensures Names(next, key, serial)
  {
    var c :| c in At(current.full, key) && serial in c.revoked;
    assert c.thisUpdate <= d.thisUpdate;
    assert serial in d.revoked;
  }

  /**
   For any issuer that never forgets, numbered, unnumbered or mixed: while the
   latest installed CRL is one this host believes, no pass loses a named serial.
   */
  lemma BelievedLatestKeepsSerials(current: CrlSet, pass: Pass, key: Key, issued: set<Crl>, o: Crl, serial: int)
    requires NeverForgets(issued) && Isolated(current) && DrawnFrom(current, [pass], key, issued)
    requires LatestOf(At(current.full, key), o) && !NotYetIssued(o, pass.now)
    requires Names(current, key, serial)
    ensures Names(Step(current, pass), key, serial)
  {
    PresentWhereFiled(current, key, o);
    StepInstallsOffer(current, pass, key);
    DrawnStep(current, [pass], key, issued);
    if Accepts(current, pass) {
      BelievedDateIsReached(current, pass, key, o);
      var d :| d in Offered(current, pass, key, false) && d.thisUpdate >= o.thisUpdate;
      ReachedDateNames(current, Step(current, pass), key, issued, o, d, serial);
    }
  }

  /** Some serial named for the key before the pass is not named after it. */
  ghost predicate LosesSerial(current: CrlSet, pass: Pass, key: Key) {
    exists s :: Names(current, key, s) && !Names(Step(current, pass), key, s)
  }

  /**
   The exact condition, on what is installed, what is delivered and the clock: a
   pass loses a serial if and only if no guard objects and every CRL it offers
   for the key is older than the latest installed one. That one is then dated
   ahead of the clock.
   */
  lemma PassLosesSerialIff(current: CrlSet, pass: Pass, key: Key, issued: set<Crl>, o: Crl)
    requires NeverForgets(issued) && StrictlyGrowing(issued)
    requires Isolated(current) && DrawnFrom(current, [pass], key, issued) && LatestOf(At(current.full, key), o)
    ensures LosesSerial(current, pass, key) <==>
            Accepts(current, pass) && AllOlder(Offered(current, pass, key, false), o)
    ensures LosesSerial(current, pass, key) ==> NotYetIssued(o, pass.now)
  {
    var next := Step(current, pass);
    PresentWhereFiled(current, key, o);
    StepInstallsOffer(current, pass, key);
    DrawnStep(current, [pass], key, issued);
    if Accepts(current, pass) {
      AcceptedPassGuards(current, pass, key);
      if AllOlder(At(next.full, key), o) {
        OlderNamesFewer(At(next.full, key), issued, o);
        var s :| s in o.revoked && forall d :: d in At(next.full, key) ==> s !in d.revoked;
        assert Names(current, key, s) && !Names(next, key, s);
      } else {
        var d :| d in At(next.full, key) && d.thisUpdate >= o.thisUpdate;
        forall s | Names(current, key, s) ensures Names(next, key, s) {
          ReachedDateNames(current, next, key, issued, o, d, s);
        }
      }
      if !NotYetIssued(o, pass.now) {
        BelievedDateIsReached(current, pass, key, o);
      }
    }
  }

  /** Among older CRLs none names everything `o` does, and one serial of `o` is in none of them. */
  lemma OlderNamesFewer(crls: seq<Crl>, issued: set<Crl>, o: Crl)
    requires NeverForgets(issued) && StrictlyGrowing(issued) && o in issued
    requires crls != [] && AllOlder(crls, o) && forall d :: d in crls ==> d in issued
    ensures exists s :: s in o.revoked && forall d :: d in crls ==> s !in d.revoked
  {
    var top := Latest(crls);
    var s :| s in o.revoked && s !in top.revoked;
    forall d | d in crls ensures s !in d.revoked {
      assert d.thisUpdate <= top.thisUpdate;
    }
  }

  lemma {:induction false} Latest(crls: seq<Crl>) returns (d: Crl)
    requires crls != []
    ensures LatestOf(crls, d)
  {
    var last := crls[|crls| - 1];
    if |crls| == 1 {
      d := last;
    } else {
      var rest := crls[..|crls| - 1];
      assert crls == rest + [last];
      d := Latest(rest);
      if last.thisUpdate > d.thisUpdate {
        d := last;
      }
    }
  }

  /** Nothing installed for the key is dated ahead of the clock. */
  ghost predicate AllBelieved(crls: seq<Crl>, now: nat) { forall c :: c in crls ==> !NotYetIssued(c, now) }

  ghost predicate DeliversBelieved(passes: seq<Pass>, key: Key) {
    forall p, c :: p in passes && Delivered(p, c) && c.scope == Complete && c.signedBy == key ==> !NotYetIssued(c, p.now)
  }

  /**
   Over whole runs: no issuer that never forgets loses a serial, however it mixes
   numbered and unnumbered CRLs, while nothing is delivered that is dated ahead of
   the clock and the clock does not run back.
   */
  lemma {:induction false} BelievedRevocationIsForever(
    current: CrlSet, passes: seq<Pass>, key: Key, issued: set<Crl>, serial: int, t: nat)
    requires NeverForgets(issued) && Isolated(current) && DrawnFrom(current, passes, key, issued)
    requires ClockFrom(t, passes) && AllBelieved(At(current.full, key), t) && DeliversBelieved(passes, key)
    requires Names(current, key, serial)
    ensures Names(After(current, passes), key, serial)
    decreases |passes|
  {
    if passes == [] {
    } else {
      var pass, next := passes[0], Step(current, passes[0]);
      var c :| c in At(current.full, key) && serial in c.revoked;
      var o := Latest(At(current.full, key));
      assert DrawnFrom(current, [pass], key, issued);
      BelievedLatestKeepsSerials(current, pass, key, issued, o, serial);
      DrawnStep(current, passes, key, issued);
      StepShape(current, pass);
      BelievedStep(current, pass, key, t);
      BelievedRevocationIsForever(next, passes[1..], key, issued, serial, pass.now);
    }
  }

  lemma BelievedStep(current: CrlSet, pass: Pass, key: Key, t: nat)
    requires Isolated(current) && t <= pass.now
    requires AllBelieved(At(current.full, key), t) && DeliversBelieved([pass], key)
    ensures AllBelieved(At(Step(current, pass).full, key), pass.now)
  {
    StepShape(current, pass);
    forall c | c in At(Step(current, pass).full, key) ensures !NotYetIssued(c, pass.now) {
      assert pass in [pass];
    }
  }

  // ----- Partial CRLs

  /** Some partial CRL filed under the key names the serial. */
  ghost predicate PartialNames(s: CrlSet, key: Key, serial: int) {
    exists c :: c in At(s.partials, key) && serial in c.revoked
  }

  /** Some serial a partial CRL named is named by nothing after the pass, so the check no longer refuses it. */
  ghost predicate LosesPartialSerial(current: CrlSet, pass: Pass, key: Key) {
    exists s :: PartialNames(current, key, s) && !Listed(Step(current, pass), key, s)
  }

  /** A CRL of either kind dated no earlier than a partial one names all that one names. */
  ghost predicate LaterCoversPartials(issued: set<Crl>) {
    forall c, d :: c in issued && d in issued && c.scope != Complete && c.thisUpdate <= d.thisUpdate ==>
      forall s :: s in c.revoked ==> s in d.revoked
  }

  /** `o` names a serial that nothing earlier names. */
  ghost predicate NamesSomethingNew(issued: set<Crl>, o: Crl) {
    exists s :: s in o.revoked && forall d :: d in issued && d.thisUpdate < o.thisUpdate ==> s !in d.revoked
  }

  /** The base of the key advances with what the pass offers. */
  ghost predicate OffersNewerBase(current: CrlSet, pass: Pass, key: Key) {
    && Present(current, key) && Offered(current, pass, key, false) != []
    && FreshnessOf(Offered(current, pass, key, false), pass.now).AdvancedOver(Mark(current, key, pass.now))
  }

  /** The guard's part: an accepted pass offers a newer base or as many partial CRLs. */
  lemma PartialsAreNotFewer(current: CrlSet, pass: Pass, key: Key)
    requires Isolated(current) && Accepts(current, pass)
    ensures OffersNewerBase(current, pass, key) || |At(current.partials, key)| <= |Offered(current, pass, key, true)|
  {
    StepInstallsOffer(current, pass, key);
    AcceptedPassGuards(current, pass, key);
  }

  lemma CoveredIsListed(next: CrlSet, key: Key, issued: set<Crl>, c: Crl, d: Crl, serial: int)
    requires LaterCoversPartials(issued) && c in issued && d in issued && c.scope != Complete
    requires c.thisUpdate <= d.thisUpdate && serial in c.revoked
    requires d in At(next.full, key) || d in At(next.partials, key)
    ensures Listed(next, key, serial)
  {
    assert d in At(next.full, key) + At(next.partials, key) && serial in d.revoked;
  }

  /**
   The exact condition, over every base: a pass lets go of a serial a partial CRL
   named if and only if no guard objects and everything it offers for the key,
   full or partial, is older than the latest installed partial CRL. It then
   offers a newer base or as many partial CRLs, which is all the guard asks.
   */
  lemma PassLosesPartialSerialIff(current: CrlSet, pass: Pass, key: Key, issued: set<Crl>, o: Crl)
    requires LaterCoversPartials(issued) && NamesSomethingNew(issued, o) && Isolated(current)
    requires forall c :: c in At(current.partials, key) ==> c in issued
    requires forall c :: c in Offered(current, pass, key, false) || c in Offered(current, pass, key, true) ==> c in issued
    requires LatestOf(At(current.partials, key), o)
    ensures LosesPartialSerial(current, pass, key) <==>
            && Accepts(current, pass)
            && AllOlder(Offered(current, pass, key, false), o) && AllOlder(Offered(current, pass, key, true), o)
    ensures LosesPartialSerial(current, pass, key) ==>
            OffersNewerBase(current, pass, key) || |At(current.partials, key)| <= |Offered(current, pass, key, true)|
  {
    var next, full, partials := Step(current, pass), Offered(current, pass, key, false), Offered(current, pass, key, true);
    StepInstallsOffer(current, pass, key);
    if Accepts(current, pass) {
      PartialsAreNotFewer(current, pass, key);
      if AllOlder(full, o) && AllOlder(partials, o) {
        var s :| s in o.revoked && forall d :: d in issued && d.thisUpdate < o.thisUpdate ==> s !in d.revoked;
        assert PartialNames(current, key, s) && !Listed(next, key, s);
      } else {
        var d :| (d in full || d in partials) && d.thisUpdate >= o.thisUpdate;
        forall s | PartialNames(current, key, s) ensures Listed(next, key, s) {
          var c :| c in At(current.partials, key) && s in c.revoked;
          CoveredIsListed(next, key, issued, c, d, s);
        }
      }
    } else {
      forall s | PartialNames(current, key, s) ensures Listed(next, key, s) {
        var c :| c in At(current.partials, key) && s in c.revoked;
        assert c in At(current.full, key) + At(current.partials, key);
      }
    }
  }

  /** Everything for the key, of either kind, that is delivered comes from this collection. */
  ghost predicate DeliversFrom(passes: seq<Pass>, key: Key, issued: set<Crl>) {
    forall p, c :: p in passes && Delivered(p, c) && c.signedBy == key ==> c in issued
  }

  /** Every file that can be read holds a CRL of the key, of either kind, dated `mark` or later. */
  ghost predicate DeliversDated(passes: seq<Pass>, key: Key, mark: nat) {
    forall p :: p in passes && p.file.Blocks? ==> exists d :: Delivered(p, d) && d.signedBy == key && mark <= d.thisUpdate
  }

  /** A CRL of the issuer, of either kind, dated `mark` or later is installed. */
  ghost predicate HoldsDated(s: CrlSet, key: Key, issued: set<Crl>, mark: nat) {
    exists c :: c in At(s.full, key) + At(s.partials, key) && c in issued && mark <= c.thisUpdate
  }

  /** A delivered CRL of a key that may sign is offered for it. */
  lemma DeliveredIsOffered(current: CrlSet, pass: Pass, key: Key, d: Crl)
    requires Accepts(current, pass) && Delivered(pass, d) && d.signedBy == key
    requires exists a :: a in current.anchors && a.key == key && a.signsCrls
    ensures d in Offered(current, pass, key, d.scope != Complete)
  {
    var a :| a in current.anchors && a.key == key && a.signsCrls;
    assert ChecksUnder(d, a);
  }

  lemma HoldsDatedStep(current: CrlSet, pass: Pass, key: Key, issued: set<Crl>, mark: nat)
    requires exists a :: a in current.anchors && a.key == key && a.signsCrls
    requires HoldsDated(current, key, issued, mark) && DeliversFrom([pass], key, issued) && DeliversDated([pass], key, mark)
    ensures HoldsDated(Step(current, pass), key, issued, mark)
  {
    StepInstallsOffer(current, pass, key);
    if Accepts(current, pass) {
      assert pass in [pass];
      var d :| Delivered(pass, d) && d.signedBy == key && mark <= d.thisUpdate;
      DeliveredIsOffered(current, pass, key, d);
      var next := Step(current, pass);
      assert d in At(next.full, key) + At(next.partials, key) && d in issued;
    }
  }

  lemma {:induction false} HoldsDatedForever(current: CrlSet, passes: seq<Pass>, key: Key, issued: set<Crl>, mark: nat)
    requires exists a :: a in current.anchors && a.key == key && a.signsCrls
    requires HoldsDated(current, key, issued, mark) && DeliversFrom(passes, key, issued) && DeliversDated(passes, key, mark)
    ensures HoldsDated(After(current, passes), key, issued, mark)
    decreases |passes|
  {
    if passes == [] {
    } else {
      StepInstallsOffer(current, passes[0], key);
      HoldsDatedStep(current, passes[0], key, issued, mark);
      HoldsDatedForever(Step(current, passes[0]), passes[1..], key, issued, mark);
    }
  }

  /**
   Over whole runs: a serial a partial CRL named stays refused, whatever the guards
   let through, while every file that can be read holds a CRL of the key, full or
   partial, dated no earlier than that one.
   */
  lemma {:induction false} DeliveredPartialIsForever(
    current: CrlSet, passes: seq<Pass>, key: Key, issued: set<Crl>, c: Crl, serial: int)
    requires LaterCoversPartials(issued) && Isolated(current)
    requires c in At(current.partials, key) && c in issued && serial in c.revoked
    requires DeliversFrom(passes, key, issued) && DeliversDated(passes, key, c.thisUpdate)
    ensures Listed(After(current, passes), key, serial)
  {
    assert c in At(current.full, key) + At(current.partials, key);
    HoldsDatedForever(current, passes, key, issued, c.thisUpdate);
    var last := After(current, passes);
    var d :| d in At(last.full, key) + At(last.partials, key) && d in issued && c.thisUpdate <= d.thisUpdate;
    CoveredIsListed(last, key, issued, c, d, serial);
  }

  /** A full CRL of the key dated `mark` or later is installed. */
  ghost predicate BaseReaches(s: CrlSet, key: Key, mark: nat) {
    exists d :: d in At(s.full, key) && mark <= d.thisUpdate
  }

  lemma BaseReachesStep(current: CrlSet, pass: Pass, key: Key, mark: nat)
    requires Isolated(current) && BaseReaches(current, key, mark) && AllBelieved(At(current.full, key), pass.now)
    ensures BaseReaches(Step(current, pass), key, mark)
  {
    StepInstallsOffer(current, pass, key);
    if Accepts(current, pass) {
      var o := Latest(At(current.full, key));
      PresentWhereFiled(current, key, o);
      BelievedDateIsReached(current, pass, key, o);
      var d :| d in Offered(current, pass, key, false) && d.thisUpdate >= o.thisUpdate;
    }
  }

  lemma {:induction false} BaseReachesForever(current: CrlSet, passes: seq<Pass>, key: Key, mark: nat, t: nat)
    requires Isolated(current) && BaseReaches(current, key, mark)
    requires ClockFrom(t, passes) && AllBelieved(At(current.full, key), t) && DeliversBelieved(passes, key)
    ensures BaseReaches(After(current, passes), key, mark)
    decreases |passes|
  {
    if passes == [] {
    } else {
      var pass := passes[0];
      BaseReachesStep(current, pass, key, mark);
      BelievedStep(current, pass, key, t);
      StepShape(current, pass);
      BaseReachesForever(Step(current, pass), passes[1..], key, mark, pass.now);
    }
  }

  /**
   And with no condition on the partial CRLs at all: once a full CRL as late as the
   partial one is installed, the guards alone keep its serials named, while
   nothing is dated ahead of a clock that does not run back.
   */
  lemma {:induction false} CaughtUpPartialIsForever(
    current: CrlSet, passes: seq<Pass>, key: Key, issued: set<Crl>, c: Crl, serial: int, t: nat)
    requires LaterCoversPartials(issued) && c in issued && c.scope != Complete && serial in c.revoked
    requires Isolated(current) && DrawnFrom(current, passes, key, issued) && BaseReaches(current, key, c.thisUpdate)
    requires ClockFrom(t, passes) && AllBelieved(At(current.full, key), t) && DeliversBelieved(passes, key)
    ensures Names(After(current, passes), key, serial)
  {
    BaseReachesForever(current, passes, key, c.thisUpdate, t);
    DrawnForever(current, passes, key, issued);
    var d :| d in At(After(current, passes).full, key) && c.thisUpdate <= d.thisUpdate;
    assert serial in d.revoked;
  }

  lemma {:induction false} DrawnForever(current: CrlSet, passes: seq<Pass>, key: Key, issued: set<Crl>)
    requires Isolated(current) && DrawnFrom(current, passes, key, issued)
    ensures forall c :: c in At(After(current, passes).full, key) ==> c in issued
    decreases |passes|
  {
    if passes == [] {
    } else {
      DrawnStep(current, passes, key, issued);
      StepShape(current, passes[0]);
      DrawnForever(Step(current, passes[0]), passes[1..], key, issued);
    }
  }

  // ----- Concrete histories

  const ISSUER := Anchor("k", "Issuing CA", true)

  function Full(date: nat, next: nat, number: Option<int>, revoked: seq<int>): (c: Crl) {
    Crl("k", date, next, number, Complete, revoked)
  }

  function Delivery(crls: seq<Crl>, now: nat): (p: Pass) {
    Pass(Blocks(seq(|crls|, i requires 0 <= i < |crls| => Parsed(crls[i]))), now)
  }

  ghost predicate AllFull(crls: seq<Crl>) {
    crls != [] && forall c :: c in crls ==> c.signedBy == "k" && c.scope == Complete
  }

  lemma {:induction false} FiledAll(crls: seq<Crl>, partial: bool)
    requires forall c :: c in crls ==> c.signedBy == "k" && (c.scope != Complete) == partial
    ensures Filed(crls, [ISSUER], "k", partial) == crls
    ensures Filed(crls, [ISSUER], "k", !partial) == []
  {
    if crls == [] {
    } else {
      var rest, last := crls[..|crls| - 1], crls[|crls| - 1];
      assert crls == rest + [last];
      FiledAll(rest, partial);
      assert SignerOf(last, [ISSUER]) == Some(ISSUER);
    }
  }

  lemma {:induction false} VerifiedAll(crls: seq<Crl>, now: nat)
    requires forall c :: c in crls ==> c.signedBy == "k"
    ensures Malformed !in Delivery(crls, now).file.blocks
    ensures Verified(Delivery(crls, now).file.blocks, [ISSUER]) == crls
  {
    if crls == [] {
    } else {
      var rest, last := crls[..|crls| - 1], crls[|crls| - 1];
      assert crls == rest + [last];
      VerifiedAll(rest, now);
      assert Delivery(crls, now).file.blocks[..|crls| - 1] == Delivery(rest, now).file.blocks;
      assert SignerOf(last, [ISSUER]) == Some(ISSUER);
    }
  }

  /** The set of the single anchor holds exactly these full and partial CRLs. */
  ghost predicate Holds(s: CrlSet, full: seq<Crl>, partials: seq<Crl>) {
    && s.anchors == [ISSUER] && s.full.Keys <= {"k"} && s.partials.Keys <= {"k"}
    && At(s.full, "k") == full && At(s.partials, "k") == partials
  }

  /** A set built for the single anchor holds what is filed under its key. */
  lemma {:induction false} HoldsFiled(crls: seq<Crl>)
    ensures Holds(NewSet(crls, [ISSUER]), Filed(crls, [ISSUER], "k", false), Filed(crls, [ISSUER], "k", true))
  {
    FiledMapAt(crls, [ISSUER], "k", false);
    FiledMapAt(crls, [ISSUER], "k", true);
  }

  lemma {:induction false} HoldsNewSet(crls: seq<Crl>, partial: bool)
    requires forall c :: c in crls ==> c.signedBy == "k" && (c.scope != Complete) == partial
    ensures Holds(NewSet(crls, [ISSUER]), if partial then [] else crls, if partial then crls else [])
  {
    FiledAll(crls, partial);
    HoldsFiled(crls);
  }

  lemma GuardsPass(current: CrlSet, candidate: CrlSet, held: seq<Crl>, offered: seq<Crl>, now: nat)
    requires Holds(current, held, []) && Holds(candidate, offered, []) && offered != []
    requires forall c :: c in held ==> NotYetIssued(c, now) || !CurrentAt(c, now)
    requires !FreshnessOf(offered, now).RegressedFrom(FreshnessOf(held, now))
    ensures !Loses(current, candidate, now)
    ensures !MovesBack(current, candidate, now)
    ensures !DropsPartials(current, candidate, now)
  {
    assert Keys([ISSUER]) == {"k"};
    assert !AnyValid(current, "k", now);
  }

  /** With one anchor, no current CRL to lose and no regression, the delivery is installed. */
  lemma StepInstalls(held: seq<Crl>, offered: seq<Crl>, now: nat)
    requires AllFull(held) && AllFull(offered)
    requires forall c :: c in held ==> NotYetIssued(c, now) || !CurrentAt(c, now)
    requires !FreshnessOf(offered, now).RegressedFrom(FreshnessOf(held, now))
    ensures Step(NewSet(held, [ISSUER]), Delivery(offered, now)) == NewSet(offered, [ISSUER])
  {
    HoldsNewSet(held, false);
    HoldsNewSet(offered, false);
    GuardsPass(NewSet(held, [ISSUER]), NewSet(offered, [ISSUER]), held, offered, now);
    VerifiedAll(offered, now);
    assert Loaded(true, Delivery(offered, now).file, [ISSUER]) == Some(offered);
  }

  const OLDEST := Full(3, 9, Some(2), [])
  const UNNUMBERED := Full(4, 9, None, [1])
  const FIRST := Full(10, 20, Some(5), [1, 7])
  const AHEAD := Full(5000, 9000, Some(6), [1, 7, 8])

  const MIXED := {OLDEST, UNNUMBERED, FIRST, AHEAD}

  /** The four CRLs are what an honest issuer published: later names all that earlier does and more, and so does higher. */
  lemma MixedIssuerIsHonest()
    ensures NeverForgets(MIXED) && StrictlyGrowing(MIXED)
    ensures forall c, d :: c in MIXED && d in MIXED && c.number.Some? && d.number.Some? && c.number.value <= d.number.value ==>
              c.thisUpdate <= d.thisUpdate
  {
    assert 1 in UNNUMBERED.revoked && 1 !in OLDEST.revoked;
    assert 7 in FIRST.revoked && 7 !in UNNUMBERED.revoked && 7 !in OLDEST.revoked;
    assert 8 in AHEAD.revoked && 8 !in FIRST.revoked && 8 !in UNNUMBERED.revoked && 8 !in OLDEST.revoked;
  }

  lemma MixedMarks()
    ensures FreshnessOf([FIRST], 1000) == Freshness(Some(5), 10, true)
    ensures FreshnessOf([AHEAD], 1000) == FreshnessOf([AHEAD], 1001) == Freshness(Some(6), 0, false)
    ensures FreshnessOf([OLDEST, AHEAD], 1001) == FreshnessOf([OLDEST, AHEAD], 1002) == Freshness(Some(6), 3, true)
    ensures FreshnessOf([UNNUMBERED], 1002) == Freshness(None, 4, true)
  {
    assert [OLDEST, AHEAD][..1] == [OLDEST];
    assert FreshnessOf([OLDEST], 1001) == FreshnessOf([OLDEST], 1002) == Freshness(Some(2), 3, true);
  }

  lemma {:induction false} AfterOne(s: CrlSet, pass: Pass, rest: seq<Pass>)
    ensures After(s, [pass] + rest) == After(Step(s, pass), rest)
  {
    assert ([pass] + rest)[1..] == rest;
  }

  lemma {:induction false} AfterThree(s: CrlSet, a: Pass, b: Pass, c: Pass)
    ensures After(s, [a, b, c]) == Step(Step(Step(s, a), b), c)
  {
    assert [a, b, c] == [a] + [b, c] && [b, c] == [b] + [c] && [c] == [c] + [];
    AfterOne(s, a, [b, c]);
    AfterOne(Step(s, a), b, [c]);
    AfterOne(Step(Step(s, a), b), c, []);
  }

  /** A set built from one full CRL names what that names. */
  lemma {:induction false} NamedByOne(c: Crl, serial: int)
    requires c.signedBy == "k" && c.scope == Complete
    ensures var s := NewSet([c], [ISSUER]);
            (Names(s, "k", serial) <==> serial in c.revoked) && (Listed(s, "k", serial) <==> serial in c.revoked)
  {
    var s := NewSet([c], [ISSUER]);
    HoldsNewSet([c], false);
    assert c in At(s.full, "k") && At(s.full, "k") + At(s.partials, "k") == [c];
  }

  lemma {:induction false} MixedFirst()
    ensures Step(NewSet([FIRST], [ISSUER]), Delivery([AHEAD], 1000)) == NewSet([AHEAD], [ISSUER])
  {
    MixedMarks();
    StepInstalls([FIRST], [AHEAD], 1000);
  }

  lemma {:induction false} MixedSecond()
    ensures Step(NewSet([AHEAD], [ISSUER]), Delivery([OLDEST, AHEAD], 1001)) == NewSet([OLDEST, AHEAD], [ISSUER])
  {
    MixedMarks();
    StepInstalls([AHEAD], [OLDEST, AHEAD], 1001);
  }

  lemma {:induction false} MixedThird()
    ensures Step(NewSet([OLDEST, AHEAD], [ISSUER]), Delivery([UNNUMBERED], 1002)) == NewSet([UNNUMBERED], [ISSUER])
  {
    MixedMarks();
    StepInstalls([OLDEST, AHEAD], [UNNUMBERED], 1002);
  }

  lemma {:induction false} MixedRun()
    ensures After(NewSet([FIRST], [ISSUER]),
                  [Delivery([AHEAD], 1000), Delivery([OLDEST, AHEAD], 1001), Delivery([UNNUMBERED], 1002)])
            == NewSet([UNNUMBERED], [ISSUER])
  {
    MixedFirst();
    MixedSecond();
    MixedThird();
    AfterThree(NewSet([FIRST], [ISSUER]),
               Delivery([AHEAD], 1000), Delivery([OLDEST, AHEAD], 1001), Delivery([UNNUMBERED], 1002));
  }

  /**
   An issuer that numbers some CRLs and not others is outside both guarantees.
   Serial 7, named by a believed CRL, is gone after three accepted passes one
   second apart, although every delivered CRL is genuine.
   */
  lemma {:induction false} MixedNumberingLosesSerial()
    ensures Names(NewSet([FIRST], [ISSUER]), "k", 7) && !NotYetIssued(FIRST, 1000)
    ensures !Names(After(NewSet([FIRST], [ISSUER]),
                         [Delivery([AHEAD], 1000), Delivery([OLDEST, AHEAD], 1001), Delivery([UNNUMBERED], 1002)]), "k", 7)
  {
    MixedRun();
    NamedByOne(FIRST, 7);
    NamedByOne(UNNUMBERED, 7);
  }

  const DATED := Full(10, 20, None, [])
  const DATED_AHEAD := Full(5000, 9000, None, [7])

  /**
   Why the guarantee for issuers without numbers asks for a believed CRL and a
   clock that does not run back: a CRL dated ahead of the clock does not enter
   the comparison, so a set without it passes, also where a clock since moved
   back had believed it.
   */
  lemma {:induction false} UnbelievedSerialIsLost()
    ensures !NotYetIssued(DATED_AHEAD, 6000) && NotYetIssued(DATED_AHEAD, 1000)
    ensures Names(NewSet([DATED, DATED_AHEAD], [ISSUER]), "k", 7)
    ensures !Names(Step(NewSet([DATED, DATED_AHEAD], [ISSUER]), Delivery([DATED], 1000)), "k", 7)
  {
    DatedMarks();
    StepInstalls([DATED, DATED_AHEAD], [DATED], 1000);
    HoldsNewSet([DATED, DATED_AHEAD], false);
    HoldsNewSet([DATED], false);
    assert DATED_AHEAD in At(NewSet([DATED, DATED_AHEAD], [ISSUER]).full, "k");
  }

  lemma DatedMarks()
    ensures FreshnessOf([DATED], 1000) == FreshnessOf([DATED, DATED_AHEAD], 1000) == Freshness(None, 10, true)
  {
    assert [DATED, DATED_AHEAD][..1] == [DATED];
    assert FreshnessOf([DATED], 1000) == Freshness(None, 10, true);
  }

  lemma DatedIssuerIsHonest()
    ensures DatesInOrder({DATED, DATED_AHEAD})
  {
  }

  const BASE := Full(5, 50, Some(1), [])
  const EARLY_DELTA := Crl("k", 10, 50, None, Delta, [8])
  const LATE_DELTA := Crl("k", 20, 50, None, Delta, [8, 9])

  const NEWER_BASE := Full(10, 50, Some(2), [8])
  const PUBLISHED := {BASE, NEWER_BASE, EARLY_DELTA, LATE_DELTA}

  /** The four are what an honest issuer published: whatever is later than a delta names all it does. */
  lemma DeltaIssuerIsHonest()
    ensures LaterCoversPartials(PUBLISHED) && NamesSomethingNew(PUBLISHED, LATE_DELTA)
  {
    assert 9 in LATE_DELTA.revoked && 9 !in EARLY_DELTA.revoked && 9 !in NEWER_BASE.revoked && 9 !in BASE.revoked;
  }

  lemma {:induction false} FiledBaseAndDelta(delta: Crl, partial: bool)
    requires delta.signedBy == "k" && delta.scope == Delta
    ensures Filed([BASE, delta], [ISSUER], "k", partial) == if partial then [delta] else [BASE]
  {
    assert [BASE, delta] == [BASE] + [delta];
    FiledAll([BASE], false);
    FiledSnoc([BASE], delta, [ISSUER], "k", partial);
    assert SignerOf(delta, [ISSUER]) == Some(ISSUER);
  }

  lemma {:induction false} BaseAndDelta(delta: Crl)
    requires delta.signedBy == "k" && delta.scope == Delta
    ensures Holds(NewSet([BASE, delta], [ISSUER]), [BASE], [delta])
  {
    FiledBaseAndDelta(delta, false);
    FiledBaseAndDelta(delta, true);
    HoldsFiled([BASE, delta]);
  }

  lemma PartialGuardsPass(current: CrlSet, candidate: CrlSet, held: Crl, offered: Crl, now: nat)
    requires Holds(current, [BASE], [held]) && Holds(candidate, [BASE], [offered])
    ensures !Loses(current, candidate, now)
    ensures !MovesBack(current, candidate, now)
    ensures !DropsPartials(current, candidate, now)
  {
  }

  lemma {:induction false} ReplayIsInstalled()
    ensures Step(NewSet([BASE, LATE_DELTA], [ISSUER]), Delivery([BASE, EARLY_DELTA], 25)) ==
            NewSet([BASE, EARLY_DELTA], [ISSUER])
  {
    var current, candidate := NewSet([BASE, LATE_DELTA], [ISSUER]), NewSet([BASE, EARLY_DELTA], [ISSUER]);
    BaseAndDelta(LATE_DELTA);
    BaseAndDelta(EARLY_DELTA);
    VerifiedAll([BASE, EARLY_DELTA], 25);
    assert Loaded(true, Delivery([BASE, EARLY_DELTA], 25).file, [ISSUER]) == Some([BASE, EARLY_DELTA]);
    PartialGuardsPass(current, candidate, LATE_DELTA, EARLY_DELTA, 25);
  }

  lemma ListedByDelta(s: CrlSet, delta: Crl, serial: int)
    requires Holds(s, [BASE], [delta])
    ensures Listed(s, "k", serial) <==> serial in delta.revoked
  {
    assert At(s.full, "k") + At(s.partials, "k") == [BASE, delta];
    assert delta in [BASE, delta];
  }

  /**
   The partial-CRL guard counts. Delivering the earlier genuine delta in place of
   the later one, over the same base, is installed, and serial 9, which only the
   later delta names, is let go by the whole check.
   */
  lemma {:induction false} PartialGuardCounts()
    ensures Listed(NewSet([BASE, LATE_DELTA], [ISSUER]), "k", 9)
    ensures !Listed(Step(NewSet([BASE, LATE_DELTA], [ISSUER]), Delivery([BASE, EARLY_DELTA], 25)), "k", 9)
  {
    ReplayIsInstalled();
    BaseAndDelta(LATE_DELTA);
    BaseAndDelta(EARLY_DELTA);
    ListedByDelta(NewSet([BASE, LATE_DELTA], [ISSUER]), LATE_DELTA, 9);
    ListedByDelta(NewSet([BASE, EARLY_DELTA], [ISSUER]), EARLY_DELTA, 9);
  }

  lemma RotationGuardsPass(current: CrlSet, candidate: CrlSet)
    requires Holds(current, [BASE], [LATE_DELTA]) && Holds(candidate, [NEWER_BASE], [])
    ensures !Loses(current, candidate, 25)
    ensures !MovesBack(current, candidate, 25)
    ensures !DropsPartials(current, candidate, 25)
  {
    assert Keys([ISSUER]) == {"k"};
    assert FreshnessOf([BASE], 25) == Freshness(Some(1), 5, true);
    assert FreshnessOf([NEWER_BASE], 25) == Freshness(Some(2), 10, true);
    assert NEWER_BASE in At(candidate.full, "k") && CurrentAt(NEWER_BASE, 25);
  }

  lemma {:induction false} RotationIsInstalled()
    ensures Step(NewSet([BASE, LATE_DELTA], [ISSUER]), Delivery([NEWER_BASE], 25)) == NewSet([NEWER_BASE], [ISSUER])
  {
    BaseAndDelta(LATE_DELTA);
    HoldsNewSet([NEWER_BASE], false);
    VerifiedAll([NEWER_BASE], 25);
    assert Loaded(true, Delivery([NEWER_BASE], 25).file, [ISSUER]) == Some([NEWER_BASE]);
    RotationGuardsPass(NewSet([BASE, LATE_DELTA], [ISSUER]), NewSet([NEWER_BASE], [ISSUER]));
  }

  /**
   A base later than the installed one but earlier than the installed delta excuses
   dropping the delta, although it does not hold what the delta named.
   */
  lemma {:induction false} NewerBaseDropsDelta()
    ensures Listed(NewSet([BASE, LATE_DELTA], [ISSUER]), "k", 9)
    ensures !Listed(Step(NewSet([BASE, LATE_DELTA], [ISSUER]), Delivery([NEWER_BASE], 25)), "k", 9)
  {
    RotationIsInstalled();
    BaseAndDelta(LATE_DELTA);
    ListedByDelta(NewSet([BASE, LATE_DELTA], [ISSUER]), LATE_DELTA, 9);
    NamedByOne(NEWER_BASE, 9);
  }
}
