/**
 The reload job over the trust domains of one server (cmd/openvox-ca/clientca.go)
 and the per-request chain check that reads the installed sets
 (internal/api/clientcrl.go).

 A pass is one file content met at one clock reading. A run is any sequence of
 passes, so the lemmas below speak about every delivery history.
 */
module ClientCrlReload {
  import opened Options
  import opened ClientCrlSets

  /** A PEM block of a crl_file. */
  datatype Block = Other | Malformed | Parsed(crl: Crl)

  /** What reading a crl_file gives. */
  datatype FileContent = Unreadable | Blocks(blocks: seq<Block>)

  /** One client_ca entry: its parsed anchor bundle, if usable, and whether it names a crl_file. */
  datatype Entry = Entry(name: string, bundle: Option<seq<Anchor>>, hasCrlFile: bool)

  // ----- Loading

  predicate Verifies(c: Crl, anchors: seq<Anchor>) { SignerOf(c, anchors).Some? }

  /** The CRLs of the blocks that an anchor of this bundle signed, in file order. */
  function Verified(blocks: seq<Block>, anchors: seq<Anchor>): (r: seq<Crl>)
    ensures forall c :: c in r <==> Parsed(c) in blocks && Verifies(c, anchors)
  {
    if blocks == [] then []
    else
      var last := blocks[|blocks| - 1];
      assert blocks == blocks[..|blocks| - 1] + [last];
      Verified(blocks[..|blocks| - 1], anchors) +
      (if last.Parsed? && Verifies(last.crl, anchors) then [last.crl] else [])
  }

  lemma {:induction false} VerifiedSnoc(blocks: seq<Block>, block: Block, anchors: seq<Anchor>)
    ensures Verified(blocks + [block], anchors) ==
            Verified(blocks, anchors) + (if block.Parsed? && Verifies(block.crl, anchors) then [block.crl] else [])
  {
    assert (blocks + [block])[..|blocks|] == blocks;
  }

  function Loaded(hasCrlFile: bool, file: FileContent, anchors: seq<Anchor>): (r: Option<seq<Crl>>) {
    if !hasCrlFile then Some([])
    else if file.Unreadable? || Malformed in file.blocks then None
    else Some(Verified(file.blocks, anchors))
  }

  method LoadDomainCrls(hasCrlFile: bool, file: FileContent, anchors: seq<Anchor>) returns (r: Option<seq<Crl>>)
    ensures r == Loaded(hasCrlFile, file, anchors)
    ensures !hasCrlFile ==> r == Some([])
    ensures hasCrlFile ==> (r.None? <==> file.Unreadable? || Malformed in file.blocks)
    ensures hasCrlFile && r.Some? ==>
              forall c :: c in r.value <==>
                Parsed(c) in file.blocks && exists a :: a in anchors && a.signsCrls && a.key == c.signedBy
  {
    if !hasCrlFile {
      return Some([]);
    }
    if file.Unreadable? {
      return None;
    }
    var out: seq<Crl> := [];
    for i := 0 to |file.blocks|
      invariant Malformed !in file.blocks[..i]
      invariant out == Verified(file.blocks[..i], anchors)
    {
      VerifiedSnoc(file.blocks[..i], file.blocks[i], anchors);
      assert file.blocks[..i + 1] == file.blocks[..i] + [file.blocks[i]];
      match file.blocks[i] {
        case Other =>
        case Malformed => return None;
        case Parsed(crl) =>
          if Verifies(crl, anchors) {
            out := out + [crl];
          }
      }
    }
    assert file.blocks[..|file.blocks|] == file.blocks;
    r := Some(out);
  }

  // ----- One pass over one domain

  datatype Outcome = KeptOnError | KeptCoverage | KeptNewer | KeptPartials | Installed(candidate: CrlSet)

  /** The decision of one pass, with the guards in the order they are tried. */
  function Decide(current: CrlSet, hasCrlFile: bool, file: FileContent, now: nat): (r: Outcome) {
    var loaded := Loaded(hasCrlFile, file, current.anchors);
    if loaded.None? then KeptOnError
    else
      var candidate := NewSet(loaded.value, current.anchors);
      if hasCrlFile && Loses(current, candidate, now) then KeptCoverage
      else if hasCrlFile && MovesBack(current, candidate, now) then KeptNewer
      else if hasCrlFile && DropsPartials(current, candidate, now) then KeptPartials
      else Installed(candidate)
  }

  function SetAfter(current: CrlSet, outcome: Outcome): (s: CrlSet) {
    if outcome.Installed? then outcome.candidate else current
  }

  /** A trust domain; the set is replaced whole when a pass is accepted. */
  class TrustDomain {
    const own: bool
    const anchors: seq<Anchor>
    var crls: CrlSet
    var lastReload: Option<nat>

    /** Domain zero: this CA, which holds no foreign CRLs. */
    constructor Own()
      ensures own && anchors == []
      ensures crls == NewSet([], []) && lastReload == None
    {
      own, anchors := true, [];
      crls, lastReload := NewSet([], []), None;
    }

    constructor Foreign(anchors: seq<Anchor>, crls: CrlSet)
      ensures !own && this.anchors == anchors
      ensures this.crls == crls && lastReload == None
    {
      own, this.anchors := false, anchors;
      this.crls, lastReload := crls, None;
    }

    ghost function Now(): (h: Held)
      reads this
    {
      Held(crls, lastReload)
    }

    /** A foreign domain belongs to its entry: same bundle, and nothing filed that the bundle did not sign. */
    ghost predicate BelongsTo(entry: Entry)
      reads this
    {
      !own && entry.bundle == Some(anchors) && crls.anchors == anchors && Isolated(crls)
    }
  }

  ghost predicate Distinct(domains: seq<TrustDomain>) {
    forall i, j :: 0 <= i < j < |domains| ==> domains[i] != domains[j]
  }

  /** The foreign domains belong to the entries one by one. */
  ghost predicate Paired(entries: seq<Entry>, foreign: seq<TrustDomain>)
    reads foreign
  {
    |foreign| == |entries| && forall i :: 0 <= i < |entries| ==> foreign[i].BelongsTo(entries[i])
  }

  /** Domain zero is this CA and domain i + 1 belongs to entry i. */
  ghost predicate Layout(entries: seq<Entry>, domains: seq<TrustDomain>)
    reads domains
  {
    domains != [] && domains[0].own && Distinct(domains) && Paired(entries, domains[1..])
  }

  /** The bundle holds a certificate and the crl_file, where one is named, can be read and parsed. */
  predicate Usable(entry: Entry, file: FileContent) {
    entry.bundle.Some? && entry.bundle.value != [] && Loaded(entry.hasCrlFile, file, entry.bundle.value).Some?
  }

  function StartSet(entry: Entry, file: FileContent): (s: CrlSet)
    requires Usable(entry, file)
  {
    NewSet(Loaded(entry.hasCrlFile, file, entry.bundle.value).value, entry.bundle.value)
  }

  method BuildDomain(entry: Entry, file: FileContent) returns (r: Option<TrustDomain>)
    ensures r.Some? <==> Usable(entry, file)
    ensures entry.bundle.None? || entry.bundle == Some([]) ==> r.None?
    ensures entry.bundle.Some? && entry.bundle.value != [] ==>
              (r.None? <==> entry.hasCrlFile && (file.Unreadable? || Malformed in file.blocks))
    ensures r.Some? && !entry.hasCrlFile ==> r.value.crls.full == map[] && r.value.crls.partials == map[]
    ensures r.Some? ==> fresh(r.value) && r.value.BelongsTo(entry) && r.value.crls == StartSet(entry, file)
  {
    if entry.bundle.None? || entry.bundle.value == [] {
      return None;
    }
    var anchors := entry.bundle.value;
    var crls := LoadDomainCrls(entry.hasCrlFile, file, anchors);
    if crls.None? {
      return None;
    }
    var built := NewClientCrlSet(crls.value, anchors);
    NewSetIsolated(crls.value, anchors);
    var domain := new TrustDomain.Foreign(anchors, built);
    r := Some(domain);
  }

  method BuildForeign(entries: seq<Entry>, files: seq<FileContent>) returns (r: Option<seq<TrustDomain>>)
    requires |files| == |entries|
    ensures r.Some? <==> forall i :: 0 <= i < |entries| ==> Usable(entries[i], files[i])
    ensures r.Some? ==> fresh(r.value) && Distinct(r.value) && Paired(entries, r.value)
    ensures r.Some? ==> forall i :: 0 <= i < |entries| ==> r.value[i].crls == StartSet(entries[i], files[i])
  {
    var foreign: seq<TrustDomain> := [];
    for i := 0 to |entries|
      invariant fresh(foreign) && Distinct(foreign) && |foreign| == i
      invariant forall j :: 0 <= j < i ==> Usable(entries[j], files[j])
      invariant forall j :: 0 <= j < i ==>
                  foreign[j].BelongsTo(entries[j]) && foreign[j].crls == StartSet(entries[j], files[j])
    {
      var domain := BuildDomain(entries[i], files[i]);
      if domain.None? {
        return None;
      }
      foreign := foreign + [domain.value];
    }
    r := Some(foreign);
  }

  /** Startup refuses on any unusable bundle or crl_file, and otherwise lays the domains out. */
  method BuildTrustDomains(entries: seq<Entry>, files: seq<FileContent>) returns (r: Option<seq<TrustDomain>>)
    requires |files| == |entries|
    ensures r.Some? <==> forall i :: 0 <= i < |entries| ==> Usable(entries[i], files[i])
    ensures r.Some? ==> fresh(r.value) && Layout(entries, r.value)
    ensures r.Some? ==> forall i :: 0 <= i < |entries| ==> r.value[1..][i].crls == StartSet(entries[i], files[i])
  {
    var foreign := BuildForeign(entries, files);
    if foreign.None? {
      return None;
    }
    var zero := new TrustDomain.Own();
    assert ([zero] + foreign.value)[1..] == foreign.value;
    r := Some([zero] + foreign.value);
  }

  datatype Pass = Pass(file: FileContent, now: nat)

  /** The file can be read and none of the three guards objects to what it offers. */
  ghost predicate Accepts(current: CrlSet, pass: Pass) {
    && pass.file.Blocks? && Malformed !in pass.file.blocks
    && var candidate := NewSet(Verified(pass.file.blocks, current.anchors), current.anchors);
       && !Loses(current, candidate, pass.now)
       && !MovesBack(current, candidate, pass.now)
       && !DropsPartials(current, candidate, pass.now)
  }

  /** A domain's mutable part. */
  datatype Held = Held(crls: CrlSet, lastReload: Option<nat>)

  /** What one pass does to one domain: the decision applied, and the stamp moved exactly on an installation. */
  function Refreshed(before: Held, entry: Entry, file: FileContent, now: nat): (after: Held) {
    var outcome := Decide(before.crls, entry.hasCrlFile, file, now);
    Held(SetAfter(before.crls, outcome), if outcome.Installed? then Some(now) else before.lastReload)
  }

  /**
   The same on the file and the guards: with a crl_file, an accepted pass installs
   what it verified and moves the stamp to its clock, and any other changes
   nothing. Without one the set stays empty and the stamp moves.
   */
  lemma RefreshedIs(before: Held, entry: Entry, file: FileContent, now: nat)
    ensures var after := Refreshed(before, entry, file, now);
            var anchors := before.crls.anchors;
            && (entry.hasCrlFile && Accepts(before.crls, Pass(file, now)) ==>
                  after.lastReload == Some(now) && after.crls == NewSet(Verified(file.blocks, anchors), anchors))
            && (entry.hasCrlFile && !Accepts(before.crls, Pass(file, now)) ==> after == before)
            && (!entry.hasCrlFile ==> after.lastReload == Some(now) && after.crls == NewSet([], anchors))
  {
  }

  method RefreshDomain(entry: Entry, domain: TrustDomain, file: FileContent, now: nat)
    requires domain.BelongsTo(entry)
    modifies domain
    ensures domain.BelongsTo(entry) && domain.Now() == Refreshed(old(domain.Now()), entry, file, now)
    ensures entry.hasCrlFile && old(Accepts(domain.crls, Pass(file, now))) ==>
              && domain.lastReload == Some(now)
              && domain.crls == NewSet(Verified(file.blocks, domain.anchors), domain.anchors)
    ensures entry.hasCrlFile && !old(Accepts(domain.crls, Pass(file, now))) ==>
              domain.lastReload == old(domain.lastReload) && domain.crls == old(domain.crls)
    ensures !entry.hasCrlFile ==> domain.lastReload == Some(now) && domain.crls == NewSet([], domain.anchors)
  {
    var crls := LoadDomainCrls(entry.hasCrlFile, file, domain.anchors);
    if crls.None? {
      return;
    }
    var candidate := NewClientCrlSet(crls.value, domain.anchors);
    NewSetIsolated(crls.value, domain.anchors);
    if entry.hasCrlFile {
      var regressed := Regresses(domain.crls, candidate, now);
      var dropped := PartialsDropped(domain.crls, candidate, now);
      var loses := LosesCoverage(domain.crls, candidate, now);
      if loses || regressed || dropped {
        return;
      }
    }
    domain.crls := candidate;
    domain.lastReload := Some(now);
  }

  method RefreshForeign(entries: seq<Entry>, foreign: seq<TrustDomain>, files: seq<FileContent>, nows: seq<nat>)
    requires Distinct(foreign) && Paired(entries, foreign) && |files| == |nows| == |entries|
    modifies foreign
    ensures Paired(entries, foreign)
    ensures forall i :: 0 <= i < |entries| ==>
              foreign[i].Now() == Refreshed(old(foreign[i].Now()), entries[i], files[i], nows[i])
  {
    for i := 0 to |entries|
      invariant Paired(entries, foreign)
      invariant forall j :: i <= j < |entries| ==> foreign[j].Now() == old(foreign[j].Now())
      invariant forall j :: 0 <= j < i ==>
                  foreign[j].Now() == Refreshed(old(foreign[j].Now()), entries[j], files[j], nows[j])
    {
      assert foreign[i].BelongsTo(entries[i]);
      label Before:
      RefreshDomain(entries[i], foreign[i], files[i], nows[i]);
      forall j | 0 <= j < |entries| && j != i
        ensures foreign[j].Now() == old@Before(foreign[j].Now()) && foreign[j].BelongsTo(entries[j])
      {
        assert foreign[j] != foreign[i] && old@Before(foreign[j].BelongsTo(entries[j]));
      }
    }
  }

  /** One refresh pass over every entry; `nows` are the clock readings taken as each entry is reached. */
  method RefreshClientCrls(entries: seq<Entry>, domains: seq<TrustDomain>, files: seq<FileContent>, nows: seq<nat>)
    requires Layout(entries, domains) && |files| == |nows| == |entries|
    modifies domains[1..]
    ensures Layout(entries, domains)
    ensures forall i :: 0 <= i < |entries| ==>
              domains[1..][i].Now() == Refreshed(old(domains[1..][i].Now()), entries[i], files[i], nows[i])
  {
    RefreshForeign(entries, domains[1..], files, nows);
  }

  // ----- Runs

  function Step(current: CrlSet, pass: Pass): (s: CrlSet) {
    SetAfter(current, Decide(current, true, pass.file, pass.now))
  }

  /** The set installed after a run of passes over an entry with a crl_file. */
  function After(current: CrlSet, passes: seq<Pass>): (s: CrlSet)
    decreases |passes|
  {
    if passes == [] then current else After(Step(current, passes[0]), passes[1..])
  }

  lemma {:induction false} AfterSnoc(current: CrlSet, passes: seq<Pass>, pass: Pass)
    ensures After(current, passes + [pass]) == Step(After(current, passes), pass)
    decreases |passes|
  {
    if passes == [] {
      assert passes + [pass] == [pass] && [pass][1..] == [];
    } else {
      AfterSnoc(Step(current, passes[0]), passes[1..], pass);
      assert (passes + [pass])[1..] == passes[1..] + [pass];
    }
  }

  /** Every entry's file and clock reading in one tick of the reload timer. */
  type Tick = seq<Pass>

  ghost predicate TicksFor(n: nat, ticks: seq<Tick>) { forall t :: t in ticks ==> |t| == n }

  function PassesOf(ticks: seq<Tick>, i: nat): (r: seq<Pass>)
    requires forall t :: t in ticks ==> i < |t|
  {
    seq(|ticks|, t requires 0 <= t < |ticks| => assert ticks[t] in ticks; ticks[t][i])
  }

  lemma {:induction false} AfterTick(current: CrlSet, ticks: seq<Tick>, t: nat, i: nat)
    requires t < |ticks| && forall tick :: tick in ticks ==> i < |tick|
    ensures ticks[t] in ticks
    ensures After(current, PassesOf(ticks[..t + 1], i)) == Step(After(current, PassesOf(ticks[..t], i)), ticks[t][i])
  {
    assert ticks[t] in ticks;
    AfterSnoc(current, PassesOf(ticks[..t], i), ticks[t][i]);
    assert PassesOf(ticks[..t + 1], i) == PassesOf(ticks[..t], i) + [ticks[t][i]];
  }

  /** The i-th pass of a run meets a set that accepts it. */
  ghost predicate AcceptsAt(current: CrlSet, passes: seq<Pass>, i: nat)
    requires i < |passes|
  {
    Accepts(After(current, passes[..i]), passes[i])
  }

  /** The stamp is the clock reading of the last accepted pass, or the initial one where none was accepted. */
  ghost predicate Stamped(current: CrlSet, passes: seq<Pass>, initial: Option<nat>, stamp: Option<nat>) {
    || (stamp == initial && forall i :: 0 <= i < |passes| ==> !AcceptsAt(current, passes, i))
    || exists i: nat :: LastAccepted(current, passes, i) && stamp == Some(passes[i].now)
  }

  ghost predicate LastAccepted(current: CrlSet, passes: seq<Pass>, i: nat) {
    && i < |passes| && AcceptsAt(current, passes, i)
    && forall j :: i < j < |passes| ==> !AcceptsAt(current, passes, j)
  }

  lemma {:induction false} StampedSnoc(
    current: CrlSet, passes: seq<Pass>, pass: Pass, initial: Option<nat>, before: Option<nat>, after: Option<nat>)
    requires Stamped(current, passes, initial, before)
    requires after == if Accepts(After(current, passes), pass) then Some(pass.now) else before
    ensures Stamped(current, passes + [pass], initial, after)
  {
    var longer := passes + [pass];
    forall i | 0 <= i < |passes| ensures AcceptsAt(current, longer, i) == AcceptsAt(current, passes, i) {
      assert longer[..i] == passes[..i];
    }
    assert longer[..|passes|] == passes;
    assert AcceptsAt(current, longer, |passes|) == Accepts(After(current, passes), pass);
    if Accepts(After(current, passes), pass) {
      assert LastAccepted(current, longer, |passes|);
    } else if i: nat :| LastAccepted(current, passes, i) && before == Some(passes[i].now) {
      assert LastAccepted(current, longer, i);
    }
  }

  /** One tick more: the set and the stamp of a domain follow from its entry's pass. */
  lemma {:induction false} TickHolds(initial: Held, before: Held, after: Held, entry: Entry, ticks: seq<Tick>, t: nat, i: nat)
    requires t < |ticks| && (forall tick :: tick in ticks ==> i < |tick|) && entry.hasCrlFile
    requires before.crls == After(initial.crls, PassesOf(ticks[..t], i))
    requires Stamped(initial.crls, PassesOf(ticks[..t], i), initial.lastReload, before.lastReload)
    requires ticks[t] in ticks && after == Refreshed(before, entry, ticks[t][i].file, ticks[t][i].now)
    ensures after.crls == After(initial.crls, PassesOf(ticks[..t + 1], i))
    ensures Stamped(initial.crls, PassesOf(ticks[..t + 1], i), initial.lastReload, after.lastReload)
  {
    AfterTick(initial.crls, ticks, t, i);
    StampedSnoc(initial.crls, PassesOf(ticks[..t], i), ticks[t][i], initial.lastReload, before.lastReload, after.lastReload);
    assert PassesOf(ticks[..t + 1], i) == PassesOf(ticks[..t], i) + [ticks[t][i]];
  }

  /**
   The reload job over any number of ticks. The layout is kept for the whole life
   of the server, and an entry with a crl_file holds exactly what its own
   sequence of passes leaves, so the lemmas below apply to the running domains.
   */
  method RunClientCrlReloader(entries: seq<Entry>, domains: seq<TrustDomain>, ticks: seq<Tick>)
    requires Layout(entries, domains) && TicksFor(|entries|, ticks)
    modifies domains[1..]
    ensures Layout(entries, domains)
    ensures forall i :: 0 <= i < |entries| && entries[i].hasCrlFile ==>
              domains[1..][i].crls == After(old(domains[1..][i].crls), PassesOf(ticks, i)) &&
              Stamped(old(domains[1..][i].crls), PassesOf(ticks, i), old(domains[1..][i].lastReload), domains[1..][i].lastReload)
  {
    ghost var foreign := domains[1..];
    for t := 0 to |ticks|
      invariant Layout(entries, domains)
      invariant forall i :: 0 <= i < |entries| && entries[i].hasCrlFile ==>
                  foreign[i].Now().crls == After(old(foreign[i].Now().crls), PassesOf(ticks[..t], i)) &&
                  Stamped(old(foreign[i].Now().crls), PassesOf(ticks[..t], i), old(foreign[i].Now().lastReload),
                          foreign[i].Now().lastReload)
    {
      var tick := ticks[t];
      assert tick in ticks;
      label Before:
      RefreshClientCrls(entries, domains, seq(|tick|, i requires 0 <= i < |tick| => tick[i].file),
                        seq(|tick|, i requires 0 <= i < |tick| => tick[i].now));
      forall i | 0 <= i < |entries| && entries[i].hasCrlFile
        ensures foreign[i].Now().crls == After(old(foreign[i].Now().crls), PassesOf(ticks[..t + 1], i))
        ensures Stamped(old(foreign[i].Now().crls), PassesOf(ticks[..t + 1], i), old(foreign[i].Now().lastReload),
                        foreign[i].Now().lastReload)
      {
        TickHolds(old(foreign[i].Now()), old@Before(foreign[i].Now()), foreign[i].Now(), entries[i], ticks, t, i);
      }
    }
    assert ticks[..|ticks|] == ticks;
  }

  /** The CRLs a pass could install: parsed from its file. */
  predicate Delivered(pass: Pass, c: Crl) { pass.file.Blocks? && Parsed(c) in pass.file.blocks }

  lemma StepInstallsVerified(current: CrlSet, pass: Pass)
    ensures Step(current, pass) == current ||
            (pass.file.Blocks? &&
             Step(current, pass) == NewSet(Verified(pass.file.blocks, current.anchors), current.anchors))
  {
  }

  /** Everything filed as full is a complete CRL of the pass. */
  ghost predicate AllDelivered(s: CrlSet, pass: Pass) {
    forall k, c :: c in At(s.full, k) ==> Delivered(pass, c) && c.scope == Complete
  }

  lemma VerifiedIsDelivered(pass: Pass, anchors: seq<Anchor>)
    requires pass.file.Blocks?
    ensures AllDelivered(NewSet(Verified(pass.file.blocks, anchors), anchors), pass)
  {
    NewSetIsolated(Verified(pass.file.blocks, anchors), anchors);
  }

  lemma StepShape(current: CrlSet, pass: Pass)
    requires Isolated(current)
    ensures Isolated(Step(current, pass)) && Step(current, pass).anchors == current.anchors
    ensures Step(current, pass) == current || AllDelivered(Step(current, pass), pass)
  {
    StepInstallsVerified(current, pass);
    if Step(current, pass) != current {
      NewSetIsolated(Verified(pass.file.blocks, current.anchors), current.anchors);
      VerifiedIsDelivered(pass, current.anchors);
    }
  }

  /** Domain isolation over a whole run: only keys of this entry's own bundle ever speak for it. */
  lemma {:induction false} IsolationIsForever(current: CrlSet, passes: seq<Pass>)
    requires Isolated(current)
    ensures Isolated(After(current, passes)) && After(current, passes).anchors == current.anchors
    decreases |passes|
  {
    if passes == [] {
    } else {
      StepShape(current, passes[0]);
      IsolationIsForever(Step(current, passes[0]), passes[1..]);
    }
  }

  /** What an accepted pass may not do to any key. */
  lemma AcceptedPassGuards(current: CrlSet, pass: Pass, key: Key)
    requires Isolated(current)
    ensures var next := Step(current, pass);
            && (Present(current, key) ==> Present(next, key))
            && (Current(current, key, pass.now) ==> Current(next, key, pass.now))
            && (next != current && Present(current, key) ==>
                  !Mark(next, key, pass.now).RegressedFrom(Mark(current, key, pass.now)))
            && (|At(next.partials, key)| < |At(current.partials, key)| ==> BaseAdvanced(current, next, key, pass.now))
  {
    StepShape(current, pass);
  }

  /** An anchor key that ever had a full CRL never loses it, whatever is delivered. */
  lemma {:induction false} CoverageIsForever(current: CrlSet, passes: seq<Pass>, key: Key)
    requires Isolated(current) && Present(current, key)
    ensures Present(After(current, passes), key)
    decreases |passes|
  {
    if passes == [] {
    } else {
      StepShape(current, passes[0]);
      AcceptedPassGuards(current, passes[0], key);
      CoverageIsForever(Step(current, passes[0]), passes[1..], key);
    }
  }

  // ----- Revocations survive reloads

  /** Some full CRL filed under the key names the serial. */
  ghost predicate Names(s: CrlSet, key: Key, serial: int) {
    exists c :: c in At(s.full, key) && serial in c.revoked
  }

  /** Everything installed or delivered for the key comes from this collection of the issuer's full CRLs. */
  ghost predicate DrawnFrom(current: CrlSet, passes: seq<Pass>, key: Key, issued: set<Crl>) {
    && (forall c :: c in At(current.full, key) ==> c in issued)
    && (forall p, c :: p in passes && Delivered(p, c) && c.scope == Complete && c.signedBy == key ==> c in issued)
  }

  lemma DrawnStep(current: CrlSet, passes: seq<Pass>, key: Key, issued: set<Crl>)
    requires passes != [] && Isolated(current) && DrawnFrom(current, passes, key, issued)
    ensures DrawnFrom(Step(current, passes[0]), passes[1..], key, issued)
  {
    var next := Step(current, passes[0]);
    StepShape(current, passes[0]);
    forall c | c in At(next.full, key) ensures c in issued {
      if next != current {
        assert Delivered(passes[0], c) && c.signedBy == key && c.scope == Complete;
      }
    }
    forall p, c | p in passes[1..] && Delivered(p, c) && c.scope == Complete && c.signedBy == key ensures c in issued {
      assert p in passes;
    }
  }

  /** An issuer that numbers every full CRL, a higher number never naming fewer serials. */
  ghost predicate NumbersInOrder(issued: set<Crl>) {
    && (forall c :: c in issued ==> c.number.Some?)
    && (forall c, d :: c in issued && d in issued && c.number.value <= d.number.value ==>
          forall s :: s in c.revoked ==> s in d.revoked)
  }

  /** A numbered list that does not regress names whatever the list before it named. */
  lemma HigherNumberNamesMore(held: seq<Crl>, offered: seq<Crl>, issued: set<Crl>, now: nat, c: Crl, serial: int)
    requires NumbersInOrder(issued) && (forall d :: d in held || d in offered ==> d in issued)
    requires offered != [] && !FreshnessOf(offered, now).RegressedFrom(FreshnessOf(held, now))
    requires c in held && serial in c.revoked
    ensures exists d :: d in offered && serial in d.revoked
  {
    var cur, cand := FreshnessOf(held, now), FreshnessOf(offered, now);
    assert offered[0] in offered && offered[0].number.Some?;
    assert c.number.value <= cur.maxNumber.value <= cand.maxNumber.value;
    var top :| top in offered && top.number == cand.maxNumber;
    assert serial in top.revoked;
  }

  lemma NumberedStep(current: CrlSet, pass: Pass, key: Key, issued: set<Crl>, serial: int)
    requires Isolated(current) && Present(current, key) && NumbersInOrder(issued)
    requires DrawnFrom(current, [pass], key, issued)
    requires Names(current, key, serial)
    ensures Names(Step(current, pass), key, serial)
  {
    var next := Step(current, pass);
    if next != current {
      AcceptedPassGuards(current, pass, key);
      DrawnStep(current, [pass], key, issued);
      var c :| c in At(current.full, key) && serial in c.revoked;
      HigherNumberNamesMore(At(current.full, key), At(next.full, key), issued, pass.now, c, serial);
    }
  }

  /**
   No run of reloads re-admits a revoked serial of an issuer that numbers its
   CRLs, whatever files are delivered in whatever order and whatever the clock
   does, backwards included.
   */
  lemma {:induction false} NumberedRevocationIsForever(
    current: CrlSet, passes: seq<Pass>, key: Key, issued: set<Crl>, serial: int)
    requires Isolated(current) && Present(current, key) && NumbersInOrder(issued)
    requires DrawnFrom(current, passes, key, issued)
    requires Names(current, key, serial)
    ensures Names(After(current, passes), key, serial)
    decreases |passes|
  {
    if passes == [] {
    } else {
      assert DrawnFrom(current, [passes[0]], key, issued);
      NumberedStep(current, passes[0], key, issued, serial);
      AcceptedPassGuards(current, passes[0], key);
      DrawnStep(current, passes, key, issued);
      StepShape(current, passes[0]);
      NumberedRevocationIsForever(Step(current, passes[0]), passes[1..], key, issued, serial);
    }
  }

  /** An issuer that numbers nothing, a later CRL never naming fewer serials. */
  ghost predicate DatesInOrder(issued: set<Crl>) {
    && (forall c :: c in issued ==> c.number.None?)
    && (forall c, d :: c in issued && d in issued && c.thisUpdate <= d.thisUpdate ==>
          forall s :: s in c.revoked ==> s in d.revoked)
  }

  ghost predicate ClockFrom(t: nat, passes: seq<Pass>) {
    && (forall i :: 0 <= i < |passes| ==> t <= passes[i].now)
    && (forall i, j :: 0 <= i < j < |passes| ==> passes[i].now <= passes[j].now)
  }

  /**
   The installed CRLs of the key reach the date `mark` at clock `t`: either one
   that is believed does, or every one does.
   */
  ghost predicate Reaches(s: CrlSet, key: Key, mark: nat, t: nat) {
    || (exists c :: c in At(s.full, key) && !NotYetIssued(c, t) && mark <= c.thisUpdate)
    || (At(s.full, key) != [] && forall c :: c in At(s.full, key) ==> mark <= c.thisUpdate)
  }

  lemma DatedStep(current: CrlSet, pass: Pass, key: Key, issued: set<Crl>, mark: nat, t: nat)
    requires Isolated(current) && Present(current, key) && DatesInOrder(issued)
    requires DrawnFrom(current, [pass], key, issued)
    requires t <= pass.now && mark <= t + CLOCK_SKEW_TOLERANCE
    requires Reaches(current, key, mark, t)
    ensures Reaches(Step(current, pass), key, mark, pass.now)
  {
    var next := Step(current, pass);
    if next != current {
      AcceptedPassGuards(current, pass, key);
      DrawnStep(current, [pass], key, issued);
      var cur, cand := Mark(current, key, pass.now), Mark(next, key, pass.now);
      // Neither side is numbered, so an undated installed side would have been refused.
      assert cur.dated && mark <= cur.latest;
      if cand.dated {
        var w :| w in At(next.full, key) && !NotYetIssued(w, pass.now) && w.thisUpdate == cand.latest;
      }
    }
  }

  /** A CRL of the issuer dated `mark` or later is installed. */
  ghost predicate DatedFrom(s: CrlSet, key: Key, issued: set<Crl>, mark: nat) {
    exists c :: c in At(s.full, key) && c in issued && mark <= c.thisUpdate
  }

  lemma ReachesIsDated(s: CrlSet, key: Key, issued: set<Crl>, mark: nat, t: nat)
    requires Reaches(s, key, mark, t) && forall c :: c in At(s.full, key) ==> c in issued
    ensures DatedFrom(s, key, issued, mark)
  {
    if At(s.full, key) != [] {
      assert At(s.full, key)[0] in At(s.full, key);
    }
  }

  lemma {:induction false} DatesReachForever(
    current: CrlSet, passes: seq<Pass>, key: Key, issued: set<Crl>, mark: nat, t: nat)
    requires Isolated(current) && Present(current, key) && DatesInOrder(issued)
    requires DrawnFrom(current, passes, key, issued) && ClockFrom(t, passes)
    requires mark <= t + CLOCK_SKEW_TOLERANCE && Reaches(current, key, mark, t)
    ensures DatedFrom(After(current, passes), key, issued, mark)
    decreases |passes|
  {
    if passes == [] {
      ReachesIsDated(current, key, issued, mark, t);
    } else {
      assert DrawnFrom(current, [passes[0]], key, issued);
      DatedStep(current, passes[0], key, issued, mark, t);
      AcceptedPassGuards(current, passes[0], key);
      DrawnStep(current, passes, key, issued);
      StepShape(current, passes[0]);
      DatesReachForever(Step(current, passes[0]), passes[1..], key, issued, mark, passes[0].now);
    }
  }

  /**
   The same for an issuer that publishes no numbers, while the clock does not
   run backwards and the CRL naming the serial is one this host believes.
   */
  lemma {:induction false} DatedRevocationIsForever(
    current: CrlSet, passes: seq<Pass>, key: Key, issued: set<Crl>, c: Crl, serial: int, t: nat)
    requires Isolated(current) && Present(current, key) && DatesInOrder(issued)
    requires DrawnFrom(current, passes, key, issued) && ClockFrom(t, passes)
    requires c in At(current.full, key) && !NotYetIssued(c, t) && serial in c.revoked
    ensures Names(After(current, passes), key, serial)
  {
    DatesReachForever(current, passes, key, issued, c.thisUpdate, t);
    var w :| w in At(After(current, passes).full, key) && w in issued && c.thisUpdate <= w.thisUpdate;
    assert serial in w.revoked;
  }
}
