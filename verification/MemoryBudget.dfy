/**
 The tree memory budget (cmd/openvox-ca/launcher_memlimit.go and the resolvers in
 cmd/openvox-ca/config.go): one ceiling, divided between the launcher, the signer
 and the frontend, and carried to the children through their environments. All
 budget arithmetic is on `int64`, so every step is also proved not to overflow.
 Operator-facing texts are kept as structured values.
 */
module MemoryBudget {
  import opened Options
  import opened Strings
  import opened ByteCounts
  import opened CgroupPaths
  import opened GoSlices
  import opened ChildEnvironments

  const DEFAULT_LAUNCHER: int64 := 0x80_0000
  const DEFAULT_SIGNER: int64 := 0x180_0000
  const MIN_PROCESS: int64 := 0x80_0000
  const MIN_FRONTEND: int64 := 0x180_0000
  const DEFAULT_PERCENT: int64 := 90

  datatype Config = Config(percent: int, reserveLauncher: string, reserveSigner: string)

  datatype Note = PercentOutOfRange(percent: int) | NotAByteCount(key: string, raw: string)
                | BelowMinimum(key: string, bytes: int)

  datatype Kind = Applied | NoCeiling | TooSmall | Invalid

  datatype Source = NoSource | FromGoMemLimit | FromCgroup(path: string)

  datatype Budget = Budget(total: int64, launcher: int64, signer: int64, frontend: int64,
                           ceiling: int64, source: Source, notes: seq<Note>) {
    function ShareFor(role: string): (n: int64) {
      if role == "launcher" then launcher
      else if role == "signer" then signer
      else if role == "frontend" then frontend
      else 0
    }
  }

  // ----- The configured keys

  function ResolvePercent(percent: int): (r: (int64, Option<Note>))
    ensures 1 <= r.0 <= 100
    ensures r.0 as int == if 1 <= percent <= 100 then percent else 90
    ensures r.1 == if 0 <= percent <= 100 then None else Some(PercentOutOfRange(percent))
  {
    if percent == 0 then (DEFAULT_PERCENT, None)
    else if 1 <= percent <= 100 then (percent as int64, None)
    else (DEFAULT_PERCENT, Some(PercentOutOfRange(percent)))
  }

  /** The reservation a configured text asks for, where it can be used. */
  ghost function Reservation(raw: string): (r: Option<int>) {
    var n := ConfiguredByteCount(TrimSpace(raw));
    if n.Some? && n.value >= MIN_PROCESS as int then n else None
  }

  ghost function ReservationNote(key: string, raw: string): (r: Option<Note>) {
    var text := TrimSpace(raw);
    if text == "" || Reservation(raw).Some? then None
    else if ConfiguredByteCount(text).None? then Some(NotAByteCount(key, text))
    else Some(BelowMinimum(key, ConfiguredByteCount(text).value))
  }

  method ByteCountOrDefault(key: string, raw: string, fallback: int64) returns (n: int64, note: Option<Note>)
    ensures n as int == if Reservation(raw).Some? then Reservation(raw).value else fallback as int
    ensures note == ReservationNote(key, raw)
    ensures var text := TrimSpace(raw);
            var count := ConfiguredByteCount(text);
            && (text == "" ==> n == fallback && note == None)
            && (text != "" && count.None? ==> n == fallback && note == Some(NotAByteCount(key, text)))
            && (count.Some? && count.value < 0x80_0000 ==> n == fallback && note == Some(BelowMinimum(key, count.value)))
            && (count.Some? && count.value >= 0x80_0000 ==> n as int == count.value && note == None)
  {
    var trimmed := TrimSpace(raw);
    NoEmptyCount();
    if trimmed == "" {
      return fallback, None;
    }
    var parsed := ParseConfiguredByteCount(trimmed);
    if parsed.None? {
      return fallback, Some(NotAByteCount(key, trimmed));
    }
    if parsed.value < MIN_PROCESS {
      return fallback, Some(BelowMinimum(key, parsed.value as int));
    }
    return parsed.value, None;
  }

  lemma NoEmptyCount()
    ensures ConfiguredByteCount("").None?
  {
  }

  // ----- Scaling

  /** percent% of n, rounded down, on unbounded integers. */
  function PercentOf(n: int, percent: int): (r: int) { n * percent / 100 }

  lemma MulMonotone(x: int, y: int, p: int)
    requires x <= y && 0 <= p
    ensures x * p <= y * p
  {
  }

  /** Dividing first loses fewer than `percent` bytes. */
  lemma DivideFirst(n: int, percent: int)
    requires 0 <= n && 1 <= percent <= 100
    ensures 0 <= n / 100 * percent <= PercentOf(n, percent) <= n
    ensures PercentOf(n, percent) - n / 100 * percent < percent
    ensures n * percent <= n * 100
  {
    var q, r := n / 100, n % 100;
    var a, b := q * percent, r * percent;
    assert n * percent == 100 * a + b by {
      assert n == 100 * q + r;
      assert (100 * q + r) * percent == 100 * (q * percent) + r * percent;
    }
    MulMonotone(0, q, percent);
    MulMonotone(0, r, percent);
    MulMonotone(r, 99, percent);
    assert n * percent <= n * 100 by {
      MulMonotone(percent, 100, n);
    }
    assert (100 * a + b) / 100 == a + b / 100;
  }

  /**
   percent% of n: exact wherever the product fits, and otherwise short by fewer
   than `percent` bytes; never negative and never above n.
   */
  function ScalePercent(n: int64, percent: int64): (r: int64)
    requires 0 <= n && 1 <= percent <= 100
    ensures 0 <= r <= n
    ensures n as int <= MAX_INT64 / 100 ==> r as int == PercentOf(n as int, percent as int)
    ensures 0 <= PercentOf(n as int, percent as int) - r as int < percent as int
  {
    DivideFirst(n as int, percent as int);
    if n > (MAX_INT64 / 100) as int64 then n / 100 * percent
    else n * percent / 100
  }

  const OVERFLOW_GUARD: int64 := (MAX_INT64 / 100) as int64

  /** On either side of the guard more never scales to less. */
  lemma ScaleMonotoneWithin(n: int64, m: int64, percent: int64)
    requires 0 <= n <= m && 1 <= percent <= 100 && (m <= OVERFLOW_GUARD || n > OVERFLOW_GUARD)
    ensures ScalePercent(n, percent) <= ScalePercent(m, percent)
  {
    MulMonotone(n as int, m as int, percent as int);
    MulMonotone(n as int / 100, m as int / 100, percent as int);
  }

  /** The first value past the guard scales to less than the last one before it. */
  lemma ScaleDips(percent: int64)
    requires 2 <= percent <= 100
    ensures ScalePercent(OVERFLOW_GUARD + 1, percent) < ScalePercent(OVERFLOW_GUARD, percent)
  {
    var p, q := percent as int, 922337203685477;
    assert OVERFLOW_GUARD as int == 100 * q + 58 && (OVERFLOW_GUARD + 1) as int / 100 == q;
    assert (100 * q + 58) * p / 100 > q * p by {
      assert (100 * q + 58) * p == 100 * (q * p) + 58 * p && 58 * p >= 100;
    }
    assert ScalePercent(OVERFLOW_GUARD + 1, percent) as int == q * p;
    assert ScalePercent(OVERFLOW_GUARD, percent) as int == (100 * q + 58) * p / 100;
  }

  /** Across the guard the order is kept for every pair exactly at one percent. */
  lemma ScaleMonotoneIff(percent: int64)
    requires 1 <= percent <= 100
    ensures (forall n: int64, m: int64 :: 0 <= n <= m ==> ScalePercent(n, percent) <= ScalePercent(m, percent))
            <==> percent == 1
  {
    if percent >= 2 {
      ScaleDips(percent);
    }
  }

  // ----- The ceiling

  /** strconv.ParseInt(raw, 10, 64): an optional sign and digits, in range. */
  function ParseSigned(raw: string): (r: Option<int>) {
    var signed := raw != "" && (raw[0] == '-' || raw[0] == '+');
    var digits := if signed then raw[1..] else raw;
    if digits == "" || !AllDigits(digits) then None
    else
      var n := if signed && raw[0] == '-' then -(Decimal(digits) as int) else Decimal(digits);
      if -MAX_INT64 - 1 <= n <= MAX_INT64 then Some(n) else None
  }

  /** The words ParseInt takes for n: digits, with a sign or without. */
  ghost predicate SignedDecimal(raw: string, digits: string, n: int) {
    && digits != "" && AllDigits(digits) && -MAX_INT64 - 1 <= n <= MAX_INT64
    && ((n == Decimal(digits) && (raw == digits || raw == "+" + digits)) || (n == -(Decimal(digits) as int) && raw == "-" + digits))
  }

  lemma ParseSignedIff(raw: string, n: int)
    ensures ParseSigned(raw) == Some(n) <==> exists digits :: SignedDecimal(raw, digits, n)
  {
    if ParseSigned(raw) == Some(n) {
      var signed := raw[0] == '-' || raw[0] == '+';
      var digits := if signed then raw[1..] else raw;
      assert signed ==> raw == [raw[0]] + digits;
      assert SignedDecimal(raw, digits, n);
    }
    forall digits | SignedDecimal(raw, digits, n) ensures ParseSigned(raw) == Some(n) {
      if raw == digits {
        assert IsDigit(raw[0]);
      } else {
        assert raw[1..] == digits;
      }
    }
  }

  /** One memory.max file, absent where unreadable. */
  function CeilingIn(content: Option<string>): (r: Option<int64>)
    ensures r.Some? <==> content.Some? && ParseSigned(TrimSpace(content.value)).Some? &&
                         ParseSigned(TrimSpace(content.value)).value > 0
    ensures r.Some? ==> r.value as int == ParseSigned(TrimSpace(content.value)).value
  {
    if content.None? then None
    else
      var raw := TrimSpace(content.value);
      if raw == "" || raw == "max" then None
      else
        var n := ParseSigned(raw);
        if n.None? || n.value <= 0 then None else Some(n.value as int64)
  }

  /** A ceiling as the kernel prints it, in decimal with a newline, is read back unchanged. */
  lemma CeilingRoundTrip(n: int)
    requires 0 < n <= MAX_INT64
    ensures CeilingIn(Some(FormatInt(n) + "\n")) == Some(n as int64)
  {
    var s := FormatInt(n);
    DecimalOfFormat(n);
    assert IsDigit(s[0]) && IsDigit(s[|s| - 1]);
    assert TrimLeft(s + "\n") == s + "\n";
    assert (s + "\n")[..|s|] == s;
    assert TrimRight(s) == s && TrimSpace(s + "\n") == s;
    assert ParseSigned(s) == Some(n);
  }

  function ReadFile(files: map<string, string>, path: string): (r: Option<string>) {
    if path in files then Some(files[path]) else None
  }

  /** The positive number a file states, if it can be read and states one. */
  ghost function StatedBy(files: map<string, string>, path: string): (r: Option<int>) {
    if path !in files then None
    else
      var n := ParseSigned(TrimSpace(files[path]));
      if n.Some? && n.value > 0 then n else None
  }

  ghost predicate States(files: map<string, string>, paths: seq<string>, i: nat)
    requires i < |paths|
  {
    StatedBy(files, paths[i]).Some?
  }

  /** The i-th file states a ceiling and no more specific one before it does. */
  ghost predicate FirstStates(files: map<string, string>, paths: seq<string>, i: nat) {
    i < |paths| && States(files, paths, i) && forall j :: 0 <= j < i ==> !States(files, paths, j)
  }

  /** The path is that of the first file to state one. */
  ghost predicate FirstAt(files: map<string, string>, paths: seq<string>, path: string) {
    exists i: nat :: FirstStates(files, paths, i) && paths[i] == path
  }

  /** The first of the files that states a ceiling, and where. */
  function FirstCeiling(files: map<string, string>, paths: seq<string>): (r: Option<(int64, string)>)
    ensures r.Some? <==> exists i :: 0 <= i < |paths| && States(files, paths, i)
    ensures r.Some? ==> r.value.0 > 0 && FirstAt(files, paths, r.value.1) && StatedBy(files, r.value.1) == Some(r.value.0 as int)
  {
    if paths == [] then None
    else
      var n := CeilingIn(ReadFile(files, paths[0]));
      if n.Some? then
        assert FirstStates(files, paths, 0);
        Some((n.value, paths[0]))
      else
        FirstLater(files, paths);
        FirstCeiling(files, paths[1..])
  }

  /** Where the first file states nothing, the rest decide. */
  lemma FirstLater(files: map<string, string>, paths: seq<string>)
    requires paths != [] && !States(files, paths, 0)
    ensures forall i :: 0 <= i < |paths| - 1 ==> States(files, paths[1..], i) == States(files, paths, i + 1)
    ensures forall path :: FirstAt(files, paths[1..], path) ==> FirstAt(files, paths, path)
    ensures (exists i :: 0 <= i < |paths| && States(files, paths, i)) <==>
            (exists i :: 0 <= i < |paths| - 1 && States(files, paths[1..], i))
  {
    forall path | FirstAt(files, paths[1..], path) ensures FirstAt(files, paths, path) {
      var i: nat :| FirstStates(files, paths[1..], i) && paths[1..][i] == path;
      assert paths[i + 1] == path && States(files, paths, i + 1);
      forall j | 0 <= j < i + 1 ensures !States(files, paths, j) {
        if j > 0 {
          assert !States(files, paths[1..], j - 1);
        }
      }
      assert FirstStates(files, paths, i + 1);
    }
    if i :| 0 <= i < |paths| && States(files, paths, i) {
      assert States(files, paths[1..], i - 1);
    }
  }

  method ReadCgroupMemoryMax(mountRoot: string, self: Option<string>, files: map<string, string>)
    returns (r: Option<(int64, string)>)
    ensures r == FirstCeiling(files, Candidates(mountRoot, self))
  {
    var candidates := CgroupMemoryMaxCandidates(mountRoot, self);
    for i := 0 to |candidates|
      invariant FirstCeiling(files, candidates) == FirstCeiling(files, candidates[i..])
    {
      assert candidates[i..][1..] == candidates[i + 1..];
      var n := CeilingIn(ReadFile(files, candidates[i]));
      if n.Some? {
        return Some((n.value, candidates[i]));
      }
    }
    r := None;
  }

  /** What surrounds the launcher: GOMEMLIMIT as the environment has it ("" if unset) and the cgroup files. */
  datatype Host = Host(goMemLimit: string, mountRoot: string, self: Option<string>, files: map<string, string>)

  /** What a lookup answers: a ceiling and its source, or why there is none. */
  datatype Ceiling = Found(bytes: int, source: Source) | Missing(kind: Kind)

  /** An explicit GOMEMLIMIT decides, "off" included; the cgroup is asked only where it is unset. */
  ghost function CeilingFor(host: Host): (r: Ceiling)
    ensures r.Found? ==> 0 <= r.bytes <= MAX_INT64 && r.source != NoSource
    ensures r.Missing? ==> r.kind.NoCeiling? || r.kind.Invalid?
  {
    var raw := TrimSpace(host.goMemLimit);
    if raw == "off" then Missing(NoCeiling)
    else if raw != "" then
      if GoByteCount(raw).Some? then Found(GoByteCount(raw).value, FromGoMemLimit) else Missing(Invalid)
    else
      var found := FirstCeiling(host.files, Candidates(host.mountRoot, host.self));
      if found.Some? then Found(found.value.0 as int, FromCgroup(found.value.1)) else Missing(NoCeiling)
  }

  method TreeMemoryCeiling(host: Host) returns (n: int64, source: Source, kind: Kind)
    ensures n >= 0
    ensures (if kind.Applied? then Found(n as int, source) else Missing(kind)) == CeilingFor(host)
    ensures var raw := TrimSpace(host.goMemLimit);
            && (raw == "off" ==> kind.NoCeiling?)
            && (raw != "" && raw != "off" ==>
                  if GoByteCount(raw).Some? then kind.Applied? && source == FromGoMemLimit && n as int == GoByteCount(raw).value
                  else kind.Invalid?)
            && (raw == "" ==> (kind.Applied? && source.FromCgroup?) || kind.NoCeiling?)
            && (raw == "" && kind.Applied? ==>
                  StatedBy(host.files, source.path) == Some(n as int) && source.path in Candidates(host.mountRoot, host.self))
  {
    var raw := TrimSpace(host.goMemLimit);
    if raw == "off" {
      return 0, NoSource, NoCeiling;
    }
    if raw != "" {
      var parsed := ParseGoByteCount(raw);
      if parsed.None? {
        return 0, NoSource, Invalid;
      }
      return parsed.value, FromGoMemLimit, Applied;
    }
    var found := ReadCgroupMemoryMax(host.mountRoot, host.self, host.files);
    if found.None? {
      return 0, NoSource, NoCeiling;
    }
    return found.value.0, FromCgroup(found.value.1), Applied;
  }

  // ----- The division

  function Notes(all: seq<Option<Note>>): (r: seq<Note>) {
    if all == [] then [] else (if all[0].Some? then [all[0].value] else []) + Notes(all[1..])
  }

  lemma {:induction false} NotesAre(all: seq<Option<Note>>, note: Note)
    ensures note in Notes(all) <==> Some(note) in all
    ensures |Notes(all)| <= |all|
  {
    if all == [] {
    } else {
      NotesAre(all[1..], note);
      assert all == [all[0]] + all[1..];
    }
  }

  /** Every complaint about the configuration, in the order the keys are resolved. */
  ghost function ConfigNotes(cfg: Config): (r: seq<Note>) {
    Notes([ResolvePercent(cfg.percent).1,
           ReservationNote("memory_reserve_launcher", cfg.reserveLauncher),
           ReservationNote("memory_reserve_signer", cfg.reserveSigner)])
  }

  ghost function LauncherShare(cfg: Config): (n: int) {
    if Reservation(cfg.reserveLauncher).Some? then Reservation(cfg.reserveLauncher).value else DEFAULT_LAUNCHER as int
  }

  ghost function SignerShare(cfg: Config): (n: int) {
    if Reservation(cfg.reserveSigner).Some? then Reservation(cfg.reserveSigner).value else DEFAULT_SIGNER as int
  }

  /** A division that conserves the total: what the three processes get, on unbounded integers. */
  ghost predicate Divided(cfg: Config, b: Budget) {
    && b.launcher as int == LauncherShare(cfg) && b.signer as int == SignerShare(cfg)
    && b.launcher as int + b.signer as int + b.frontend as int == b.total as int
    && 0 < b.total <= b.ceiling
    && b.frontend >= MIN_FRONTEND && b.launcher >= MIN_PROCESS && b.signer >= MIN_PROCESS
    && b.source != NoSource && (b.source == FromGoMemLimit ==> b.total == b.ceiling)
  }

  /** No budget: every share is zero. */
  const NOTHING := Budget(0, 0, 0, 0, 0, NoSource, [])

  /** The percentage in force: the configured one where it can be used, otherwise ninety. */
  ghost function Percent(cfg: Config): (p: int) { if 1 <= cfg.percent <= 100 then cfg.percent else 90 }

  /** The total keeps back what the percentage says: nothing of a stated ceiling, and of a cgroup's exactly the rest. */
  ghost predicate Withholds(cfg: Config, c: Ceiling, total: int)
    requires c.Found?
  {
    if c.source == FromGoMemLimit then total == c.bytes
    else
      && 0 <= PercentOf(c.bytes, Percent(cfg)) - total < Percent(cfg)
      && (c.bytes <= MAX_INT64 / 100 ==> total == PercentOf(c.bytes, Percent(cfg)))
  }

  /** A remainder for the frontend of at least 24 MiB, were this the total. */
  ghost predicate LeavesRoom(cfg: Config, total: int) {
    total - LauncherShare(cfg) - SignerShare(cfg) >= 0x180_0000
  }

  /** The total a ceiling allows: all of a stated one, the configured percentage of a derived one. */
  function TotalOf(ceiling: int64, source: Source, percent: int64): (n: int64)
    requires 0 <= ceiling && 1 <= percent <= 100
    ensures 0 <= n <= ceiling
  {
    if source != FromGoMemLimit then ScalePercent(ceiling, percent) else ceiling
  }

  ghost function Total(cfg: Config, c: Ceiling): (n: int)
    requires c.Found? && 0 <= c.bytes <= MAX_INT64
  {
    TotalOf(c.bytes as int64, c.source, ResolvePercent(cfg.percent).0) as int
  }

  /** Whether a budget is divided, decided on unbounded integers. */
  ghost function KindFor(cfg: Config, host: Host): (k: Kind) {
    var c := CeilingFor(host);
    if c.Missing? then c.kind
    else if Total(cfg, c) - LauncherShare(cfg) - SignerShare(cfg) >= MIN_FRONTEND as int then Applied
    else TooSmall
  }

  /**
   When a budget is divided, on the numbers alone: exactly when the percentage of
   the ceiling, or all of a stated one, leaves the frontend its 24 MiB. Past the
   overflow guard, where scaling may lose a few bytes, whenever those are to spare.
   */
  ghost predicate DecidedOn(cfg: Config, c: Ceiling, kind: Kind) {
    if c.Missing? then kind == c.kind
    else if c.source == FromGoMemLimit then kind == if LeavesRoom(cfg, c.bytes) then Applied else TooSmall
    else
      var share := PercentOf(c.bytes, Percent(cfg));
      && (kind.Applied? || kind.TooSmall?) && (kind.Applied? ==> LeavesRoom(cfg, share))
      && (LeavesRoom(cfg, share - Percent(cfg)) ==> kind.Applied?)
      && (c.bytes <= MAX_INT64 / 100 && LeavesRoom(cfg, share) ==> kind.Applied?)
  }

  lemma TotalWithholds(cfg: Config, c: Ceiling)
    requires c.Found? && 0 <= c.bytes <= MAX_INT64
    ensures Withholds(cfg, c, Total(cfg, c))
  {
  }

  lemma KindIsDecided(cfg: Config, host: Host)
    ensures DecidedOn(cfg, CeilingFor(host), KindFor(cfg, host))
    ensures CeilingFor(host).Found? ==> Withholds(cfg, CeilingFor(host), Total(cfg, CeilingFor(host)))
  {
    if CeilingFor(host).Found? {
      TotalWithholds(cfg, CeilingFor(host));
    }
  }

  /**
   A division happens exactly when a ceiling was found and, counted without
   overflow, the frontend's remainder reaches its floor. The complaints about the
   configuration are all there on every outcome.
   */
  method ResolveMemoryBudget(cfg: Config, host: Host) returns (b: Budget, kind: Kind)
    ensures b.notes == ConfigNotes(cfg) && kind == KindFor(cfg, host)
    ensures kind.Applied? ==> Divided(cfg, b) && CeilingFor(host) == Found(b.ceiling as int, b.source) &&
                              b.total as int == Total(cfg, CeilingFor(host))
    ensures !kind.Applied? ==> b == NOTHING.(notes := b.notes)
    ensures kind.Applied? ==> Withholds(cfg, CeilingFor(host), b.total as int) && LeavesRoom(cfg, b.total as int)
    ensures DecidedOn(cfg, CeilingFor(host), kind)
  {
    KindIsDecided(cfg, host);
    var (percent, percentNote) := ResolvePercent(cfg.percent);
    var launcher, launcherNote := ByteCountOrDefault("memory_reserve_launcher", cfg.reserveLauncher, DEFAULT_LAUNCHER);
    var signer, signerNote := ByteCountOrDefault("memory_reserve_signer", cfg.reserveSigner, DEFAULT_SIGNER);
    var notes := CollectNotes([percentNote, launcherNote, signerNote]);

    var ceiling, source, found := TreeMemoryCeiling(host);
    if !found.Applied? {
      return NOTHING.(notes := notes), found;
    }
    var total := TotalOf(ceiling, source, percent);
    // Ordered so that neither subtraction can leave the range.
    var frontend: int64 := 0;
    if launcher < total && signer < total - launcher {
      frontend := total - launcher - signer;
    }
    if frontend < MIN_FRONTEND {
      return NOTHING.(notes := notes), TooSmall;
    }
    b := Budget(total, launcher, signer, frontend, ceiling, source, notes);
    kind := Applied;
  }

  method CollectNotes(all: seq<Option<Note>>) returns (notes: seq<Note>)
    ensures notes == Notes(all)
  {
    notes := [];
    for i := 0 to |all|
      invariant notes + Notes(all[i..]) == Notes(all)
    {
      assert all[i..][1..] == all[i + 1..];
      if all[i].Some? {
        notes := notes + [all[i].value];
      }
    }
  }

  /** Which complaints are reported, on the configured values: each one that applies, and no other. */
  lemma ConfigNotesAre(cfg: Config, note: Note)
    ensures note in ConfigNotes(cfg) <==>
            || (note == PercentOutOfRange(cfg.percent) && !(0 <= cfg.percent <= 100))
            || Complains("memory_reserve_launcher", cfg.reserveLauncher, note)
            || Complains("memory_reserve_signer", cfg.reserveSigner, note)
  {
    NoEmptyCount();
    NotesAre([ResolvePercent(cfg.percent).1,
              ReservationNote("memory_reserve_launcher", cfg.reserveLauncher),
              ReservationNote("memory_reserve_signer", cfg.reserveSigner)], note);
  }

  /** The note is what there is to say about a reservation that cannot be used. */
  ghost predicate Complains(key: string, raw: string, note: Note) {
    var text := TrimSpace(raw);
    var count := ConfiguredByteCount(text);
    || (note == NotAByteCount(key, text) && text != "" && count.None?)
    || (count.Some? && count.value < 0x80_0000 && note == BelowMinimum(key, count.value))
  }

  /** What an empty configuration reserves and divides: 8 MiB, 24 MiB and nine tenths. */
  lemma DefaultConfig()
    ensures var cfg := Config(0, "", "");
            LauncherShare(cfg) == 0x80_0000 && SignerShare(cfg) == 0x180_0000 && Percent(cfg) == 90 && ConfigNotes(cfg) == []
  {
    NoEmptyCount();
    assert TrimSpace("") == "";
  }

  // ----- From the ceiling to the limits in force

  /** The limit a process started with this environment applies; None where it reads none. */
  ghost function EffectiveLimit(env: seq<string>): (r: Option<int>) {
    var raw := Lookup(env, GOMEMLIMIT);
    if raw.None? then None else GoByteCount(raw.value)
  }

  /** GOMEMLIMIT is none of the variables the launcher keeps from a child, unless it was configured as the passphrase's. */
  lemma LimitIsOrdinary(passphraseVar: string)
    ensures GOMEMLIMIT != DAEMON && GOMEMLIMIT != ROLE && GOMEMLIMIT != PSK && GOMEMLIMIT != NOTIFY_SOCKET
    ensures FrontendMaySee(passphraseVar, GOMEMLIMIT) <==> passphraseVar != GOMEMLIMIT
  {
    assert GOMEMLIMIT[0] == 'G' && DAEMON[0] == ROLE[0] == PSK[0] == DEFAULT_PASSPHRASE[0] == 'O';
    assert NOTIFY_SOCKET[0] == 'N' && "BAO_"[0] == 'B' && "VAULT_"[0] == 'V';
  }

  lemma SignerShareIsEffective(environ: seq<string>, share: int)
    requires 0 <= share <= MAX_INT64
    ensures share > 0 ==> EffectiveLimit(SignerVars(environ, share)) == Some(share)
    ensures share == 0 ==> Lookup(SignerVars(environ, share), GOMEMLIMIT) == Lookup(environ, GOMEMLIMIT)
  {
    LimitIsOrdinary("");
    SignerSees(environ, share, GOMEMLIMIT);
    FormatRoundTrip(share);
  }

  lemma FrontendShareIsEffective(environ: seq<string>, passphraseVar: string, share: int)
    requires 0 <= share <= MAX_INT64
    ensures share > 0 ==> EffectiveLimit(FrontendVars(environ, passphraseVar, share)) == Some(share)
    ensures share == 0 && passphraseVar != GOMEMLIMIT ==>
              Lookup(FrontendVars(environ, passphraseVar, share), GOMEMLIMIT) == Lookup(environ, GOMEMLIMIT)
  {
    LimitIsOrdinary(passphraseVar);
    FrontendSees(environ, passphraseVar, share, GOMEMLIMIT);
    FormatRoundTrip(share);
  }

  lemma ShareIsEffective(environ: seq<string>, passphraseVar: string, signer: int, frontend: int)
    requires 0 <= signer <= MAX_INT64 && 0 <= frontend <= MAX_INT64
    ensures signer > 0 ==> EffectiveLimit(SignerVars(environ, signer)) == Some(signer)
    ensures frontend > 0 ==> EffectiveLimit(FrontendVars(environ, passphraseVar, frontend)) == Some(frontend)
    ensures signer == 0 ==> Lookup(SignerVars(environ, signer), GOMEMLIMIT) == Lookup(environ, GOMEMLIMIT)
    ensures frontend == 0 && passphraseVar != GOMEMLIMIT ==>
              Lookup(FrontendVars(environ, passphraseVar, frontend), GOMEMLIMIT) == Lookup(environ, GOMEMLIMIT)
  {
    SignerShareIsEffective(environ, signer);
    FrontendShareIsEffective(environ, passphraseVar, frontend);
  }

  /** The launcher's own environment is where its GOMEMLIMIT comes from, written without surrounding spaces. */
  ghost predicate Inherits(environ: seq<string>, host: Host) {
    && host.goMemLimit == (if Lookup(environ, GOMEMLIMIT).Some? then Lookup(environ, GOMEMLIMIT).value else "")
    && TrimSpace(host.goMemLimit) == host.goMemLimit
  }

  lemma EmptyIsNoLimit()
    ensures GoByteCount("").None?
  {
  }

  /** A child that inherits GOMEMLIMIT where a ceiling was found applies all of a stated one, and none of a cgroup's. */
  lemma UndividedLimit(environ: seq<string>, host: Host, child: seq<string>)
    requires Inherits(environ, host) && CeilingFor(host).Found?
    requires Lookup(child, GOMEMLIMIT) == Lookup(environ, GOMEMLIMIT)
    ensures var c := CeilingFor(host);
            EffectiveLimit(child) == if c.source == FromGoMemLimit then Some(c.bytes) else None
  {
    EmptyIsNoLimit();
  }

  /**
   End to end: the launcher divides, limits itself and builds both environments.
   Whenever a budget is applied, the limits the three processes have in force add
   up to the total, which does not exceed the ceiling. Otherwise nothing is
   overridden: the launcher sets no limit and each child inherits GOMEMLIMIT as
   the operator left it. So where a stated GOMEMLIMIT is too small to divide, each
   child applies the whole of it, and where a cgroup's ceiling is, neither has one.
   */
  method LaunchTree(cfg: Config, host: Host, environ: Slice, passphraseVar: string)
    returns (b: Budget, kind: Kind, own: Option<int64>, signer: Slice, frontend: Slice)
    requires Valid(environ)
    ensures Valid(signer) && Valid(frontend) && b.notes == ConfigNotes(cfg) && kind == KindFor(cfg, host)
    ensures kind.Applied? ==>
              var s, f := EffectiveLimit(Contents(signer)), EffectiveLimit(Contents(frontend));
              && own.Some? && s.Some? && f.Some?
              && own.value as int + s.value + f.value == b.total as int <= b.ceiling as int
              && own.value >= MIN_PROCESS && s.value >= MIN_PROCESS as int && f.value >= MIN_FRONTEND as int
              && own.value as int == LauncherShare(cfg) && s.value == SignerShare(cfg)
              && own.value >= 0x80_0000 && s.value >= 0x80_0000 && f.value >= 0x180_0000
              && Withholds(cfg, CeilingFor(host), own.value as int + s.value + f.value)
    ensures !kind.Applied? ==>
              && own.None? && b == NOTHING.(notes := b.notes)
              && Lookup(Contents(signer), GOMEMLIMIT) == Lookup(Contents(environ), GOMEMLIMIT)
              && (passphraseVar != GOMEMLIMIT ==>
                    Lookup(Contents(frontend), GOMEMLIMIT) == Lookup(Contents(environ), GOMEMLIMIT))
    ensures kind.TooSmall? && Inherits(Contents(environ), host) && passphraseVar != GOMEMLIMIT ==>
              var c := CeilingFor(host);
              var whole := if c.source == FromGoMemLimit then Some(c.bytes) else None;
              EffectiveLimit(Contents(signer)) == whole && EffectiveLimit(Contents(frontend)) == whole
  {
    b, kind := ResolveMemoryBudget(cfg, host);
    own := if kind.Applied? then Some(b.ShareFor("launcher")) else None;
    signer, frontend := BuildEnvironments(environ, passphraseVar,
                                          b.ShareFor("signer") as int, b.ShareFor("frontend") as int);
    ShareIsEffective(Contents(environ), passphraseVar, b.signer as int, b.frontend as int);
    if kind.TooSmall? && Inherits(Contents(environ), host) && passphraseVar != GOMEMLIMIT {
      UndividedLimit(Contents(environ), host, Contents(signer));
      UndividedLimit(Contents(environ), host, Contents(frontend));
    }
  }
}
