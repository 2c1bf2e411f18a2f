/**
 The offline repair of the inventory integrity value
 (cmd/openvox-ca/rebuildinventoryhmac.go over internal/storage/storage.go): report,
 gate, lock, write, re-read, and compare what was written with what was shown,
 against an environment that may change the store before any single backend
 operation.

 The MAC is symbolic: a head is the term it was computed as, so two heads are
 equal only if key and content are.
 */
module RebuildInventory {
  import opened Options

  type Key = int

  /** The HMAC key blob as found. */
  datatype StoredKey = Absent | WrongLength | Usable(key: Key)

  datatype LineKind = EntryLine | UnparseableLine | BlankLine

  datatype Line = Line(text: string, kind: LineKind)

  /**
   What the backend holds: rows in a structured store, together with the entries
   of a legacy blob that may not have been decomposed yet, or one blob of lines.
   */
  datatype Inventory = Chained(rows: seq<string>, legacy: nat) | WholeBlob(lines: seq<Line>)

  datatype Head = EmptyHead | ChainHead(key: Key, prev: Head, line: string) | BlobHead(key: Key, lines: seq<Line>)

  datatype Store = Store(inventory: Inventory, key: StoredKey, head: Option<Head>)

  // ----- The integrity value

  function ChainOver(key: Key, rows: seq<string>): (h: Head) {
    if rows == [] then EmptyHead else ChainHead(key, ChainOver(key, rows[..|rows| - 1]), rows[|rows| - 1])
  }

  function Fold(key: Key, inventory: Inventory): (h: Head) {
    if inventory.Chained? then ChainOver(key, inventory.rows) else BlobHead(key, inventory.lines)
  }

  /** The fold as the loop computes it, entry by entry from an empty head. */
  method FoldChain(key: Key, rows: seq<string>) returns (head: Head)
    ensures head == ChainOver(key, rows)
  {
    head := EmptyHead;
    for i := 0 to |rows|
      invariant head == ChainOver(key, rows[..i])
    {
      assert rows[..i + 1][..i] == rows[..i];
      head := ChainHead(key, head, rows[i]);
    }
    assert rows[..|rows|] == rows;
  }

  /** What a head covers: a legacy blob beside decomposed rows is not part of it. */
  ghost predicate SameContent(a: Inventory, b: Inventory) {
    if a.Chained? then b.Chained? && a.rows == b.rows else a == b
  }

  lemma {:induction false} ChainInjective(k: Key, a: seq<string>, l: Key, b: seq<string>)
    requires ChainOver(k, a) == ChainOver(l, b)
    ensures a == b && (a != [] ==> k == l)
  {
    if a == [] {
    } else {
      assert b != [];
      ChainInjective(k, a[..|a| - 1], l, b[..|b| - 1]);
      assert a == a[..|a| - 1] + [a[|a| - 1]] && b == b[..|b| - 1] + [b[|b| - 1]];
    }
  }

  lemma FoldInjective(k: Key, a: Inventory, l: Key, b: Inventory)
    ensures Fold(k, a) == Fold(l, b) ==> SameContent(a, b)
    ensures SameContent(a, b) && k == l ==> Fold(k, a) == Fold(l, b)
  {
    if Fold(k, a) == Fold(l, b) && a.Chained? && b.Chained? {
      ChainInjective(k, a.rows, l, b.rows);
    }
  }

  // ----- The report

  /** One report's reads, each of them a separate backend operation. */
  datatype Reads = Reads(inventory: Inventory, legacy: nat, key: StoredKey, head: Option<Head>)

  function CountKind(lines: seq<Line>, kind: LineKind): (n: nat) {
    if lines == [] then 0
    else CountKind(lines[..|lines| - 1], kind) + (if lines[|lines| - 1].kind == kind then 1 else 0)
  }

  function Entries(i: Inventory): (n: nat) { if i.Chained? then |i.rows| else CountKind(i.lines, EntryLine) }

  function Unparseable(i: Inventory): (n: nat) { if i.Chained? then 0 else CountKind(i.lines, UnparseableLine) }

  /** Where the lines of a kind are. */
  function PlacesOf(lines: seq<Line>, kind: LineKind): (r: set<nat>) {
    set i: nat | i < |lines| && lines[i].kind == kind
  }

  lemma {:induction false} CountIsCardinality(lines: seq<Line>, kind: LineKind)
    ensures CountKind(lines, kind) == |PlacesOf(lines, kind)|
  {
    if lines == [] {
      assert PlacesOf(lines, kind) == {};
    } else {
      var n := |lines| - 1;
      CountIsCardinality(lines[..n], kind);
      assert PlacesOf(lines, kind) == PlacesOf(lines[..n], kind) + (if lines[n].kind == kind then {n} else {});
    }
  }

  /** What a report counts: rows of a structured store, and lines of a blob by what they are. */
  lemma CountsAre(i: Inventory)
    ensures i.Chained? ==> Entries(i) == |i.rows| && Unparseable(i) == 0
    ensures i.WholeBlob? ==> Entries(i) == |PlacesOf(i.lines, EntryLine)|
    ensures i.WholeBlob? ==> Unparseable(i) == |PlacesOf(i.lines, UnparseableLine)|
  {
    if i.WholeBlob? {
      CountIsCardinality(i.lines, EntryLine);
      CountIsCardinality(i.lines, UnparseableLine);
    }
  }

  ghost predicate SameCounts(a: Inventory, b: Inventory) {
    Entries(a) == Entries(b) && Unparseable(a) == Unparseable(b)
  }

  predicate LegacyUndecomposed(r: Reads) { r.inventory.Chained? && r.inventory.rows == [] && r.legacy > 0 }

  predicate Verifies(r: Reads) { r.key.Usable? && r.head == Some(Fold(r.key.key, r.inventory)) }

  // ----- The decision

  datatype Flags = Flags(confirm: bool, replicasStopped: bool)

  /** The store-wide lock a backend offers. */
  datatype Locker = NoLocker | Unavailable | HeldElsewhere | Free

  /** `probe` is the capability answer, None where it could not be determined; `reprobe` is a second asking. */
  datatype Backend = Backend(probe: Option<bool>, reprobe: Option<bool>, locker: Locker)

  datatype LockResult = Refused | Held(enforced: bool)

  function AcquireInstanceLock(b: Backend): (r: LockResult) {
    var distributed := if b.probe.Some? then b.probe else b.reprobe;
    if distributed != Some(false) then Held(false)
    else match b.locker
      case HeldElsewhere => Refused
      case Free => Held(true)
      case _ => Held(false)
  }

  datatype Exit = ReportFailed | LegacyStore | NoKeyButValue | NoKey | NothingToDo | NoBaseline | Unconfirmed
                | ReplicasRunning | StoreLocked | LockNotEnforced | RebuildFailed | RereadFailed
                | StillMismatched | InventoryChanged | Rebuilt

  /** The gates between the report and the write; None lets the write happen. */
  function Gate(flags: Flags, backend: Backend, rep: Reads): (r: Option<Exit>) {
    if LegacyUndecomposed(rep) then Some(LegacyStore)
    else if rep.key.Absent? then Some(if rep.head.Some? then NoKeyButValue else NoKey)
    else if Verifies(rep) then Some(NothingToDo)
    else if rep.head.None? then Some(NoBaseline)
    else if !flags.confirm then Some(Unconfirmed)
    else if backend.probe != Some(false) && !flags.replicasStopped then Some(ReplicasRunning)
    else match AcquireInstanceLock(backend)
      case Refused => Some(StoreLocked)
      case Held(enforced) => if !enforced && !flags.replicasStopped then Some(LockNotEnforced) else None
  }

  /** The binding of the written value to the reported state. */
  predicate Changed(rep: Reads, after: Reads) {
    if rep.key.Usable? then after.head != Some(Fold(rep.key.key, rep.inventory))
    else Entries(after.inventory) != Entries(rep.inventory) || Unparseable(after.inventory) != Unparseable(rep.inventory)
  }

  /** What one run observed: its first report, whether the rebuild call succeeded, and its second report. */
  datatype Observed = Observed(first: Option<Reads>, rebuilt: bool, second: Option<Reads>)

  function Verdict(flags: Flags, backend: Backend, o: Observed): (r: Exit) {
    if o.first.None? then ReportFailed
    else
      var gate := Gate(flags, backend, o.first.value);
      if gate.Some? then gate.value
      else if !o.rebuilt then RebuildFailed
      else if o.second.None? then RereadFailed
      else if !Verifies(o.second.value) then StillMismatched
      else if Changed(o.first.value, o.second.value) then InventoryChanged
      else Rebuilt
  }

  /** The backend is known, at the first or the second asking, not to coordinate locks across hosts. */
  ghost predicate NonDistributed(b: Backend) {
    b.probe == Some(false) || (b.probe.None? && b.reprobe == Some(false))
  }

  /** A report that calls for a rebuild: a key and a value that does not cover the inventory, in no legacy store. */
  ghost predicate Mismatching(rep: Reads) {
    && !(rep.inventory.Chained? && rep.inventory.rows == [] && rep.legacy > 0)
    && !rep.key.Absent? && rep.head.Some?
    && (rep.key.Usable? ==> rep.head.value != Fold(rep.key.key, rep.inventory))
  }

  /**
   The only situation in which the command may write: the report calls for it, it
   was confirmed, no running server holds the store, and the store is asserted to
   be quiet or its lock is really enforced.
   */
  ghost predicate MayWrite(flags: Flags, backend: Backend, rep: Reads) {
    && Mismatching(rep) && flags.confirm
    && !(NonDistributed(backend) && backend.locker == HeldElsewhere)
    && (flags.replicasStopped || (backend.probe == Some(false) && backend.locker == Free))
  }

  /** The lock refuses exactly where another holds it, and is enforced exactly where it was free to take. */
  lemma LockSays(b: Backend)
    ensures AcquireInstanceLock(b) == Refused <==> NonDistributed(b) && b.locker == HeldElsewhere
    ensures AcquireInstanceLock(b) == Held(true) <==> NonDistributed(b) && b.locker == Free
  {
  }

  /** The gates let exactly these through. */
  lemma GateOpenIff(flags: Flags, backend: Backend, rep: Reads)
    ensures Gate(flags, backend, rep).None? <==> MayWrite(flags, backend, rep)
  {
  }

  /** Which report, flags and backend each refusal stands for. */
  lemma GateSays(flags: Flags, backend: Backend, rep: Reads)
    ensures var gate := Gate(flags, backend, rep);
            var legacy := rep.inventory.Chained? && rep.inventory.rows == [] && rep.legacy > 0;
            && (gate == Some(LegacyStore) <==> legacy)
            && (gate == Some(NoKeyButValue) <==> !legacy && rep.key.Absent? && rep.head.Some?)
            && (gate == Some(NoKey) <==> !legacy && rep.key.Absent? && rep.head.None?)
            && (gate == Some(NothingToDo) <==>
                  !legacy && rep.key.Usable? && rep.head == Some(Fold(rep.key.key, rep.inventory)))
            && (gate == Some(NoBaseline) <==> !legacy && !rep.key.Absent? && rep.head.None?)
            && (gate == Some(Unconfirmed) <==> Mismatching(rep) && !flags.confirm)
            && (gate == Some(ReplicasRunning) <==>
                  Mismatching(rep) && flags.confirm && !flags.replicasStopped && backend.probe != Some(false))
            && (gate == Some(StoreLocked) <==>
                  && Mismatching(rep) && flags.confirm && NonDistributed(backend) && backend.locker == HeldElsewhere
                  && (flags.replicasStopped || backend.probe == Some(false)))
            && (gate == Some(LockNotEnforced) <==>
                  && Mismatching(rep) && flags.confirm && !flags.replicasStopped && backend.probe == Some(false)
                  && (backend.locker == NoLocker || backend.locker == Unavailable))
  {
  }

  // ----- Quiet stores

  function QuietReads(s: Store): (r: Reads) {
    Reads(s.inventory, if s.inventory.Chained? && s.inventory.rows == [] then s.inventory.legacy else 0, s.key, s.head)
  }

  function KeyFor(k: StoredKey, minted: Key): (r: Key) { if k.Usable? then k.key else minted }

  function Repaired(s: Store, minted: Key): (r: Store) {
    var key := KeyFor(s.key, minted);
    Store(s.inventory, Usable(key), Some(Fold(key, s.inventory)))
  }

  /** The state a failure between the two writes leaves. */
  function HalfRepaired(s: Store, minted: Key): (r: Store) { s.(key := Usable(KeyFor(s.key, minted))) }

  datatype Progress = Untouched | KeyWritten | HeadWritten

  /** What a run that got this far leaves of a store no one else writes to. */
  function Left(s: Store, minted: Key, wrote: Progress): (r: Store) {
    match wrote
    case Untouched => s
    case KeyWritten => HalfRepaired(s, minted)
    case HeadWritten => Repaired(s, minted)
  }

  function QuietRun(flags: Flags, backend: Backend, s: Store, minted: Key): (r: (Exit, Store)) {
    var gate := Gate(flags, backend, QuietReads(s));
    if gate.Some? then (gate.value, s) else (Rebuilt, Repaired(s, minted))
  }

  /**
   A failure between the two writes is repaired by a confirmed re-run: it ends in
   a verifying store over the same inventory, and a run after that changes
   nothing, whatever its flags.
   */
  lemma RerunCompletes(flags: Flags, again: Flags, backend: Backend, s: Store, first: Key, second: Key, third: Key)
    requires Gate(flags, backend, QuietReads(s)).None?
    ensures var crashed := HalfRepaired(s, first);
            var (exit, repaired) := QuietRun(flags, backend, crashed, second);
            && exit in {Rebuilt, NothingToDo}
            && Verifies(QuietReads(repaired)) && repaired.inventory == s.inventory
            && QuietRun(again, backend, repaired, third) == (NothingToDo, repaired)
  {
  }

  // ----- The run, as the environment lets it happen

  /** Moves the store before the i-th backend operation. */
  type Environment = (nat, Store) -> Store

  /** The store, the operations made so far, and every state met at one of them or left by a write. */
  datatype World = World(store: Store, clock: nat, history: seq<Store>)

  ghost predicate Valid(w: World) { w.history != [] && w.history[|w.history| - 1] == w.store }

  ghost function Moved(env: Environment, w: World): (r: World) {
    var s := env(w.clock, w.store);
    World(s, w.clock + 1, w.history + [s])
  }

  ghost function Written(w: World, s: Store): (r: World) { World(s, w.clock, w.history + [s]) }

  /** Where in the history each part of a report was read. */
  datatype Moments = Moments(inventory: nat, legacy: nat, key: nat, head: nat)

  const NEVER := Moments(0, 0, 0, 0)

  predicate NoRows(i: Inventory) { i.Chained? && i.rows == [] }

  function LegacyIn(i: Inventory): (n: nat) { if i.Chained? then i.legacy else 0 }

  datatype Report = Report(found: Option<Reads>, at: Moments, world: World)

  function Last(w: World): (n: int) { |w.history| - 1 }

  ghost function ReportOf(env: Environment, faults: set<nat>, w: World): (r: Report)
    requires Valid(w)
  {
    var w1 := Moved(env, w);
    var empty := NoRows(w1.store.inventory);
    var w2 := if empty then Moved(env, w1) else w1;
    var w3 := Moved(env, w2);
    var w4 := Moved(env, w3);
    if w.clock in faults then Report(None, NEVER, w1)
    else if empty && w1.clock in faults then Report(None, NEVER, w2)
    else if w2.clock in faults then Report(None, NEVER, w3)
    else if w3.clock in faults then Report(None, NEVER, w4)
    else
      Report(Some(Reads(w1.store.inventory, if empty then LegacyIn(w2.store.inventory) else 0, w3.store.key, w4.store.head)),
             Moments(Last(w1), Last(w2), Last(w3), Last(w4)), w4)
  }

  datatype KeyResult = KeyResult(key: Option<Key>, wrote: Progress, world: World)

  ghost function KeyOf(env: Environment, faults: set<nat>, w: World, minted: Key): (r: KeyResult) {
    var w1 := Moved(env, w);
    var w2 := Moved(env, w1);
    var w3 := Moved(env, w2);
    if w.clock in faults then KeyResult(None, Untouched, w1)
    else if w1.store.key.Usable? then KeyResult(Some(w1.store.key.key), Untouched, w1)
    else if w1.clock in faults then KeyResult(None, Untouched, w2)
    else if w2.store.key.Usable? then KeyResult(Some(w2.store.key.key), Untouched, w2)
    else if w2.clock in faults then KeyResult(None, Untouched, w3)
    else KeyResult(Some(minted), KeyWritten, Written(w3, w3.store.(key := Usable(minted))))
  }

  /** A rebuild call: how far it got and, where it wrote the head, under which key, from which state and when. */
  datatype Rewrite = Rewrite(ok: bool, wrote: Progress, key: Option<Key>, foldAt: nat, headAt: nat)

  /** Folding the inventory and writing the head, after `wrote` was done. */
  ghost function UpdateOf(env: Environment, faults: set<nat>, w: World, key: Key, wrote: Progress): (r: (Rewrite, World))
    requires Valid(w)
  {
    var w1 := Moved(env, w);
    var w2 := Moved(env, w1);
    if w.clock in faults then (Rewrite(false, wrote, Some(key), 0, 0), w1)
    else if w1.clock in faults then (Rewrite(false, wrote, Some(key), 0, 0), w2)
    else
      var w3 := Written(w2, w2.store.(head := Some(Fold(key, w1.store.inventory))));
      (Rewrite(true, HeadWritten, Some(key), Last(w1), Last(w3)), w3)
  }

  ghost function RebuildOf(env: Environment, faults: set<nat>, w: World, minted: Key): (r: (Rewrite, World))
    requires Valid(w)
  {
    var w1 := Moved(env, w);
    if w.clock in faults || w1.store.key.Absent? then (Rewrite(w.clock !in faults, Untouched, None, 0, 0), w1)
    else
      var k := KeyOf(env, faults, w1, minted);
      if k.key.None? then (Rewrite(false, k.wrote, None, 0, 0), k.world)
      else
        KeyKeepsHistory(env, faults, w1, minted);
        UpdateOf(env, faults, k.world, k.key.value, k.wrote)
  }

  datatype Result = Result(exit: Exit, o: Observed, shown: Moments, rewrite: Rewrite, reread: Moments, world: World)

  const NO_REWRITE := Rewrite(false, Untouched, None, 0, 0)

  ghost function RunOf(env: Environment, faults: set<nat>, w: World, flags: Flags, backend: Backend, minted: Key): (r: Result)
    requires Valid(w)
  {
    var first := ReportOf(env, faults, w);
    if first.found.None? then Result(ReportFailed, Observed(None, false, None), NEVER, NO_REWRITE, NEVER, first.world)
    else
      var gate := Gate(flags, backend, first.found.value);
      if gate.Some? then Result(gate.value, Observed(first.found, false, None), first.at, NO_REWRITE, NEVER, first.world)
      else
        ReportIsSeen(env, faults, w);
        var (rewrite, mid) := RebuildOf(env, faults, first.world, minted);
        if !rewrite.ok then Result(RebuildFailed, Observed(first.found, false, None), first.at, rewrite, NEVER, mid)
        else
          RewriteIsSeen(env, faults, first.world, minted);
          var second := ReportOf(env, faults, mid);
          var o := Observed(first.found, true, second.found);
          Result(Verdict(flags, backend, o), o, first.at, rewrite, second.at, second.world)
  }

  // ----- Every observation is of a state the store was in

  /** Each part of the report is what the store held at its moment, in this order and not before `from`. */
  ghost predicate Seen(history: seq<Store>, from: nat, r: Reads, at: Moments) {
    && from <= at.inventory <= at.legacy <= at.key <= at.head < |history|
    && r.inventory == history[at.inventory].inventory
    && r.legacy == (if NoRows(r.inventory) then LegacyIn(history[at.legacy].inventory) else 0)
    && r.key == history[at.key].key && r.head == history[at.head].head
  }

  lemma ReportIsSeen(env: Environment, faults: set<nat>, w: World)
    requires Valid(w)
    ensures var r := ReportOf(env, faults, w);
            && Valid(r.world) && w.history <= r.world.history
            && (r.found.Some? ==> Seen(r.world.history, |w.history|, r.found.value, r.at) && r.at.head == Last(r.world))
  {
  }

  lemma KeyKeepsHistory(env: Environment, faults: set<nat>, w: World, minted: Key)
    ensures var k := KeyOf(env, faults, w, minted);
            Valid(k.world) && w.history <= k.world.history && k.wrote != HeadWritten
  {
  }

  /**
   In every environment the key a call answers with is the one then in the store,
   one already there is adopted and not replaced, and only a failing operation
   keeps it from answering.
   */
  lemma KeyIsTheStored(env: Environment, faults: set<nat>, w: World, minted: Key)
    ensures var k := KeyOf(env, faults, w, minted);
            && (k.key.Some? ==> k.world.store.key == Usable(k.key.value))
            && (k.wrote == KeyWritten ==>
                  && k.key == Some(minted) && |k.world.history| == |w.history| + 4
                  && !k.world.history[|w.history|].key.Usable? && !k.world.history[|w.history| + 1].key.Usable?)
            && (k.key.None? ==> exists n :: n in faults && w.clock <= n < w.clock + 3)
  {
  }

  /** A written head covers the inventory of a state met during the call, under the call's key. */
  lemma RewriteIsSeen(env: Environment, faults: set<nat>, w: World, minted: Key)
    requires Valid(w)
    ensures var (r, w') := RebuildOf(env, faults, w, minted);
            && Valid(w') && w.history <= w'.history
            && (r.wrote == HeadWritten ==>
                  && |w.history| <= r.foldAt < r.headAt < |w'.history| && r.key.Some?
                  && w'.history[r.headAt].head == Some(Fold(r.key.value, w'.history[r.foldAt].inventory)))
            && (r.ok ==> r.wrote == HeadWritten || w'.history[|w.history|].key.Absent?)
  {
    KeyKeepsHistory(env, faults, Moved(env, w), minted);
  }

  /** A rebuild call fails only where one of its operations did. */
  lemma RebuildFailsOnFault(env: Environment, faults: set<nat>, w: World, minted: Key)
    requires Valid(w)
    ensures var (r, w') := RebuildOf(env, faults, w, minted);
            !r.ok <==> exists n :: n in faults && w.clock <= n < w'.clock
  {
    KeyIsTheStored(env, faults, Moved(env, w), minted);
  }

  /** Growing a history moves nothing in it. */
  lemma SeenLater(history: seq<Store>, longer: seq<Store>, from: nat, r: Reads, at: Moments)
    requires Seen(history, from, r, at) && history <= longer
    ensures Seen(longer, from, r, at)
  {
  }

  /** A run and the states the store went through: what was observed is what was there, and in which order. */
  ghost predicate Witnessed(start: nat, r: Result) {
    var h := r.world.history;
    && Valid(r.world) && start <= |h|
    && (r.o.first.Some? ==> Seen(h, start, r.o.first.value, r.shown))
    && (r.rewrite.wrote == HeadWritten ==>
          && r.o.first.Some? && r.shown.head < r.rewrite.foldAt < r.rewrite.headAt < |h| && r.rewrite.key.Some?
          && h[r.rewrite.headAt].head == Some(Fold(r.rewrite.key.value, h[r.rewrite.foldAt].inventory)))
    && (r.o.second.Some? ==>
          && r.o.first.Some? && Seen(h, r.shown.head + 1, r.o.second.value, r.reread) && r.reread.head == |h| - 1
          && (r.rewrite.wrote == HeadWritten ==> r.rewrite.headAt < r.reread.inventory))
  }

  lemma RunIsWitnessed(env: Environment, faults: set<nat>, w: World, flags: Flags, backend: Backend, minted: Key)
    requires Valid(w)
    ensures var r := RunOf(env, faults, w, flags, backend, minted);
            Witnessed(|w.history|, r) && w.history <= r.world.history && r.exit == Verdict(flags, backend, r.o)
  {
    var first := ReportOf(env, faults, w);
    ReportIsSeen(env, faults, w);
    if first.found.Some? && Gate(flags, backend, first.found.value).None? {
      var (rewrite, mid) := RebuildOf(env, faults, first.world, minted);
      RewriteIsSeen(env, faults, first.world, minted);
      SeenLater(first.world.history, mid.history, |w.history|, first.found.value, first.at);
      if rewrite.ok {
        var second := ReportOf(env, faults, mid);
        ReportIsSeen(env, faults, mid);
        SeenLater(mid.history, second.world.history, |w.history|, first.found.value, first.at);
      }
    }
  }

  // ----- What a run guarantees, in every environment

  /**
   With a usable key, a "Rebuilt" exit means the value in the store covers exactly
   the inventory the store held when it was reported, under the key it then held,
   and that the store held the same content again at a moment after the rebuild.
   */
  lemma RebuiltCoversWhatWasShown(env: Environment, faults: set<nat>, w: World, flags: Flags, backend: Backend, minted: Key)
    requires Valid(w)
    ensures var r := RunOf(env, faults, w, flags, backend, minted);
            r.exit == Rebuilt && r.o.first.value.key.Usable? ==>
              var h, k := r.world.history, r.o.first.value.key.key;
              && |w.history| <= r.shown.inventory <= r.shown.key < r.reread.inventory < |h|
              && h[r.shown.key].key == Usable(k)
              && r.world.store.head == Some(Fold(k, h[r.shown.inventory].inventory))
              && SameContent(h[r.shown.inventory].inventory, h[r.reread.inventory].inventory)
  {
    var r := RunOf(env, faults, w, flags, backend, minted);
    RunIsWitnessed(env, faults, w, flags, backend, minted);
    if r.exit == Rebuilt && r.o.first.value.key.Usable? {
      var a, b := r.o.first.value, r.o.second.value;
      FoldInjective(a.key.key, a.inventory, b.key.key, b.inventory);
    }
  }

  /** A run that wrote anything had been let through every gate by what it reported first. */
  lemma WritesOnlyWhereItMay(env: Environment, faults: set<nat>, w: World, flags: Flags, backend: Backend, minted: Key)
    requires Valid(w)
    ensures var r := RunOf(env, faults, w, flags, backend, minted);
            r.rewrite.wrote != Untouched ==>
              && r.o.first.Some? && MayWrite(flags, backend, r.o.first.value)
              && r.exit in {RebuildFailed, RereadFailed, StillMismatched, InventoryChanged, Rebuilt}
  {
    var first := ReportOf(env, faults, w).found;
    if first.Some? {
      GateOpenIff(flags, backend, first.value);
    }
  }

  /** A lock a running server holds is respected in every run, whatever was asserted about replicas. */
  lemma HeldLockIsRespected(env: Environment, faults: set<nat>, w: World, flags: Flags, backend: Backend, minted: Key)
    requires Valid(w) && backend.locker == HeldElsewhere
    requires backend.probe == Some(false) || (backend.probe.None? && backend.reprobe == Some(false))
    ensures var r := RunOf(env, faults, w, flags, backend, minted);
            && r.rewrite.wrote == Untouched && r.exit !in {RebuildFailed, RereadFailed, StillMismatched, InventoryChanged, Rebuilt}
            && (r.o.first.Some? && Mismatching(r.o.first.value) && flags.confirm ==>
                  flags.replicasStopped || backend.probe == Some(false) ==> r.exit == StoreLocked)
  {
    var first := ReportOf(env, faults, w).found;
    if first.Some? {
      GateOpenIff(flags, backend, first.value);
      GateSays(flags, backend, first.value);
    }
  }

  /**
   In a run whose second report verifies under the first one's key, the exit is
   "Rebuilt" exactly when the store held the same content at both inventory reads.
   */
  lemma ChangeIsReportedIff(env: Environment, faults: set<nat>, w: World, flags: Flags, backend: Backend, minted: Key)
    requires Valid(w)
    ensures var r := RunOf(env, faults, w, flags, backend, minted);
            r.o.second.Some? && r.o.first.value.key.Usable? && r.o.second.value.key == r.o.first.value.key &&
            Verifies(r.o.second.value) ==>
              var h := r.world.history;
              var same := SameContent(h[r.shown.inventory].inventory, h[r.reread.inventory].inventory);
              r.exit == if same then Rebuilt else InventoryChanged
  {
    var r := RunOf(env, faults, w, flags, backend, minted);
    RunIsWitnessed(env, faults, w, flags, backend, minted);
    if r.o.second.Some? && r.o.first.value.key.Usable? && r.o.second.value.key == r.o.first.value.key {
      var a, b := r.o.first.value, r.o.second.value;
      FoldInjective(a.key.key, a.inventory, b.key.key, b.inventory);
    }
  }

  /**
   The counterpart without a usable key: in a run whose second report verifies,
   the exit is "Rebuilt" exactly when both counts agree between the two states
   read, whatever happened to the store and whatever failed.
   */
  lemma CountsDecideWithoutKey(env: Environment, faults: set<nat>, w: World, flags: Flags, backend: Backend, minted: Key)
    requires Valid(w)
    ensures var r := RunOf(env, faults, w, flags, backend, minted);
            r.o.second.Some? && !r.o.first.value.key.Usable? && Verifies(r.o.second.value) ==>
              var h := r.world.history;
              var same := SameCounts(h[r.shown.inventory].inventory, h[r.reread.inventory].inventory);
              r.exit == if same then Rebuilt else InventoryChanged
  {
    RunIsWitnessed(env, faults, w, flags, backend, minted);
  }

  // ----- Environments that only append

  ghost predicate Extends(a: Inventory, b: Inventory) {
    if a.Chained? then b.Chained? && a.rows <= b.rows else b.WholeBlob? && a.lines <= b.lines
  }

  ghost predicate AppendOnly(env: Environment) { forall i: nat, s: Store :: Extends(s.inventory, env(i, s).inventory) }

  /** Every later state extends every earlier one. */
  ghost predicate Growing(history: seq<Store>) {
    forall i, j :: 0 <= i <= j < |history| ==> Extends(history[i].inventory, history[j].inventory)
  }

  lemma GrowingSnoc(history: seq<Store>, s: Store)
    requires Growing(history) && history != [] && Extends(history[|history| - 1].inventory, s.inventory)
    ensures Growing(history + [s])
  {
    forall i, j | 0 <= i <= j < |history + [s]| ensures Extends((history + [s])[i].inventory, (history + [s])[j].inventory) {
      if i < j == |history| {
        assert Extends(history[i].inventory, history[|history| - 1].inventory);
      }
    }
  }

  ghost predicate Grown(w: World) { Valid(w) && Growing(w.history) }

  lemma MovedGrows(env: Environment, w: World)
    requires AppendOnly(env) && Grown(w)
    ensures Grown(Moved(env, w))
  {
    GrowingSnoc(w.history, env(w.clock, w.store));
  }

  lemma WrittenGrows(w: World, s: Store)
    requires Grown(w) && s.inventory == w.store.inventory
    ensures Grown(Written(w, s))
  {
    GrowingSnoc(w.history, s);
  }

  lemma ReportGrows(env: Environment, faults: set<nat>, w: World)
    requires AppendOnly(env) && Grown(w)
    ensures Grown(ReportOf(env, faults, w).world)
  {
    var w1 := Moved(env, w);
    MovedGrows(env, w);
    MovedGrows(env, w1);
    var w2 := if NoRows(w1.store.inventory) then Moved(env, w1) else w1;
    MovedGrows(env, w2);
    MovedGrows(env, Moved(env, w2));
  }

  lemma KeyGrows(env: Environment, faults: set<nat>, w: World, minted: Key)
    requires AppendOnly(env) && Grown(w)
    ensures Grown(KeyOf(env, faults, w, minted).world)
  {
    var w1 := Moved(env, w);
    var w2 := Moved(env, w1);
    var w3 := Moved(env, w2);
    MovedGrows(env, w);
    MovedGrows(env, w1);
    MovedGrows(env, w2);
    WrittenGrows(w3, w3.store.(key := Usable(minted)));
  }

  lemma RebuildGrows(env: Environment, faults: set<nat>, w: World, minted: Key)
    requires AppendOnly(env) && Grown(w)
    ensures Grown(RebuildOf(env, faults, w, minted).1)
  {
    MovedGrows(env, w);
    var k := KeyOf(env, faults, Moved(env, w), minted);
    KeyGrows(env, faults, Moved(env, w), minted);
    MovedGrows(env, k.world);
    var w3 := Moved(env, k.world);
    MovedGrows(env, w3);
    var w4 := Moved(env, w3);
    if k.key.Some? {
      WrittenGrows(w4, w4.store.(head := Some(Fold(k.key.value, w3.store.inventory))));
    }
  }

  lemma RunGrows(env: Environment, faults: set<nat>, w: World, flags: Flags, backend: Backend, minted: Key)
    requires AppendOnly(env) && Grown(w)
    ensures Grown(RunOf(env, faults, w, flags, backend, minted).world)
  {
    var first := ReportOf(env, faults, w);
    ReportGrows(env, faults, w);
    RebuildGrows(env, faults, first.world, minted);
    ReportGrows(env, faults, RebuildOf(env, faults, first.world, minted).1);
  }

  lemma {:induction false} CountGrows(a: seq<Line>, b: seq<Line>, kind: LineKind)
    requires a <= b
    ensures CountKind(a, kind) <= CountKind(b, kind)
    decreases |b|
  {
    if |b| == |a| {
      assert a == b;
    } else {
      var b' := b[..|b| - 1];
      assert a == b[..|a|] == b'[..|a|];
      CountGrows(a, b', kind);
    }
  }

  lemma {:induction false} CountAppended(a: seq<Line>, b: seq<Line>, kind: LineKind)
    requires a <= b && CountKind(b, kind) == CountKind(a, kind)
    ensures forall i :: |a| <= i < |b| ==> b[i].kind != kind
    decreases |b|
  {
    if |b| == |a| {
      assert a == b;
    } else {
      var b' := b[..|b| - 1];
      assert a == b[..|a|] == b'[..|a|];
      CountGrows(a, b', kind);
      CountAppended(a, b', kind);
    }
  }

  /** No entry of `b` is missing from `a`; blank lines of a blob are all it may have more. */
  ghost predicate NothingAdded(a: Inventory, b: Inventory) {
    if a.Chained? then b.Chained? && a.rows == b.rows
    else b.WholeBlob? && a.lines <= b.lines && forall i :: |a.lines| <= i < |b.lines| ==> b.lines[i].kind == BlankLine
  }

  lemma UnchangedAddsNothing(rep: Reads, after: Reads)
    requires Verifies(after) && !Changed(rep, after) && Extends(rep.inventory, after.inventory)
    ensures NothingAdded(rep.inventory, after.inventory)
  {
    var a, b := rep.inventory, after.inventory;
    if rep.key.Usable? {
      FoldInjective(rep.key.key, a, after.key.key, b);
    } else if a.WholeBlob? {
      CountAppended(a.lines, b.lines, EntryLine);
      CountAppended(a.lines, b.lines, UnparseableLine);
    }
  }

  lemma BetweenNothing(a: Inventory, m: Inventory, b: Inventory)
    requires Extends(a, m) && Extends(m, b) && NothingAdded(a, b)
    ensures NothingAdded(a, m)
  {
  }

  /**
   Against an environment that only appends, "Rebuilt" means that no state the
   store went through between the reported read and the last one held an entry
   that was not reported, with a usable key or without one.
   */
  lemma AppendIsNeverBlessed(env: Environment, faults: set<nat>, w: World, flags: Flags, backend: Backend, minted: Key)
    requires AppendOnly(env) && Grown(w)
    ensures var r := RunOf(env, faults, w, flags, backend, minted);
            var h := r.world.history;
            r.exit == Rebuilt ==>
              && r.shown.inventory < r.reread.inventory < |h|
              && forall i :: r.shown.inventory <= i <= r.reread.inventory ==>
                   NothingAdded(h[r.shown.inventory].inventory, h[i].inventory)
  {
    var r := RunOf(env, faults, w, flags, backend, minted);
    RunIsWitnessed(env, faults, w, flags, backend, minted);
    RunGrows(env, faults, w, flags, backend, minted);
    if r.exit == Rebuilt {
      var h, from, to := r.world.history, r.shown.inventory, r.reread.inventory;
      assert Extends(h[from].inventory, h[to].inventory);
      UnchangedAddsNothing(r.o.first.value, r.o.second.value);
      forall i | from <= i <= to ensures NothingAdded(h[from].inventory, h[i].inventory) {
        BetweenNothing(h[from].inventory, h[i].inventory, h[to].inventory);
      }
    }
  }

  // ----- An environment that replaces the inventory once

  /** At operation n the inventory becomes `other`; nothing else ever happens. */
  function SwapAt(n: nat, other: Inventory): (env: Environment) {
    (i: nat, s: Store) => if i == n then s.(inventory := other) else s
  }

  /** How many operations a report of this inventory takes. */
  function ReportOps(i: Inventory): (n: nat) { if NoRows(i) then 4 else 3 }

  /** Which operation of a rebuild call reads the inventory to fold. */
  function FoldOp(k: StoredKey): (n: nat) { if k.Usable? then 2 else 4 }

  lemma ReportUnderSwap(w: World, n: nat, other: Inventory)
    requires Valid(w)
    ensures var r := ReportOf(SwapAt(n, other), {}, w);
            var seen := if n == w.clock then other else w.store.inventory;
            && r.found.Some? && r.found.value.inventory == seen
            && r.found.value.key == w.store.key && r.found.value.head == w.store.head
            && r.found.value.legacy == (if !NoRows(seen) then 0
                                        else LegacyIn(if n == w.clock + 1 then other else seen))
            && r.world.clock == w.clock + ReportOps(seen)
            && r.world.store == if w.clock <= n < r.world.clock then w.store.(inventory := other) else w.store
  {
  }

  lemma RebuildUnderSwap(w: World, n: nat, other: Inventory, minted: Key)
    requires Valid(w) && !w.store.key.Absent?
    ensures var (r, w') := RebuildOf(SwapAt(n, other), {}, w, minted);
            var key, fold := KeyFor(w.store.key, minted), w.clock + FoldOp(w.store.key);
            && r.ok && w'.clock == fold + 2
            && w'.store == Store(if w.clock <= n <= fold + 1 then other else w.store.inventory, Usable(key),
                                 Some(Fold(key, if w.clock <= n <= fold then other else w.store.inventory)))
  {
  }

  /** The first report of a run from `s` in which the swap comes after the inventory read. */
  ghost function FirstReads(s: Store, n: nat, other: Inventory): (r: Reads) {
    Reads(s.inventory, if NoRows(s.inventory) then LegacyIn(if n == 1 then other else s.inventory) else 0, s.key, s.head)
  }

  /** The second report of such a run. */
  ghost predicate RereadUnderSwap(s: Store, n: nat, other: Inventory, minted: Key, r: Reads) {
    var key, fold := KeyFor(s.key, minted), ReportOps(s.inventory) + FoldOp(s.key);
    && r.inventory == (if n <= fold + 2 then other else s.inventory)
    && r.key == Usable(key) && r.head == Some(Fold(key, if n <= fold then other else s.inventory))
  }

  lemma SwapObserved(s: Store, n: nat, other: Inventory, flags: Flags, backend: Backend, minted: Key)
    requires n >= 1 && Gate(flags, backend, FirstReads(s, n, other)).None?
    ensures var r := RunOf(SwapAt(n, other), {}, World(s, 0, [s]), flags, backend, minted);
            && r.o.first == Some(FirstReads(s, n, other)) && r.o.rebuilt && r.o.second.Some?
            && RereadUnderSwap(s, n, other, minted, r.o.second.value) && r.exit == Verdict(flags, backend, r.o)
            && (n <= ReportOps(s.inventory) + FoldOp(s.key) ==> r.world.store.inventory == other)
            && r.world.store.head == r.o.second.value.head && r.world.store.key == r.o.second.value.key
  {
    var env, w := SwapAt(n, other), World(s, 0, [s]);
    ReportUnderSwap(w, n, other);
    ReportIsSeen(env, {}, w);
    var mid := ReportOf(env, {}, w).world;
    RebuildUnderSwap(mid, n, other, minted);
    RewriteIsSeen(env, {}, mid, minted);
    ReportUnderSwap(RebuildOf(env, {}, mid, minted).1, n, other);
  }

  lemma SwapVerdict(s: Store, n: nat, other: Inventory, flags: Flags, backend: Backend, minted: Key, second: Reads)
    requires Gate(flags, backend, FirstReads(s, n, other)).None? && RereadUnderSwap(s, n, other, minted, second)
    ensures Verdict(flags, backend, Observed(Some(FirstReads(s, n, other)), true, Some(second))) ==
            SwapOutcome(s, n, other)
  {
    var key := KeyFor(s.key, minted);
    FoldInjective(key, s.inventory, key, other);
  }

  /**
   How a replacement at operation n ends. Up to the fold the binding decides, on
   content with a usable key and on the counts without one. From there to the
   second read the new value does not verify. After that the run no longer looks.
   */
  ghost function SwapOutcome(s: Store, n: nat, other: Inventory): (exit: Exit) {
    var fold := ReportOps(s.inventory) + FoldOp(s.key);
    if n <= fold then
      (if (if s.key.Usable? then SameContent(s.inventory, other) else SameCounts(s.inventory, other))
       then Rebuilt else InventoryChanged)
    else if n <= fold + 2 then (if SameContent(s.inventory, other) then Rebuilt else StillMismatched)
    else Rebuilt
  }

  /** The exit for every moment at which the inventory could be replaced after it was reported. */
  lemma SwapExit(s: Store, n: nat, other: Inventory, flags: Flags, backend: Backend, minted: Key)
    requires n >= 1 && Gate(flags, backend, FirstReads(s, n, other)).None?
    ensures RunOf(SwapAt(n, other), {}, World(s, 0, [s]), flags, backend, minted).exit == SwapOutcome(s, n, other)
  {
    SwapObserved(s, n, other, flags, backend, minted);
    var o := RunOf(SwapAt(n, other), {}, World(s, 0, [s]), flags, backend, minted).o;
    SwapVerdict(s, n, other, flags, backend, minted, o.second.value);
    assert o == Observed(Some(FirstReads(s, n, other)), true, Some(o.second.value));
  }

  /** Without a usable key, a replacement before the fold ends in "Rebuilt" exactly when it kept both counts. */
  lemma WithoutKeyOnlyCountsBind(s: Store, n: nat, other: Inventory, flags: Flags, backend: Backend, minted: Key)
    requires 1 <= n <= ReportOps(s.inventory) + FoldOp(s.key) && !s.key.Usable?
    requires Gate(flags, backend, FirstReads(s, n, other)).None?
    ensures var r := RunOf(SwapAt(n, other), {}, World(s, 0, [s]), flags, backend, minted);
            && (r.exit == Rebuilt <==> SameCounts(s.inventory, other))
            && r.world.store == Store(other, Usable(minted), Some(Fold(minted, other)))
  {
    SwapObserved(s, n, other, flags, backend, minted);
    SwapExit(s, n, other, flags, backend, minted);
  }

  // ----- Environments in which no one else writes

  /** No one else writes, though operations may fail. */
  ghost predicate Still(env: Environment) { forall i: nat, s: Store :: env(i, s) == s }

  lemma KeyStill(env: Environment, faults: set<nat>, w: World, minted: Key)
    requires Still(env)
    ensures var k := KeyOf(env, faults, w, minted);
            && k.world.store == Left(w.store, minted, k.wrote) && (faults == {} ==> k.key.Some?)
            && (k.wrote == KeyWritten ==> k.key.Some?)
            && (k.key.Some? ==> k.key.value == KeyFor(w.store.key, minted) && k.world.store.key == Usable(k.key.value))
  {
  }

  /** Alone, a rebuild call leaves the store untouched, with the key written, or with key and head written. */
  lemma RebuildStill(env: Environment, faults: set<nat>, w: World, minted: Key)
    requires Still(env) && Valid(w)
    ensures var (r, w') := RebuildOf(env, faults, w, minted);
            && w'.store == Left(w.store, minted, r.wrote)
            && (faults == {} ==> r.ok && (r.wrote == HeadWritten <==> !w.store.key.Absent?))
  {
    KeyStill(env, faults, Moved(env, w), minted);
  }

  /** Alone and with nothing failing, a run writes the key and the head exactly where it may, and otherwise nothing. */
  lemma QuietWritesIff(env: Environment, s: Store, flags: Flags, backend: Backend, minted: Key)
    requires Still(env)
    ensures var r := RunOf(env, {}, World(s, 0, [s]), flags, backend, minted);
            && (MayWrite(flags, backend, QuietReads(s)) ==>
                  r.exit == Rebuilt && r.rewrite.wrote == HeadWritten && r.world.store == Repaired(s, minted))
            && (!MayWrite(flags, backend, QuietReads(s)) ==> r.rewrite.wrote == Untouched && r.world.store == s)
  {
    var w := World(s, 0, [s]);
    ReportStill(env, w);
    GateOpenIff(flags, backend, QuietReads(s));
    if MayWrite(flags, backend, QuietReads(s)) {
      var mid := ReportOf(env, {}, w).world;
      ReportIsSeen(env, {}, w);
      RebuildStill(env, {}, mid, minted);
      RewriteIsSeen(env, {}, mid, minted);
      ReportStill(env, RebuildOf(env, {}, mid, minted).1);
    }
  }

  lemma ReportStill(env: Environment, w: World)
    requires Still(env) && Valid(w)
    ensures ReportOf(env, {}, w).found == Some(QuietReads(w.store)) && ReportOf(env, {}, w).world.store == w.store
  {
  }

  // ----- The command

  /** A store opened by the command; `env` moves it before each operation, and the operations in `faults` fail. */
  class Session {
    const env: Environment
    const faults: set<nat>
    var store: Store
    var clock: nat
    var wrote: Progress
    ghost var history: seq<Store>

    constructor (store: Store, env: Environment, faults: set<nat>)
      ensures this.env == env && this.faults == faults && wrote == Untouched && Now() == World(store, 0, [store])
    {
      this.store, this.env, this.faults, clock, wrote, history := store, env, faults, 0, Untouched, [store];
    }

    ghost function Now(): (w: World)
      reads this
    {
      World(store, clock, history)
    }

    ghost predicate Quiet() { faults == {} && Still(env) }

    /** The environment moves; then the operation itself succeeds or fails. */
    method Operation() returns (ok: bool)
      modifies this`store, this`clock, this`history
      ensures Now() == Moved(env, old(Now())) && ok == (old(clock) !in faults)
    {
      store := env(clock, store);
      ok := clock !in faults;
      clock := clock + 1;
      history := history + [store];
    }

    method Write(s: Store, progress: Progress)
      modifies this`store, this`wrote, this`history
      ensures Now() == Written(old(Now()), s) && wrote == progress
    {
      store, wrote, history := s, progress, history + [s];
    }

    /** What was read, and when: every part of a report is what the store held at its moment, the head at the last. */
    method InventoryIntegrityReport() returns (r: Option<Reads>, ghost at: Moments)
      requires Valid(Now())
      modifies this`store, this`clock, this`history
      ensures Report(r, at, Now()) == ReportOf(env, faults, old(Now()))
      ensures Valid(Now()) && old(history) <= history
      ensures r.Some? ==> Seen(history, |old(history)|, r.value, at) && r.value.head == store.head
      ensures Still(env) ==> store == old(store)
      ensures Quiet() ==> r == Some(QuietReads(store))
    {
      ReportIsSeen(env, faults, Now());
      at := NEVER;
      var ok := Operation();
      if !ok {
        return None, at;
      }
      var inventory, legacy := store.inventory, 0;
      ghost var read := |history| - 1;
      if NoRows(inventory) {
        ok := Operation();
        if !ok {
          return None, at;
        }
        legacy := LegacyIn(store.inventory);
      }
      ghost var checked := |history| - 1;
      ok := Operation();
      if !ok {
        return None, at;
      }
      var key := store.key;
      ghost var loaded := |history| - 1;
      ok := Operation();
      if !ok {
        return None, at;
      }
      r, at := Some(Reads(inventory, legacy, key, store.head)), Moments(read, checked, loaded, |history| - 1);
    }

    /** EnsureHMACKey: the stored key if usable, otherwise one minted under the key lock. */
    method EnsureHmacKey(minted: Key) returns (key: Option<Key>)
      requires wrote == Untouched
      modifies this
      ensures KeyResult(key, wrote, Now()) == KeyOf(env, faults, old(Now()), minted)
      ensures wrote == KeyWritten ==> key.Some?
      ensures Still(env) ==> store == Left(old(store), minted, wrote)
      ensures Still(env) && key.Some? ==> key.value == KeyFor(old(store).key, minted) && store.key == Usable(key.value)
      ensures Quiet() ==> key.Some?
    {
      if Still(env) {
        KeyStill(env, faults, Now(), minted);
      }
      var ok := Operation();
      if !ok {
        return None;
      }
      if store.key.Usable? {
        return Some(store.key.key);
      }
      ok := Operation();
      if !ok {
        return None;
      }
      if store.key.Usable? {
        return Some(store.key.key);
      }
      ok := Operation();
      if !ok {
        return None;
      }
      Write(store.(key := Usable(minted)), KeyWritten);
      key := Some(minted);
    }

    /** UpdateInventoryHMAC: fold the inventory as it is read, then write the head. */
    method UpdateInventoryHmac(key: Key) returns (ok: bool, ghost rewrite: Rewrite)
      requires Valid(Now())
      modifies this
      ensures (rewrite, Now()) == UpdateOf(env, faults, old(Now()), key, old(wrote))
      ensures ok == rewrite.ok && wrote == rewrite.wrote
    {
      rewrite := Rewrite(false, wrote, Some(key), 0, 0);
      ok := Operation();
      if !ok {
        return;
      }
      var inventory := store.inventory;
      ghost var folded := |history| - 1;
      ok := Operation();
      if !ok {
        return;
      }
      Write(store.(head := Some(Fold(key, inventory))), HeadWritten);
      rewrite := Rewrite(true, HeadWritten, Some(key), folded, |history| - 1);
    }

    /** RebuildInventoryHMAC: a no-op without a key; otherwise the key, then the head, two writes. */
    method RebuildInventoryHmac(minted: Key) returns (ok: bool, ghost rewrite: Rewrite)
      requires wrote == Untouched && Valid(Now())
      modifies this
      ensures (rewrite, Now()) == RebuildOf(env, faults, old(Now()), minted)
      ensures ok == rewrite.ok && wrote == rewrite.wrote && Valid(Now())
      ensures Still(env) ==> store == Left(old(store), minted, wrote)
      ensures Quiet() ==> ok && (wrote == HeadWritten <==> !old(store).key.Absent?)
    {
      RewriteIsSeen(env, faults, Now(), minted);
      if Still(env) {
        RebuildStill(env, faults, Now(), minted);
      }
      ok := Operation();
      rewrite := Rewrite(ok, Untouched, None, 0, 0);
      if !ok || store.key.Absent? {
        return;
      }
      var key := EnsureHmacKey(minted);
      rewrite := Rewrite(false, wrote, key, 0, 0);
      if key.None? {
        return false, rewrite;
      }
      KeyKeepsHistory(env, faults, Moved(env, old(Now())), minted);
      ok, rewrite := UpdateInventoryHmac(key.value);
    }

    /** The protocol's steps, as `RunOf` describes them. */
    method Steps(flags: Flags, backend: Backend, minted: Key)
      returns (exit: Exit, o: Observed, ghost shown: Moments, ghost rewrite: Rewrite, ghost reread: Moments)
      requires wrote == Untouched && Valid(Now())
      modifies this
      ensures Result(exit, o, shown, rewrite, reread, Now()) == RunOf(env, faults, old(Now()), flags, backend, minted)
      ensures rewrite.wrote == wrote
      ensures Still(env) ==> store == Left(old(store), minted, wrote)
      ensures Quiet() ==> (exit, store) == QuietRun(flags, backend, old(store), minted)
    {
      o, shown, rewrite, reread := Observed(None, false, None), NEVER, NO_REWRITE, NEVER;
      var rep;
      rep, shown := InventoryIntegrityReport();
      if rep.None? {
        exit := ReportFailed;
        return;
      }
      o := o.(first := rep);
      var gate := Gate(flags, backend, rep.value);
      if gate.Some? {
        exit := gate.value;
        return;
      }
      var ok;
      ok, rewrite := RebuildInventoryHmac(minted);
      if !ok {
        exit := RebuildFailed;
        return;
      }
      o := o.(rebuilt := true);
      var after;
      after, reread := InventoryIntegrityReport();
      if after.None? {
        exit := RereadFailed;
        return;
      }
      o := o.(second := after);
      if !Verifies(after.value) {
        exit := StillMismatched;
        return;
      }
      if Changed(rep.value, after.value) {
        exit := InventoryChanged;
        return;
      }
      exit := Rebuilt;
    }

    /**
     The command, in every environment. Its exit is the verdict on what it
     observed, and what it observed is what the store held at the moments given.
     It writes only where it may. "Rebuilt" with a usable key means the value in
     the store covers what was reported; where others only append, it means
     nothing was added between the two reads.
     */
    method Run(flags: Flags, backend: Backend, minted: Key)
      returns (exit: Exit, o: Observed, ghost shown: Moments, ghost rewrite: Rewrite, ghost reread: Moments)
      requires wrote == Untouched && Valid(Now())
      modifies this
      ensures Result(exit, o, shown, rewrite, reread, Now()) == RunOf(env, faults, old(Now()), flags, backend, minted)
      ensures Witnessed(|old(history)|, Result(exit, o, shown, rewrite, reread, Now())) && old(history) <= history
      ensures exit == Verdict(flags, backend, o) && rewrite.wrote == wrote
      ensures exit == Rebuilt && o.first.value.key.Usable? ==>
                && store.head == Some(Fold(o.first.value.key.key, o.first.value.inventory))
                && SameContent(history[shown.inventory].inventory, history[reread.inventory].inventory)
      ensures AppendOnly(env) && old(Grown(Now())) && exit == Rebuilt ==>
                forall i :: shown.inventory <= i <= reread.inventory ==>
                  NothingAdded(o.first.value.inventory, history[i].inventory)
      ensures wrote != Untouched ==> o.first.Some? && MayWrite(flags, backend, o.first.value)
      ensures wrote != Untouched ==> exit in {RebuildFailed, RereadFailed, StillMismatched, InventoryChanged, Rebuilt}
      ensures Still(env) ==> store == Left(old(store), minted, wrote)
      ensures Quiet() ==> (exit, store) == QuietRun(flags, backend, old(store), minted)
    {
      ghost var start := Now();
      exit, o, shown, rewrite, reread := Steps(flags, backend, minted);
      RunIsWitnessed(env, faults, start, flags, backend, minted);
      WritesOnlyWhereItMay(env, faults, start, flags, backend, minted);
      RebuiltCoversWhatWasShown(env, faults, start, flags, backend, minted);
      if AppendOnly(env) && Grown(start) {
        AppendIsNeverBlessed(env, faults, start, flags, backend, minted);
      }
    }
  }

  /**
   A session whose key has the wrong length and whose only entry is replaced by
   another while the command runs: it ends in "Rebuilt", and the value left in
   the store covers an entry that was never shown.
   */
  method SubstitutionIsBlessed() returns (session: Session, exit: Exit, o: Observed)
    ensures exit == Rebuilt && o.first.Some? && o.first.value.inventory == Chained(["2 a"], 0)
    ensures session.store == Store(Chained(["2 b"], 0), Usable(1), Some(Fold(1, Chained(["2 b"], 0))))
    ensures !SameContent(o.first.value.inventory, session.store.inventory)
  {
    var shown, other := Chained(["2 a"], 0), Chained(["2 b"], 0);
    var s := Store(shown, WrongLength, Some(EmptyHead));
    var flags, backend := Flags(true, true), Backend(Some(false), None, Free);
    session := new Session(s, SwapAt(5, other), {});
    ghost var m, w, n;
    exit, o, m, w, n := session.Run(flags, backend, 1);
    SwapObserved(s, 5, other, flags, backend, 1);
    WithoutKeyOnlyCountsBind(s, 5, other, flags, backend, 1);
    assert shown.rows[0] != other.rows[0];
  }
}
