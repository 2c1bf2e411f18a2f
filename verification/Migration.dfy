/**
 The order of handles and locks in a migration between two stores
 (cmd/openvox-ca-ctl/migrate.go). Every step is logged, and what must hold at
 every moment is stated over every prefix of the log.
 */
module Migration {
  datatype Side = Source | Destination

  datatype Event = Opened(side: Side) | Locked(side: Side) | Copied | Closed(side: Side) | Unlocked(side: Side)

  /** The stores with an open backend handle after these events. */
  function Open(log: seq<Event>): (r: set<Side>) {
    if log == [] then {}
    else
      var before := Open(log[..|log| - 1]);
      match log[|log| - 1]
      case Opened(s) => before + {s}
      case Closed(s) => before - {s}
      case _ => before
  }

  /** The stores whose instance lock is held after these events. */
  function Held(log: seq<Event>): (r: set<Side>) {
    if log == [] then {}
    else
      var before := Held(log[..|log| - 1]);
      match log[|log| - 1]
      case Locked(s) => before + {s}
      case Unlocked(s) => before - {s}
      case _ => before
  }

  function Copies(log: seq<Event>): (n: nat) {
    if log == [] then 0 else Copies(log[..|log| - 1]) + (if log[|log| - 1].Copied? then 1 else 0)
  }

  /**
   At this moment: a store that was locked and is still open is still locked, and
   nothing is copied unless both stores are open and locked.
   */
  ghost predicate SafeNow(log: seq<Event>) {
    && (forall s :: Locked(s) in log && s in Open(log) ==> s in Held(log))
    && (log != [] && log[|log| - 1] == Copied ==>
          Open(log) == {Source, Destination} && Held(log) == {Source, Destination})
  }

  ghost predicate Safe(log: seq<Event>) { forall k :: 0 <= k <= |log| ==> SafeNow(log[..k]) }

  lemma {:induction false} SafeSnoc(log: seq<Event>, e: Event)
    requires Safe(log) && SafeNow(log + [e])
    ensures Safe(log + [e])
  {
    forall k | 0 <= k <= |log + [e]| ensures SafeNow((log + [e])[..k]) {
      if k <= |log| {
        assert (log + [e])[..k] == log[..k];
      } else {
        assert (log + [e])[..k] == log + [e];
      }
    }
  }

  lemma {:induction false} Snoc(log: seq<Event>, e: Event)
    ensures Open(log + [e]) == match e case Opened(s) => Open(log) + {s} case Closed(s) => Open(log) - {s} case _ => Open(log)
    ensures Held(log + [e]) == match e case Locked(s) => Held(log) + {s} case Unlocked(s) => Held(log) - {s} case _ => Held(log)
    ensures Copies(log + [e]) == Copies(log) + (if e.Copied? then 1 else 0)
    ensures forall f :: f in log + [e] <==> f in log || f == e
  {
    assert (log + [e])[..|log|] == log;
  }

  datatype Fault = ConfigFails | OpenFails(side: Side) | LockFails(side: Side) | CopyFails(after: nat)

  class Migrator {
    const faults: set<Fault>
    var log: seq<Event>

    constructor (faults: set<Fault>)
      ensures this.faults == faults && log == []
    {
      this.faults, log := faults, [];
    }

    ghost predicate At(open: set<Side>, held: set<Side>)
      reads this
    {
      Safe(log) && Open(log) == open && Held(log) == held &&
      forall s :: Locked(s) in log && s in open ==> s in held
    }

    method Do(e: Event)
      requires Safe(log) && SafeNow(log + [e])
      modifies this
      ensures log == old(log) + [e] && Safe(log)
    {
      SafeSnoc(log, e);
      log := log + [e];
    }

    /** Take the instance lock, or give the backend handle back. */
    method LockStore(side: Side, ghost open: set<Side>, ghost held: set<Side>) returns (ok: bool)
      requires At(open, held) && side in open && side !in held
      modifies this
      ensures if ok then At(open, held + {side}) else At(open - {side}, held)
      ensures ok <==> LockFails(side) !in faults
      ensures Copies(log) == Copies(old(log)) && forall s :: s != side ==> (Locked(s) in log <==> Locked(s) in old(log))
    {
      if LockFails(side) in faults {
        Snoc(log, Closed(side));
        Do(Closed(side));
        return false;
      }
      Snoc(log, Locked(side));
      Do(Locked(side));
      ok := true;
    }

    /** The cleanup the lock comes with: close the backend, and only then release the lock. */
    method Release(side: Side, ghost open: set<Side>, ghost held: set<Side>)
      requires At(open, held) && side in open && side in held
      modifies this
      ensures At(open - {side}, held - {side}) && Copies(log) == Copies(old(log))
    {
      Snoc(log, Closed(side));
      Do(Closed(side));
      Snoc(log, Unlocked(side));
      Do(Unlocked(side));
    }

    method OpenStore(side: Side, ghost open: set<Side>, ghost held: set<Side>) returns (ok: bool)
      requires At(open, held) && side !in open && Locked(side) !in log
      modifies this
      ensures ok <==> OpenFails(side) !in faults
      ensures if ok then At(open + {side}, held) && log == old(log) + [Opened(side)] else At(open, held) && log == old(log)
    {
      if OpenFails(side) in faults {
        return false;
      }
      Snoc(log, Opened(side));
      Do(Opened(side));
      ok := true;
    }

    /** The copy itself, blob by blob; it may fail before any of them. */
    method Copy(blobs: nat) returns (ok: bool)
      requires At({Source, Destination}, {Source, Destination})
      modifies this
      ensures At({Source, Destination}, {Source, Destination})
      ensures ok ==> Copies(log) == Copies(old(log)) + blobs
      ensures ok <==> forall n: nat :: n < blobs ==> CopyFails(n) !in faults
    {
      for n := 0 to blobs
        invariant At({Source, Destination}, {Source, Destination})
        invariant Copies(log) == Copies(old(log)) + n
        invariant forall m: nat :: m < n ==> CopyFails(m) !in faults
      {
        if CopyFails(n) in faults {
          return false;
        }
        Snoc(log, Copied);
        Do(Copied);
      }
      ok := true;
    }

    /** What runs while the source is open and locked. */
    method WithSource(blobs: nat) returns (ok: bool)
      requires At({Source}, {Source}) && Locked(Destination) !in log
      modifies this
      ensures At({Source}, {Source})
      ensures ok ==> Copies(log) == Copies(old(log)) + blobs
      ensures ok <==> OpenFails(Destination) !in faults && LockFails(Destination) !in faults &&
                      forall n: nat :: n < blobs ==> CopyFails(n) !in faults
    {
      ok := OpenStore(Destination, {Source}, {Source});
      if !ok {
        return;
      }
      Snoc(old(log), Opened(Destination));
      ok := LockStore(Destination, {Source, Destination}, {Source});
      if !ok {
        return;
      }
      ok := Copy(blobs);
      Release(Destination, {Source, Destination}, {Source, Destination});
    }

    /**
     The whole command. Whatever fails, at every moment of the run an open store
     that was locked is still locked and blobs are copied only between two locked
     stores; at the end no handle is open and no lock is held.
     */
    method Migrate(blobs: nat) returns (ok: bool)
      requires log == []
      modifies this
      ensures Safe(log) && Open(log) == {} && Held(log) == {}
      ensures ok ==> Copies(log) == blobs
      ensures ok <==> ConfigFails !in faults && OpenFails(Source) !in faults && LockFails(Source) !in faults &&
                      OpenFails(Destination) !in faults && LockFails(Destination) !in faults &&
                      forall n: nat :: n < blobs ==> CopyFails(n) !in faults
    {
      if ConfigFails in faults {
        return false;
      }
      ok := OpenStore(Source, {}, {});
      if !ok {
        return;
      }
      Snoc([], Opened(Source));
      assert [] + [Opened(Source)] == log;
      ok := LockStore(Source, {Source}, {});
      if !ok {
        return;
      }
      ok := WithSource(blobs);
      Release(Source, {Source}, {Source});
    }
  }

  /** Two separate deferred calls would run the other way round, and that order is not safe. */
  lemma UnlockFirstIsUnsafe(side: Side)
    ensures !Safe([Opened(side), Locked(side), Unlocked(side), Closed(side)])
  {
    var log := [Opened(side), Locked(side), Unlocked(side), Closed(side)];
    assert log[..3] == [Opened(side), Locked(side)] + [Unlocked(side)];
    Snoc([], Opened(side));
    Snoc([Opened(side)], Locked(side));
    Snoc([Opened(side), Locked(side)], Unlocked(side));
    assert [] + [Opened(side)] == [Opened(side)] && [Opened(side)] + [Locked(side)] == [Opened(side), Locked(side)];
    assert !SafeNow(log[..3]);
  }
}
