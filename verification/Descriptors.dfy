/**
 Who holds which end of the launcher's descriptors (cmd/openvox-ca/launcher.go):
 the socketpair between signer and frontend, and the PSK pipe of each child.
 Every step that can fail may fail; deferred closes run on every return, also
 over an end already closed.
 */
module Descriptors {
  import opened Roles

  datatype Process = Parent | Child(role: Role)

  datatype End = SocketEnd(role: Role) | PipeRead(role: Role) | PipeWrite(role: Role)

  /** A process has an end open. */
  datatype Holding = Holding(process: Process, end: End)

  datatype Fault = SocketpairFails | RandomFails | ExecutableFails
                 | PipeFails(role: Role) | PipeWriteFails(role: Role) | PipeCloseFails(role: Role)
                 | StartFails(role: Role)

  /** The faults that keep one child from starting. */
  function SpawnFaults(role: Role): (r: set<Fault>) {
    {PipeFails(role), PipeWriteFails(role), PipeCloseFails(role), StartFails(role)}
  }

  datatype Outcome = Failed | Supervised

  /** The ends exactly the two children hold once both are up. */
  const CHILDREN_ONLY := {Holding(Child(Signer), SocketEnd(Signer)), Holding(Child(Signer), PipeRead(Signer)),
                          Holding(Child(Frontend), SocketEnd(Frontend)), Holding(Child(Frontend), PipeRead(Frontend))}

  function HeldBy(table: set<Holding>, p: Process): (r: set<Holding>) {
    set h | h in table && h.process == p
  }

  function Other(role: Role): (r: Role) { if role == Signer then Frontend else Signer }

  class Kernel {
    const faults: set<Fault>
    var table: set<Holding>
    var running: set<Role>
    var started: set<Role>
    var reaped: set<Role>

    constructor (faults: set<Fault>)
      ensures this.faults == faults && table == {} && running == {} && started == {} && reaped == {}
    {
      this.faults, table, running, started, reaped := faults, {}, {}, {}, {};
    }

    method Close(end: End)
      modifies this`table
      ensures table == old(table) - {Holding(Parent, end)}
    {
      table := table - {Holding(Parent, end)};
    }

    /** The read end of a loaded pipe, its write end closed; nothing at all on failure. */
    method PskPipe(role: Role) returns (ok: bool)
      requires Holding(Parent, PipeRead(role)) !in table && Holding(Parent, PipeWrite(role)) !in table
      modifies this`table
      ensures table == if ok then old(table) + {Holding(Parent, PipeRead(role))} else old(table)
      ensures ok <==> faults !! {PipeFails(role), PipeWriteFails(role), PipeCloseFails(role)}
    {
      if PipeFails(role) in faults {
        return false;
      }
      table := table + {Holding(Parent, PipeRead(role)), Holding(Parent, PipeWrite(role))};
      if PipeWriteFails(role) in faults {
        Close(PipeRead(role));
        Close(PipeWrite(role));
        return false;
      }
      Close(PipeWrite(role));
      if PipeCloseFails(role) in faults {
        Close(PipeRead(role));
        return false;
      }
      ok := true;
    }

    /** The child's copies of its socket and pipe, and nothing else: the rest is close-on-exec. */
    method Start(role: Role) returns (ok: bool)
      requires Holding(Parent, SocketEnd(role)) in table && Holding(Parent, PipeRead(role)) in table
      modifies this`table, this`running, this`started
      ensures ok ==> table == old(table) + {Holding(Child(role), SocketEnd(role)), Holding(Child(role), PipeRead(role))}
      ensures ok ==> running == old(running) + {role} && started == old(started) + {role}
      ensures !ok ==> table == old(table) && running == old(running) && started == old(started)
      ensures ok <==> StartFails(role) !in faults
    {
      if StartFails(role) in faults {
        return false;
      }
      table := table + {Holding(Child(role), SocketEnd(role)), Holding(Child(role), PipeRead(role))};
      running, started := running + {role}, started + {role};
      ok := true;
    }

    /** Whatever happens, the parent keeps neither the socket end nor a pipe end; on success the child has both. */
    method SpawnChild(role: Role) returns (ok: bool)
      requires Holding(Parent, SocketEnd(role)) in table
      requires Holding(Parent, PipeRead(role)) !in table && Holding(Parent, PipeWrite(role)) !in table
      modifies this`table, this`running, this`started
      ensures table == old(table) - {Holding(Parent, SocketEnd(role))} +
                       (if ok then {Holding(Child(role), SocketEnd(role)), Holding(Child(role), PipeRead(role))} else {})
      ensures running == old(running) + (if ok then {role} else {})
      ensures started == old(started) + (if ok then {role} else {})
      ensures ok <==> faults !! SpawnFaults(role)
    {
      ok := PskPipe(role);
      if !ok {
        Close(SocketEnd(role));
        return;
      }
      ok := Start(role);
      Close(PipeRead(role));
      Close(SocketEnd(role));
    }

    /** A child that has exited and been waited for; its descriptors go with it. */
    method Reap(role: Role)
      modifies this`table, this`running, this`reaped
      ensures table == old(table) - HeldBy(old(table), Child(role))
      ensures running == old(running) - {role} && reaped == old(reaped) + {role}
      ensures forall h :: h in table <==> h in old(table) && h.process != Child(role)
    {
      table := table - HeldBy(table, Child(role));
      running, reaped := running - {role}, reaped + {role};
    }

    /** Kill and wait. */
    method KillAndReap(role: Role)
      modifies this`table, this`running, this`reaped
      ensures table == old(table) - HeldBy(old(table), Child(role))
      ensures forall h :: h in table <==> h in old(table) && h.process != Child(role)
      ensures running == old(running) - {role} && reaped == old(reaped) + {role}
    {
      Reap(role);
    }

    /**
     A supervised child is gone: no process holds its socket end any more, so its
     peer, which keeps its own, reads end-of-file.
     */
    method ReapSupervised(role: Role)
      requires table <= CHILDREN_ONLY
      modifies this`table, this`running, this`reaped
      ensures table == old(table) - HeldBy(old(table), Child(role)) && table <= CHILDREN_ONLY
      ensures running == old(running) - {role} && reaped == old(reaped) + {role}
      ensures forall p :: Holding(p, SocketEnd(role)) !in table
      ensures forall other :: other != role && Holding(Child(other), SocketEnd(other)) in old(table) ==>
                Holding(Child(other), SocketEnd(other)) in table
    {
      Reap(role);
    }

    /**
     The launcher from socketpair to return; `first` is the child that exits
     first. `during` is the descriptor table while both run, `between` the one
     after the first exit. On every exit path no end is left open by anyone,
     nothing still runs, and every child that was started has been reaped.
     */
    method RunLauncher(first: Role) returns (outcome: Outcome, during: set<Holding>, between: set<Holding>)
      requires table == {} && running == {} && started == {} && reaped == {}
      modifies this
      ensures table == {} && running == {} && reaped == started
      ensures outcome == Supervised ==> during == CHILDREN_ONLY && started == {Signer, Frontend}
      ensures outcome == Supervised ==> between == HeldBy(CHILDREN_ONLY, Child(Other(first)))
      ensures outcome == Supervised ==> forall h :: h in between <==> h in CHILDREN_ONLY && h.process != Child(first)
      ensures outcome == Supervised <==>
                faults !! {SocketpairFails, RandomFails, ExecutableFails} + SpawnFaults(Signer) + SpawnFaults(Frontend)
    {
      during, between := {}, {};
      if SocketpairFails in faults {
        return Failed, during, between;
      }
      table := table + {Holding(Parent, SocketEnd(Signer)), Holding(Parent, SocketEnd(Frontend))};
      outcome, during, between := WithSockets(first);
      Close(SocketEnd(Frontend));
      Close(SocketEnd(Signer));
    }

    /** The part of the launcher that runs under the two deferred closes. */
    method WithSockets(first: Role) returns (outcome: Outcome, during: set<Holding>, between: set<Holding>)
      requires table == {Holding(Parent, SocketEnd(Signer)), Holding(Parent, SocketEnd(Frontend))}
      requires running == {} && started == {} && reaped == {}
      modifies this
      ensures table <= old(table) && running == {} && reaped == started
      ensures outcome == Supervised ==> during == CHILDREN_ONLY && started == {Signer, Frontend}
      ensures outcome == Supervised ==> between == HeldBy(CHILDREN_ONLY, Child(Other(first)))
      ensures outcome == Supervised ==> forall h :: h in between <==> h in CHILDREN_ONLY && h.process != Child(first)
      ensures outcome == Supervised <==>
                faults !! {RandomFails, ExecutableFails} + SpawnFaults(Signer) + SpawnFaults(Frontend)
    {
      during, between := {}, {};
      if RandomFails in faults || ExecutableFails in faults {
        return Failed, during, between;
      }
      var ok := SpawnChild(Signer);
      if !ok {
        return Failed, during, between;
      }
      ok := SpawnChild(Frontend);
      if !ok {
        KillAndReap(Signer);
        return Failed, during, between;
      }
      during := table;
      // The supervisor returns only once both children have been waited for.
      ReapSupervised(first);
      between := table;
      ReapSupervised(Other(first));
      outcome := Supervised;
    }
  }
}
