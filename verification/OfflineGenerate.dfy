/**
 The file and issuance ordering of offline `generate`
 (cmd/openvox-ca/generate.go over internal/ca/generate.go): output paths are made
 absolute and checked before anything is issued, the key is written before the
 CA commits to anything, and an unused key is removed.
 */
module OfflineGenerate {
  import opened Options
  import opened Paths

  datatype Content = KeyFor(serial: nat) | CertificateFor(serial: nat) | Unrelated(text: string)

  /** Where an absolute path leads once directories are resolved; different paths may lead to one place. */
  type Place = string

  datatype Disk = Disk(files: map<Place, Content>, dirs: set<string>)

  /** What the CA holds for the subject: its stored certificate, the revoked serials, and the inventory. */
  datatype Authority = Authority(stored: Option<nat>, revoked: set<nat>, inventory: seq<nat>)

  /** How far an issuance gets. Keeping the key in the CA's storage happens only where no path was given. */
  datatype Issuance = FailsBeforeKey | FailsBeforeRevoking | FailsBeforeEvicting | FailsSigning | FailsKeeping | Issues

  datatype Faults = Faults(keyWriteFails: bool, certWriteFails: bool, removeFails: bool)

  datatype Exit = Refused | NotIssued | IssuedUnwritten | Done

  // ----- Output paths

  /** filepath.Abs; a relative path cannot be resolved without a working directory. */
  function Abs(cwd: Option<string>, path: string): (r: Option<string>) {
    if Rooted(path) then Some(Clean(path))
    else if cwd.None? then None
    else Some(Join([cwd.value, path]))
  }

  /** The path as it would be typed from the root. */
  function FromRoot(cwd: string, path: string): (r: string) { if Rooted(path) then path else cwd + "/" + path }

  lemma AbsIsClean(cwd: string, path: string)
    requires Rooted(cwd) && path != ""
    ensures Rooted(FromRoot(cwd, path)) && Abs(Some(cwd), path) == Some(Clean(FromRoot(cwd, path)))
    ensures Rooted(Clean(FromRoot(cwd, path)))
  {
    if !Rooted(path) {
      assert [cwd, path][1..] == [path] && [path][1..] == [];
      assert NonEmpty([path]) == [path] && NonEmpty([cwd, path]) == [cwd, path];
      assert Slashed([cwd, path]) == cwd + "/" + path;
    }
  }

  /**
   The comparison of the two output paths sees through spelling: they are equal
   exactly when, read from the root, both name the same elements, whatever "."
   and "..", doubled slashes or relative forms were typed.
   */
  lemma SpellingsAreCaught(cwd: string, a: string, b: string)
    requires Rooted(cwd) && a != "" && b != ""
    ensures Abs(Some(cwd), a) == Abs(Some(cwd), b) <==> Elements(FromRoot(cwd, a)) == Elements(FromRoot(cwd, b))
  {
    AbsIsClean(cwd, a);
    AbsIsClean(cwd, b);
    CleanKeepsElements(FromRoot(cwd, a));
    CleanKeepsElements(FromRoot(cwd, b));
  }

  // ----- The command

  class Generator {
    const cwd: Option<string>
    const resolve: string -> Place
    const dirOf: string -> string
    const faults: Faults
    var disk: Disk
    var ca: Authority

    constructor (disk: Disk, ca: Authority, cwd: Option<string>, resolve: string -> Place, dirOf: string -> string,
                 faults: Faults)
      ensures this.disk == disk && this.ca == ca && this.cwd == cwd && this.resolve == resolve
      ensures this.dirOf == dirOf && this.faults == faults
    {
      this.disk, this.ca, this.cwd, this.resolve, this.dirOf, this.faults := disk, ca, cwd, resolve, dirOf, faults;
    }

    /** A working directory, where there is one, is absolute. */
    ghost predicate Valid() { cwd.Some? ==> Rooted(cwd.value) }

    /** Nothing is there yet and its directory exists. */
    predicate Writable(abs: string)
      reads this
    {
      resolve(abs) !in disk.files && dirOf(abs) in disk.dirs
    }

    /** Usable as an output; "" means none was asked for. */
    predicate Usable(path: string)
      reads this
    {
      path == "" || (Abs(cwd, path).Some? && Writable(Abs(cwd, path).value))
    }

    /** The absolute form of an output path, "" for none. */
    function Target(path: string): (r: string) {
      if path == "" || Abs(cwd, path).None? then "" else Abs(cwd, path).value
    }

    lemma TargetIsRooted(path: string)
      requires Valid() && path != "" && Abs(cwd, path).Some?
      ensures Rooted(Target(path)) && Target(path) == Abs(cwd, path).value
    {
      if !Rooted(path) {
        AbsIsClean(cwd.value, path);
      }
    }

    /** Make the path absolute and clean; refuse one that exists or has no directory. */
    method PrepareOutputPath(path: string) returns (ok: bool, abs: string)
      requires Valid()
      ensures ok <==> Usable(path)
      ensures ok ==> abs == Target(path) && (abs == "" <==> path == "")
      ensures path == "" ==> ok
      ensures path != "" ==>
                (ok <==> && Abs(cwd, path).Some? && resolve(Abs(cwd, path).value) !in disk.files
                         && dirOf(Abs(cwd, path).value) in disk.dirs)
    {
      if path == "" {
        return true, "";
      }
      var r := Abs(cwd, path);
      if r.None? {
        return false, "";
      }
      TargetIsRooted(path);
      abs := r.value;
      if resolve(abs) in disk.files {
        return false, abs;
      }
      ok := dirOf(abs) in disk.dirs;
    }

    method Write(abs: string, content: Content)
      modifies this`disk
      ensures disk == old(disk).(files := old(disk).files[resolve(abs) := content])
    {
      disk := disk.(files := disk.files[resolve(abs) := content]);
    }

    /** Remove a key whose issuance failed; a missing file is no failure. */
    method RemoveUnusedKey(abs: string)
      modifies this`disk
      ensures disk.dirs == old(disk).dirs
      ensures abs == "" || faults.removeFails ==> disk == old(disk)
      ensures abs != "" && !faults.removeFails ==> disk.files == old(disk).files - {resolve(abs)}
    {
      if abs == "" {
        return;
      }
      if resolve(abs) in disk.files && !faults.removeFails {
        disk := disk.(files := disk.files - {resolve(abs)});
      }
    }

    /** The key could be generated and, where a path was given, handed out. */
    predicate KeyIsOut(keyPath: string, issuance: Issuance) {
      issuance != FailsBeforeKey && (keyPath == "" || !faults.keyWriteFails)
    }

    /** A certificate of the subject that the run puts on the revocation list. */
    function Revokes(keyPath: string, force: bool, issuance: Issuance): (r: set<nat>)
      reads this
    {
      if force && ca.stored.Some? && KeyIsOut(keyPath, issuance) && issuance != FailsBeforeRevoking
      then {ca.stored.value} else {}
    }

    /** The run ends with a certificate: nothing fails, and nothing live is in the way. */
    predicate Obtains(keyPath: string, force: bool, issuance: Issuance)
      reads this
    {
      && KeyIsOut(keyPath, issuance) && (issuance == Issues || (issuance == FailsKeeping && keyPath != ""))
      && (ca.stored.None? || force || ca.stored.value in ca.revoked)
    }

    /**
     Issuance. The key goes out before anything is committed. A predecessor is
     revoked exactly as `Revokes` says, also where the issuance then fails. On
     success no other live certificate of the subject is left. A failure leaves
     the inventory as it was, except where the certificate was already recorded
     when keeping its key failed, and it is then no longer stored.
     */
    method GenerateWithOptions(serial: nat, keyPath: string, force: bool, issuance: Issuance) returns (ok: bool)
      modifies this
      ensures ok <==> old(Obtains(keyPath, force, issuance))
      ensures ca.revoked == old(ca).revoked + old(Revokes(keyPath, force, issuance))
      ensures ok ==> ca.stored == Some(serial) && ca.inventory == old(ca).inventory + [serial]
      ensures ok && old(ca).stored.Some? ==> old(ca).stored.value in ca.revoked
      ensures !ok && !(issuance == FailsKeeping && keyPath == "") ==> ca.inventory == old(ca).inventory
      ensures !ok && ca.inventory != old(ca).inventory ==> ca.stored == None && ca.inventory == old(ca).inventory + [serial]
      ensures disk == (if keyPath != "" && KeyIsOut(keyPath, issuance)
                       then old(disk).(files := old(disk).files[resolve(keyPath) := KeyFor(serial)]) else old(disk))
      ensures ca != old(ca) ==> KeyIsOut(keyPath, issuance)
      // The same said stage by stage.
      ensures issuance == FailsBeforeKey || (keyPath != "" && faults.keyWriteFails) ==>
                !ok && ca == old(ca) && disk == old(disk)
      ensures ca != old(ca) && keyPath != "" ==>
                resolve(keyPath) in disk.files && disk.files[resolve(keyPath)] == KeyFor(serial)
      ensures !force || old(ca).stored.None? ==> ca.revoked == old(ca).revoked
      ensures issuance == FailsBeforeRevoking ==> !ok && ca == old(ca)
      ensures issuance == FailsBeforeEvicting ==> !ok && ca.stored == old(ca).stored && ca.inventory == old(ca).inventory
      ensures old(ca).stored.Some? && !force && old(ca).stored.value !in old(ca).revoked ==> !ok && ca == old(ca)
      ensures issuance == FailsSigning ==> !ok && ca.inventory == old(ca).inventory
      ensures issuance == FailsSigning && KeyIsOut(keyPath, issuance) ==>
                old(ca).stored.None? || force || old(ca).stored.value in old(ca).revoked ==> ca.stored == None
      ensures issuance == FailsKeeping && keyPath == "" ==> !ok
      ensures (issuance == Issues || (issuance == FailsKeeping && keyPath != "")) && (keyPath == "" || !faults.keyWriteFails) ==>
                old(ca).stored.None? || force || old(ca).stored.value in old(ca).revoked ==> ok
      ensures issuance != FailsBeforeKey && issuance != FailsBeforeRevoking && (keyPath == "" || !faults.keyWriteFails) ==>
                force && old(ca).stored.Some? ==> old(ca).stored.value in ca.revoked
    {
      if issuance == FailsBeforeKey {
        return false;
      }
      if keyPath != "" {
        if faults.keyWriteFails {
          return false;
        }
        Write(keyPath, KeyFor(serial));
      }
      if issuance == FailsBeforeRevoking {
        return false;
      }
      if ca.stored.Some? && force {
        ca := ca.(revoked := ca.revoked + {ca.stored.value});
      }
      if issuance == FailsBeforeEvicting {
        return false;
      }
      if ca.stored.Some? && ca.stored.value !in ca.revoked {
        return false;
      }
      ca := ca.(stored := None);
      if issuance == FailsSigning {
        return false;
      }
      ca := ca.(stored := Some(serial), inventory := ca.inventory + [serial]);
      if keyPath == "" && issuance == FailsKeeping {
        ca := ca.(stored := None);
        return false;
      }
      ok := true;
    }

    /** Issue, and write the certificate out, once both paths have been accepted. */
    method IssueTo(keyPath: string, certPath: string, serial: nat, force: bool, issuance: Issuance) returns (exit: Exit)
      requires keyPath != "" ==> resolve(keyPath) !in disk.files
      requires certPath != "" ==> resolve(certPath) !in disk.files
      modifies this
      ensures exit != Refused && (exit == NotIssued <==> !old(Obtains(keyPath, force, issuance)))
      ensures exit != NotIssued ==>
                && faults.certWriteFails == (exit == IssuedUnwritten)
                && ca.stored == Some(serial) && ca.inventory == old(ca).inventory + [serial]
                && (old(ca).stored.Some? ==> old(ca).stored.value in ca.revoked)
      ensures exit == NotIssued && (keyPath != "" || issuance != FailsKeeping) ==> ca.inventory == old(ca).inventory
      ensures ca.revoked == old(ca).revoked + old(Revokes(keyPath, force, issuance))
      ensures forall p :: p in old(disk).files ==> p in disk.files && disk.files[p] == old(disk).files[p]
      ensures exit == NotIssued && !faults.removeFails ==> disk == old(disk)
      ensures exit == Done && certPath != "" ==>
                resolve(certPath) in disk.files && disk.files[resolve(certPath)] == CertificateFor(serial)
      ensures exit != NotIssued && keyPath != "" ==>
                resolve(keyPath) in disk.files &&
                (disk.files[resolve(keyPath)] == KeyFor(serial) <==>
                 !(exit == Done && certPath != "" && resolve(certPath) == resolve(keyPath)))
    {
      ghost var before := disk;
      var ok := GenerateWithOptions(serial, keyPath, force, issuance);
      if !ok {
        RemoveUnusedKey(keyPath);
        if !faults.removeFails && keyPath != "" {
          assert disk.files == before.files;
        }
        return NotIssued;
      }
      if faults.certWriteFails {
        return IssuedUnwritten;
      }
      if certPath != "" {
        Write(certPath, CertificateFor(serial));
      }
      exit := Done;
    }

    /**
     The command, from path preparation to exit. No file that existed before the
     run is deleted or changed. Without a certificate the disk is as it was,
     unless removing the key failed, and without --force nothing was revoked. With
     one, the key is at its path exactly when the certificate was not written to
     the same place.
     */
    method Generate(keyOut: string, certOut: string, serial: nat, force: bool, issuance: Issuance) returns (exit: Exit)
      requires Valid()
      modifies this
      ensures exit == Refused <==>
                !old(Usable(keyOut)) || !old(Usable(certOut)) || (keyOut != "" && Target(keyOut) == Target(certOut))
      ensures exit == Refused ==> ca == old(ca)
      ensures exit == NotIssued ==> !old(Obtains(Target(keyOut), force, issuance))
      ensures exit == IssuedUnwritten || exit == Done ==>
                && old(Obtains(Target(keyOut), force, issuance)) && faults.certWriteFails == (exit == IssuedUnwritten)
                && ca.stored == Some(serial) && ca.inventory == old(ca).inventory + [serial]
                && (old(ca).stored.Some? ==> old(ca).stored.value in ca.revoked)
      ensures exit == NotIssued && (keyOut != "" || issuance != FailsKeeping) ==> ca.inventory == old(ca).inventory
      ensures exit != Refused ==> ca.revoked == old(ca).revoked + old(Revokes(Target(keyOut), force, issuance))
      ensures forall p :: p in old(disk).files ==> p in disk.files && disk.files[p] == old(disk).files[p]
      ensures exit == Refused || (exit == NotIssued && !faults.removeFails) ==> disk == old(disk)
      ensures exit == Done && certOut != "" ==>
                resolve(Target(certOut)) in disk.files && disk.files[resolve(Target(certOut))] == CertificateFor(serial)
      ensures (exit == Done || exit == IssuedUnwritten) && keyOut != "" ==>
                resolve(Target(keyOut)) in disk.files &&
                (disk.files[resolve(Target(keyOut))] == KeyFor(serial) <==>
                 !(exit == Done && certOut != "" && resolve(Target(certOut)) == resolve(Target(keyOut))))
    {
      var ok, keyPath := PrepareOutputPath(keyOut);
      if !ok {
        return Refused;
      }
      var certPath;
      ok, certPath := PrepareOutputPath(certOut);
      if !ok {
        return Refused;
      }
      if keyPath != "" && keyPath == certPath {
        return Refused;
      }
      exit := IssueTo(keyPath, certPath, serial, force, issuance);
    }
  }

  /**
   A forced replacement that fails once the predecessor is revoked leaves the
   subject without a usable certificate.
   */
  method ForcedFailureRevokes() returns (g: Generator, exit: Exit)
    ensures exit == NotIssued && g.ca.revoked == {7} && g.ca.inventory == [7]
  {
    g := new Generator(Disk(map[], {}), Authority(Some(7), {}, [7]), None, p => p, p => p, Faults(false, false, false));
    exit := g.Generate("", "", 8, true, FailsSigning);
  }

  /**
   The comparison cannot see where directories lead: for every two absolute paths
   it tells apart there is a disk on which both lead to one place, so that they
   are not refused and the certificate takes the key's place.
   */
  method AliasedDirectories(keyOut: string, certOut: string) returns (g: Generator, exit: Exit)
    requires Rooted(keyOut) && Rooted(certOut) && Clean(keyOut) != Clean(certOut)
    ensures exit == Done && g.ca.stored == Some(1)
    ensures g.resolve(g.Target(keyOut)) in g.disk.files &&
            g.disk.files[g.resolve(g.Target(keyOut))] == CertificateFor(1)
  {
    g := new Generator(Disk(map[], {"/directory"}), Authority(None, {}, []), None, p => "/store/node",
                       p => "/directory", Faults(false, false, false));
    exit := g.Generate(keyOut, certOut, 1, false, Issues);
  }
}
