/**
 The environments the launcher hands to its children
 (cmd/openvox-ca/launcher.go): filtered copies of its own, with the role, the
 daemon marker and the memory share appended. The last occurrence of a key wins,
 as in os/exec.
 */
module ChildEnvironments {
  import opened Options
  import opened Strings
  import opened GoSlices
  import ByteCounts

  // ----- What a process sees

  function Key(entry: string): (k: string) { Before(entry, '=') }

  /** The value of the last entry for the key; an entry without "=" has none. */
  function Lookup(env: seq<string>, key: string): (r: Option<string>) {
    if env == [] then None
    else
      var last := env[|env| - 1];
      if '=' in last && Key(last) == key then Some(last[|key| + 1..]) else Lookup(env[..|env| - 1], key)
  }

  function Kept(env: seq<string>, keep: string -> bool): (r: seq<string>) {
    if env == [] then []
    else
      var last := env[|env| - 1];
      Kept(env[..|env| - 1], keep) + (if keep(Key(last)) then [last] else [])
  }

  lemma {:induction false} LookupSnoc(env: seq<string>, entry: string, key: string)
    ensures Lookup(env + [entry], key) ==
            if '=' in entry && Key(entry) == key then Some(entry[|key| + 1..]) else Lookup(env, key)
  {
    assert (env + [entry])[..|env|] == env;
  }

  /** Filtering by key removes exactly the refused keys and changes no other value. */
  lemma {:induction false} LookupKept(env: seq<string>, keep: string -> bool, key: string)
    ensures Lookup(Kept(env, keep), key) == if keep(key) then Lookup(env, key) else None
  {
    if env == [] {
    } else {
      var rest, last := env[..|env| - 1], env[|env| - 1];
      LookupKept(rest, keep, key);
      if keep(Key(last)) {
        LookupSnoc(Kept(rest, keep), last, key);
      } else {
        assert Kept(rest, keep) + [] == Kept(rest, keep);
      }
    }
  }

  lemma {:induction false} KeyOfPair(key: string, value: string)
    requires '=' !in key
    ensures Key(key + "=" + value) == key && (key + "=" + value)[|key| + 1..] == value && '=' in key + "=" + value
  {
    var entry := key + "=" + value;
    assert entry[|key|] == '=';
    if key != "" {
      KeyOfPair(key[1..], value);
      assert entry[1..] == key[1..] + "=" + value;
    } else {
      assert entry == "=" + value;
    }
  }

  /** Appending a pair sets its key and no other. */
  lemma LookupPair(env: seq<string>, key: string, value: string, wanted: string)
    requires '=' !in key
    ensures Lookup(env + [key + "=" + value], wanted) == if wanted == key then Some(value) else Lookup(env, wanted)
  {
    KeyOfPair(key, value);
    LookupSnoc(env, key + "=" + value, wanted);
  }

  // ----- The filters

  const ROLE := "OPENVOX_CA_ROLE"
  const DAEMON := "OPENVOX_CA_DAEMON"
  const PSK := "OPENVOX_CA_SIGNER_PSK"
  const NOTIFY_SOCKET := "NOTIFY_SOCKET"
  const GOMEMLIMIT := "GOMEMLIMIT"
  const DEFAULT_PASSPHRASE := "OPENVOX_CA_KEY_PASSPHRASE"
  const INTERNAL_KEYS := [ROLE, DAEMON, PSK]

  /** Keys that may reach the network-facing process. */
  predicate FrontendMaySee(passphraseVar: string, key: string) {
    key != DEFAULT_PASSPHRASE && key != passphraseVar && !HasPrefix(key, "BAO_") && !HasPrefix(key, "VAULT_")
  }

  method FilterEnv(env: Slice, keys: seq<string>) returns (r: Slice)
    requires Valid(env)
    ensures Valid(r) && fresh(r.arr) && Contents(r) == Kept(Contents(env), k => k !in keys)
  {
    var keySet: set<string> := {};
    for i := 0 to |keys|
      invariant keySet == set k | k in keys[..i]
    {
      keySet := keySet + {keys[i]};
    }
    assert keys[..|keys|] == keys;
    r := Make(env.len);
    for i := 0 to env.len
      invariant Valid(r) && fresh(r.arr) && r.len <= i && r.cap == env.len
      invariant Contents(r) == Kept(env.arr[..i], k => k !in keys)
    {
      var e := env.arr[i];
      assert env.arr[..i + 1][..i] == env.arr[..i];
      if Key(e) !in keySet {
        r := Append(r, [e]);
      }
    }
  }

  method FrontendEnv(base: Slice, passphraseVar: string) returns (r: Slice)
    requires Valid(base)
    ensures Valid(r) && fresh(r.arr) && Contents(r) == Kept(Contents(base), k => FrontendMaySee(passphraseVar, k))
  {
    r := Make(base.len);
    for i := 0 to base.len
      invariant Valid(r) && fresh(r.arr) && r.len <= i && r.cap == base.len
      invariant Contents(r) == Kept(base.arr[..i], k => FrontendMaySee(passphraseVar, k))
    {
      var e := base.arr[i];
      assert base.arr[..i + 1][..i] == base.arr[..i];
      var k := Key(e);
      if k == DEFAULT_PASSPHRASE || k == passphraseVar {
      } else if HasPrefix(k, "BAO_") || HasPrefix(k, "VAULT_") {
      } else {
        r := Append(r, [e]);
      }
    }
  }

  // ----- What a spawn appends

  function Added(role: string, share: nat): (r: seq<string>) {
    [ROLE + "=" + role, DAEMON + "=" + "1"] +
    (if share > 0 then [GOMEMLIMIT + "=" + ByteCounts.FormatInt(share)] else [])
  }

  /** The environment part of a spawn: clip, then append. The caller's slice keeps its whole backing array. */
  method ChildEnv(base: Slice, role: string, share: nat) returns (env: Slice)
    requires Valid(base)
    modifies base.arr
    ensures base.arr[..] == old(base.arr[..])
    ensures Valid(env) && fresh(env.arr) && Contents(env) == Contents(base) + Added(role, share)
  {
    env := Append(Clip(base), [ROLE + "=" + role, DAEMON + "=" + "1"]);
    if share > 0 {
      env := Append(env, [GOMEMLIMIT + "=" + ByteCounts.FormatInt(share)]);
    }
  }

  /** Two spawns from one slice, whatever its spare capacity, leave two independent environments. */
  method TwoSpawns(base: Slice, signerShare: nat, frontendShare: nat) returns (signer: Slice, frontend: Slice)
    requires Valid(base)
    modifies base.arr
    ensures base.arr[..] == old(base.arr[..])
    ensures Valid(signer) && Valid(frontend) && signer.arr != frontend.arr
    ensures Contents(signer) == Contents(base) + Added("signer", signerShare)
    ensures Contents(frontend) == Contents(base) + Added("frontend", frontendShare)
  {
    signer := ChildEnv(base, "signer", signerShare);
    frontend := ChildEnv(base, "frontend", frontendShare);
  }

  /**
   The same two appends without the clip. The first child keeps its role exactly
   when the base slice had no room for what the second spawn wrote.
   */
  method TwoUnclippedSpawns(base: Slice) returns (signer: Slice, frontend: Slice)
    requires Valid(base)
    modifies base.arr
    ensures Valid(signer) && Valid(frontend)
    ensures Lookup(Contents(frontend), ROLE) == Some("frontend")
    ensures Lookup(Contents(signer), ROLE) == Some(if base.cap - base.len < 2 then "signer" else "frontend")
  {
    signer := Append(base, [ROLE + "=" + "signer", DAEMON + "=" + "1"]);
    frontend := Append(base, [ROLE + "=" + "frontend", DAEMON + "=" + "1"]);
    assert Contents(signer) == Contents(if base.cap - base.len < 2 then signer else frontend);
    AddedRole(Contents(base), "signer");
    AddedRole(Contents(base), "frontend");
  }

  lemma AddedRole(base: seq<string>, role: string)
    ensures Lookup(base + [ROLE + "=" + role, DAEMON + "=" + "1"], ROLE) == Some(role)
  {
    var one := base + [ROLE + "=" + role];
    assert base + [ROLE + "=" + role, DAEMON + "=" + "1"] == one + [DAEMON + "=" + "1"];
    LookupPair(one, DAEMON, "1", ROLE);
    LookupPair(base, ROLE, role, ROLE);
  }

  lemma LookupAdded(base: seq<string>, role: string, share: nat, key: string)
    ensures Lookup(base + Added(role, share), key) ==
            if key == GOMEMLIMIT && share > 0 then Some(ByteCounts.FormatInt(share))
            else if key == DAEMON then Some("1")
            else if key == ROLE then Some(role)
            else Lookup(base, key)
  {
    var one := base + [ROLE + "=" + role];
    var two := one + [DAEMON + "=" + "1"];
    LookupPair(base, ROLE, role, key);
    LookupPair(one, DAEMON, "1", key);
    if share > 0 {
      LookupPair(two, GOMEMLIMIT, ByteCounts.FormatInt(share), key);
      assert base + Added(role, share) == two + [GOMEMLIMIT + "=" + ByteCounts.FormatInt(share)];
    } else {
      assert base + Added(role, share) == two;
    }
  }

  // ----- End to end, for every inherited environment

  function SignerVars(environ: seq<string>, share: nat): (r: seq<string>) {
    Kept(Kept(environ, k => k !in INTERNAL_KEYS), k => k !in [NOTIFY_SOCKET]) + Added("signer", share)
  }

  function FrontendVars(environ: seq<string>, passphraseVar: string, share: nat): (r: seq<string>) {
    Kept(Kept(environ, k => k !in INTERNAL_KEYS), k => FrontendMaySee(passphraseVar, k)) + Added("frontend", share)
  }

  /** Both environments, built as the launcher builds them from its own. */
  method BuildEnvironments(environ: Slice, passphraseVar: string, signerShare: nat, frontendShare: nat)
    returns (signer: Slice, frontend: Slice)
    requires Valid(environ)
    ensures Valid(signer) && Contents(signer) == SignerVars(Contents(environ), signerShare)
    ensures Valid(frontend) && Contents(frontend) == FrontendVars(Contents(environ), passphraseVar, frontendShare)
    ensures forall e :: e in Contents(frontend) ==>
              !Secret(passphraseVar, Key(e)) && Key(e) != "OPENVOX_CA_SIGNER_PSK"
    ensures forall e :: e in Contents(signer) ==> Key(e) != "NOTIFY_SOCKET" && Key(e) != "OPENVOX_CA_SIGNER_PSK"
  {
    forall e
      ensures e in FrontendVars(Contents(environ), passphraseVar, frontendShare) ==>
                !Secret(passphraseVar, Key(e)) && Key(e) != "OPENVOX_CA_SIGNER_PSK"
    {
      EntriesAreClean(Contents(environ), passphraseVar, frontendShare, e);
    }
    forall e
      ensures e in SignerVars(Contents(environ), signerShare) ==>
                Key(e) != "NOTIFY_SOCKET" && Key(e) != "OPENVOX_CA_SIGNER_PSK"
    {
      EntriesAreClean(Contents(environ), passphraseVar, signerShare, e);
    }
    var base := FilterEnv(environ, INTERNAL_KEYS);
    var forSigner := FilterEnv(base, [NOTIFY_SOCKET]);
    signer := ChildEnv(forSigner, "signer", signerShare);
    var forFrontend := FrontendEnv(base, passphraseVar);
    frontend := ChildEnv(forFrontend, "frontend", frontendShare);
  }

  /** Every variable the signer sees: its own role and share, no notification socket, the rest as inherited. */
  lemma SignerSees(environ: seq<string>, share: nat, key: string)
    ensures Lookup(SignerVars(environ, share), key) ==
            if key == GOMEMLIMIT && share > 0 then Some(ByteCounts.FormatInt(share))
            else if key == DAEMON then Some("1")
            else if key == ROLE then Some("signer")
            else if key == NOTIFY_SOCKET || key == PSK then None
            else Lookup(environ, key)
  {
    var base := Kept(environ, k => k !in INTERNAL_KEYS);
    LookupKept(environ, k => k !in INTERNAL_KEYS, key);
    LookupKept(base, k => k !in [NOTIFY_SOCKET], key);
    LookupAdded(Kept(base, k => k !in [NOTIFY_SOCKET]), "signer", share, key);
  }

  /** Every variable the frontend sees: never the passphrase nor any BAO_ or VAULT_ setting. */
  lemma FrontendSees(environ: seq<string>, passphraseVar: string, share: nat, key: string)
    ensures Lookup(FrontendVars(environ, passphraseVar, share), key) ==
            if key == GOMEMLIMIT && share > 0 then Some(ByteCounts.FormatInt(share))
            else if key == DAEMON then Some("1")
            else if key == ROLE then Some("frontend")
            else if key == PSK || !FrontendMaySee(passphraseVar, key) then None
            else Lookup(environ, key)
  {
    var base := Kept(environ, k => k !in INTERNAL_KEYS);
    LookupKept(environ, k => k !in INTERNAL_KEYS, key);
    LookupKept(base, k => FrontendMaySee(passphraseVar, k), key);
    LookupAdded(Kept(base, k => FrontendMaySee(passphraseVar, k)), "frontend", share, key);
  }

  /** Keys no entry of the frontend's environment may have, said by name. */
  ghost predicate Secret(passphraseVar: string, key: string) {
    || HasPrefix(key, "BAO_") || HasPrefix(key, "VAULT_") || key == "OPENVOX_CA_KEY_PASSPHRASE"
    || (key == passphraseVar && !SetBySpawn(key))
  }

  /** Variables the spawn itself appends. */
  ghost predicate SetBySpawn(key: string) {
    key == "OPENVOX_CA_ROLE" || key == "OPENVOX_CA_DAEMON" || key == "GOMEMLIMIT"
  }

  /** For every inherited environment: no secret reaches the frontend, and everything else not the launcher's own does. */
  lemma FrontendHoldsNoSecret(environ: seq<string>, passphraseVar: string, share: nat, key: string)
    ensures Secret(passphraseVar, key) ==> Lookup(FrontendVars(environ, passphraseVar, share), key).None?
    ensures !Secret(passphraseVar, key) && !SetBySpawn(key) && key != "OPENVOX_CA_SIGNER_PSK" ==>
              Lookup(FrontendVars(environ, passphraseVar, share), key) == Lookup(environ, key)
  {
    FrontendSees(environ, passphraseVar, share, key);
  }

  lemma {:induction false} KeptKeys(env: seq<string>, keep: string -> bool, entry: string)
    ensures entry in Kept(env, keep) <==> entry in env && keep(Key(entry))
  {
    if env == [] {
    } else {
      assert env == env[..|env| - 1] + [env[|env| - 1]];
      KeptKeys(env[..|env| - 1], keep, entry);
    }
  }

  lemma AddedKeys(role: string, share: nat, entry: string)
    requires entry in Added(role, share)
    ensures SetBySpawn(Key(entry))
  {
    KeyOfPair(ROLE, role);
    KeyOfPair(DAEMON, "1");
    KeyOfPair(GOMEMLIMIT, ByteCounts.FormatInt(share));
  }

  /** No entry at all, with or without "=", carries a key that must not be there. */
  lemma EntriesAreClean(environ: seq<string>, passphraseVar: string, share: nat, entry: string)
    ensures entry in FrontendVars(environ, passphraseVar, share) ==>
              !Secret(passphraseVar, Key(entry)) && Key(entry) != "OPENVOX_CA_SIGNER_PSK"
    ensures entry in SignerVars(environ, share) ==>
              Key(entry) != "NOTIFY_SOCKET" && Key(entry) != "OPENVOX_CA_SIGNER_PSK"
  {
    var base := Kept(environ, k => k !in INTERNAL_KEYS);
    KeptKeys(environ, k => k !in INTERNAL_KEYS, entry);
    KeptKeys(base, k => FrontendMaySee(passphraseVar, k), entry);
    KeptKeys(base, k => k !in [NOTIFY_SOCKET], entry);
    if entry in Added("frontend", share) {
      AddedKeys("frontend", share, entry);
    }
    if entry in Added("signer", share) {
      AddedKeys("signer", share, entry);
    }
  }
}
