# openvox-ca: a verified model of the launcher, its budget, and the repair and reload protocols

This project models, in Dafny 4.11, the parts of openvox-ca where a mistake is
quiet: the process launcher and its supervisor loop, the division of the memory
budget over the process tree, the offline repair of the inventory integrity
value, the reload of foreign CRLs and the chain check that reads them, the lock
and file ordering of two offline commands, and four algorithms of the build
file. `dafny verify dfyconfig.toml` checks everything.

How each part is modelled:

- `Supervisor` is a step relation over the launcher, its two children, the two
  waiting goroutines, the channels and the hard-kill timer. A run is any sequence
  of enabled steps, so its lemmas hold for every interleaving. `Descriptors` adds
  who holds which socket and pipe end on every exit path.
- `GoSlices` models slices as array, length and capacity, with `append` writing in
  place. `ChildEnvironments` builds both children's environments over it.
- `ByteCounts`, `CgroupPaths` and `MemoryBudget` carry the budget from the
  configured texts to the limits in force, over `Paths`. Arithmetic is on an `int64` type, so
  each step is proved not to overflow. Operator-facing texts are structured values.
- `RebuildInventory` runs the repair against an environment function that may
  replace the whole store before any single backend operation, and a set of
  operations that fail. A session keeps every state the store was in, and the
  results speak about those states. The MAC is symbolic: a head is the term it was
  computed as.
- `ClientCrlSets`, `ClientCrlReload` and `ClientRevocation` hold the CRL sets, the
  reload job over the trust domains, and the per-request check. A signature
  verifies under exactly the key that made it. Times are whole seconds.
- `JobGraph`, `Archives`, `Conditions` and `HelmAnnotations` are the build-file
  algorithms. `Migration` and `OfflineGenerate` are the two commands' orderings.

Findings. Eight statements one might expect are false of the code. Each has a
concrete instance, and a statement of what does hold:

- A reload can let a revoked serial go (`MixedNumberingLosesSerial`,
  `UnbelievedSerialIsLost`). For an issuer whose later CRLs name all the earlier
  ones do and more, one pass does so exactly when no guard objects and all it
  offers is older than the latest installed CRL, which is then dated ahead of the
  clock (`PassLosesSerialIff`). No run does so for an issuer that numbers every CRL
  in order (`NumberedRevocationIsForever`), nor, while nothing installed or
  delivered is dated ahead of a clock that does not run back, for any issuer whose
  later CRLs name all the earlier ones do (`BelievedRevocationIsForever`).
- A reload can let go of a serial only a partial CRL named: the guard counts, so
  the replay of an earlier delta passes (`PartialGuardCounts`), and a base dated
  between the installed base and its delta excuses dropping the delta
  (`NewerBaseDropsDelta`). Where whatever is later than a partial CRL names all it
  does, this happens exactly when no guard objects and everything offered for the
  key, full or partial, is older than the latest installed partial CRL
  (`PassLosesPartialSerialIff`). No run does so while every readable file holds a
  CRL as late as that one (`DeliveredPartialIsForever`), nor once a believed full
  CRL has caught up with it (`CaughtUpPartialIsForever`).
- Without a usable key the rebuild does not notice every replacement of the
  inventory (`SubstitutionIsBlessed`). In every environment the counts decide
  (`CountsDecideWithoutKey`); a single replacement before the fold passes exactly
  when it keeps both (`WithoutKeyOnlyCountsBind`). An appended entry never passes
  (`AppendIsNeverBlessed`).
- `generate` compares its two output paths in absolute, cleaned form. That sees
  through every spelling (`SpellingsAreCaught`) and through no directory alias
  (`AliasedDirectories`). The key survives exactly when the certificate is not
  written to the same place (`Generate`).
- A failed `generate --force` can have revoked the predecessor
  (`ForcedFailureRevokes`). `GenerateWithOptions` says exactly when.
- The scan for a top-level disjunction does not know quotes, so a parenthesis in a
  literal hides what follows (`QuotedParenthesisHides`). It agrees with a
  quote-aware reading, whatever surrounds a literal, exactly when the literal is
  balanced and shows no top-level disjunction of its own (`LiteralIsHarmlessIff`).
- What the containment test accepts need not lie beneath the root. It does for
  every path exactly when the root is absolute, is the current directory or does
  not end in ".." (`WithinRootSoundIff`). The one root in use is absolute.
- `scalePercent` is not monotone across its overflow guard. It is monotone on
  either side, and over all values exactly at one percent (`ScaleMonotoneIff`).

Where comments and code disagree, the model follows the code:

- internal/api/clientcrl.go:485-489 argues that a replayed CRL is older on at
  least one axis. That holds under the conditions of the first finding.
- internal/api/clientcrl.go:470-473 argues that a later date cannot be had without
  the issuer's key, so that an advanced base shows the delta was folded in. A base
  published before the delta has a later date than the installed one, too.
- cmd/openvox-ca/launcher_memlimit.go:277-278 puts the loss of dividing first at
  up to 99 bytes per percentage point. It is fewer than `percent` bytes in all.

## Model

| member | source | states |
|---|---|---|
| Supervisor.InvAlways | cmd/openvox-ca/launcher.go:173-187 | in every reachable state each child's one exit result is accounted for, taken or in the channel, and program point, timer, signals sent and notices given agree |
| Supervisor.ReturnsAfterBothExits | cmd/openvox-ca/launcher.go:277-319 | when the loop has returned both children have exited, exactly their two results were consumed, and a crash error names the child received first with its own status |
| Supervisor.NilIffTerminated | cmd/openvox-ca/launcher.go:294-302 | the launcher returns nil exactly when a termination signal was taken before any exit result |
| Supervisor.ReloadsForwarded | cmd/openvox-ca/launcher.go:280-292 | every reload taken is forwarded to the frontend exactly once and to the signer never |
| Supervisor.ReloadsHeard | cmd/openvox-ca/launcher.go:285-291 | a reload is heard exactly if it was taken while the frontend was still running; a forward after its exit reaches no one |
| Supervisor.BothAskedOnce | cmd/openvox-ca/launcher.go:323-334 | no child is asked to stop while the loop selects, both are asked once by the time it waits, and a kill is sent at most once and only after the timer fired |
| Supervisor.StopIsAnnounced | cmd/openvox-ca/launcher.go:294-316 | the service manager hears of no stop while the loop selects, of the cause before either child is asked to go, and by the return exactly once of a termination or exactly twice of a crash, naming the child that came first |
| Supervisor.ChannelsConserve | cmd/openvox-ca/launcher.go:280-302 | the signal channels neither lose nor invent: what arrived is what was taken and what still waits, and at most one termination is ever taken |
| Supervisor.SignalsAreServed | cmd/openvox-ca/launcher.go:280-302 | in every selecting state a reload can arrive and be forwarded, and a termination signal begins the teardown, with nothing else changed |
| Supervisor.TeardownForwardsNothing | cmd/openvox-ca/launcher.go:294-316 | once a teardown has begun no reload is forwarded, and after a return with the timer stopped in time no one is killed |
| Supervisor.CrashIsTheLastWord | cmd/openvox-ca/launcher.go:304-316 | on the crash path the last message the service manager ever sees is the launcher's, naming the child that died first |
| Supervisor.ResendIsNeeded | cmd/openvox-ca/launcher.go:311-315 | a crash run exists in which, before the second notification, the surviving child's message is the last |
| Supervisor.TeardownIsBounded | cmd/openvox-ca/launcher.go:294-334 | a teardown consists of at most sixteen steps besides what arrives or is said from outside |
| Supervisor.TeardownNeverSticks | cmd/openvox-ca/launcher.go:321-334 | until the return some step that happens by itself is possible, because a child that ignores its signal is killed |
| Supervisor.TeardownEnds | cmd/openvox-ca/launcher.go:277-334 | every run that has taken an end of the loop and cannot go on by itself has returned |
| Supervisor.TeardownCompletes | cmd/openvox-ca/launcher.go:277-334 | from every moment of a teardown the return is at most sixteen steps away that happen by themselves, with the same cause |
| Descriptors.Kernel.PskPipe | cmd/openvox-ca/launcher.go:514-529 | the parent is left with the read end alone, or with nothing on any of the three failures |
| Descriptors.Kernel.SpawnChild | cmd/openvox-ca/launcher.go:439-495 | on every path the parent ends up without the socket end and both pipe ends; on success the child holds its two |
| Descriptors.Kernel.KillAndReap | cmd/openvox-ca/launcher.go:501-507 | the child no longer runs, has been waited for, and holds nothing |
| Descriptors.Kernel.RunLauncher | cmd/openvox-ca/launcher.go:90-187 | on every exit path no end is open anywhere, every started child was reaped, while supervising exactly the two children hold the ends, and after the first exit exactly the survivor does |
| Descriptors.Kernel.ReapSupervised | cmd/openvox-ca/launcher.go:484-493 | after a supervised child is reaped no process in the table holds its socket end, and its peer still holds its own |
| GoSlices.Append | cmd/openvox-ca/launcher.go:451-461 | append keeps the old elements, writes in place exactly when the capacity allows, and otherwise leaves the old array alone |
| ChildEnvironments.FilterEnv | cmd/openvox-ca/launcher.go:532-545 | a fresh slice of exactly the entries whose key is not named |
| ChildEnvironments.LookupKept | cmd/openvox-ca/launcher.go:531-545 | filtering hides exactly the refused keys and changes no other variable's value |
| ChildEnvironments.FrontendEnv | cmd/openvox-ca/launcher.go:399-413 | a fresh slice without the passphrase variables and without any BAO_ or VAULT_ key |
| ChildEnvironments.ChildEnv | cmd/openvox-ca/launcher.go:451-470 | the base slice's whole backing array is unchanged and the child's environment is the base plus role, marker and share, on its own array |
| ChildEnvironments.TwoSpawns | cmd/openvox-ca/launcher.go:142-148 | two spawns from one slice, whatever its spare capacity, give two independent environments |
| ChildEnvironments.TwoUnclippedSpawns | cmd/openvox-ca/launcher.go:451-457 | without the clip the first child keeps its role exactly when there was no spare capacity for the second append |
| ChildEnvironments.BuildEnvironments | cmd/openvox-ca/launcher.go:128-148 | both environments, built over slices as the launcher does, have the contents described below; no entry of the frontend's, with or without a value, has a secret's key, and none of the signer's is NOTIFY_SOCKET |
| ChildEnvironments.SignerSees | cmd/openvox-ca/launcher.go:353-368 | for every inherited environment and key: the signer's role and share are its own, NOTIFY_SOCKET and the PSK variable are absent, the rest is as inherited |
| ChildEnvironments.FrontendSees | cmd/openvox-ca/launcher.go:370-413 | the same for the frontend, with the passphrase and every BAO_ and VAULT_ variable absent |
| ChildEnvironments.FrontendHoldsNoSecret | cmd/openvox-ca/launcher.go:399-413 | for every environment, share and key: a BAO_ or VAULT_ variable, the default passphrase and the configured one are absent from the frontend, and everything else that is not the launcher's own is as inherited |
| ChildEnvironments.EntriesAreClean | cmd/openvox-ca/launcher.go:366-413 | the same of the raw entries of both children, whether they hold a value or not |
| ByteCounts.ParseGoByteCount | cmd/openvox-ca/launcher_memlimit.go:493-544 | accepts exactly the words of the runtime's grammar whose scaled value fits in an int64, with that value |
| ByteCounts.StripUnit | cmd/openvox-ca/launcher_memlimit.go:497-518 | the stripped digits and prefix are the only reading the word can have |
| ByteCounts.GuardIsExact | cmd/openvox-ca/launcher_memlimit.go:532-543 | the shift guard refuses exactly the values that would leave the int64 range |
| ByteCounts.WrittenOnce | cmd/openvox-ca/launcher_memlimit.go:482-484 | no word can be read in two ways |
| ByteCounts.ParseConfiguredByteCount | cmd/openvox-ca/launcher_memlimit.go:467-480 | accepts exactly the words of digits, optional IEC prefix and optional B, with their exact values |
| ByteCounts.ConfiguredExtendsGo | cmd/openvox-ca/launcher_memlimit.go:454-466 | wherever the runtime's grammar has a value the configuration grammar has the same one |
| ByteCounts.FormatRoundTrip | cmd/openvox-ca/launcher.go:462-470 | any non-negative int64 printed in decimal is read back unchanged by the runtime's grammar |
| CgroupPaths.WithinRootIff | cmd/openvox-ca/launcher_memlimit.go:387-390 | on absolute paths the string test is containment element by element, and nothing is within "/" |
| CgroupPaths.WithinRelativeRoot | cmd/openvox-ca/launcher_memlimit.go:387-390 | on relative roots, too, the string test is containment element by element, and nothing is within the current directory |
| CgroupPaths.WithinRootSoundIff | cmd/openvox-ca/launcher_memlimit.go:378-390 | over every root: all that the test accepts starts where the root does, passes through it and never climbs after it, if and only if the root is absolute, is the current directory or does not end in ".." |
| CgroupPaths.ClimbingRootEscapes | cmd/openvox-ca/launcher_memlimit.go:387-390 | every relative root that ends in ".." accepts its own parent |
| CgroupPaths.ParseSelfCgroup | cmd/openvox-ca/launcher_memlimit.go:418-432 | the path of the first line with an empty controller list, never the root itself |
| CgroupPaths.SelfCgroupIs | cmd/openvox-ca/launcher_memlimit.go:418-432 | which line decides and what it says: what follows "0::" on the first line that starts so once trimmed, the root and no such line counting as nothing |
| CgroupPaths.CgroupMemoryMaxCandidates | cmd/openvox-ca/launcher_memlimit.go:362-376 | the candidates in order, the mount root's file always present and last |
| CgroupPaths.CandidatesStayBeneath | cmd/openvox-ca/launcher_memlimit.go:362-376 | for every self-cgroup content and every absolute mount root but "/", each candidate lies strictly beneath the root; the specific one has exactly the cgroup's elements and is dropped only for a missing path or a ".." in it; the last is the mount root's own |
| MemoryBudget.ResolvePercent | cmd/openvox-ca/config.go:162-172 | a percentage in 1 to 100: the configured one where it is in range and otherwise ninety, with a note naming the value exactly when it is neither zero nor in range |
| MemoryBudget.ByteCountOrDefault | cmd/openvox-ca/config.go:179-197 | the configured count where it parses and reaches the floor, otherwise the fallback, with the matching note |
| MemoryBudget.ScalePercent | cmd/openvox-ca/launcher_memlimit.go:287-292 | between zero and n, exact below the guard and short by fewer than `percent` bytes above it, with no overflow |
| MemoryBudget.DivideFirst | cmd/openvox-ca/launcher_memlimit.go:276-292 | dividing before multiplying loses fewer than `percent` bytes and never gains |
| MemoryBudget.ScaleMonotoneWithin | cmd/openvox-ca/launcher_memlimit.go:287-292 | on either side of the overflow guard a larger value never scales to less |
| MemoryBudget.ScaleDips | cmd/openvox-ca/launcher_memlimit.go:288-291 | from two percent on, the first value past the guard scales to less than the one before it |
| MemoryBudget.ScaleMonotoneIff | cmd/openvox-ca/launcher_memlimit.go:287-292 | scaling is monotone over all values if and only if the percentage is one |
| MemoryBudget.CeilingIn | cmd/openvox-ca/launcher_memlimit.go:438-452 | a file states a ceiling exactly when its trimmed text is a positive int64 in decimal, and then that one; the empty text and "max" need no case of their own |
| MemoryBudget.ParseSignedIff | cmd/openvox-ca/launcher_memlimit.go:447-450 | the accepted numbers are exactly digits with an optional sign in the int64 range, with that value |
| MemoryBudget.CeilingRoundTrip | cmd/openvox-ca/launcher_memlimit.go:438-452 | a positive int64 printed in decimal with a newline is read back unchanged |
| MemoryBudget.ReadCgroupMemoryMax | cmd/openvox-ca/launcher_memlimit.go:351-358 | the number stated by the first candidate that states one, and its path; none exactly when no candidate does |
| MemoryBudget.TreeMemoryCeiling | cmd/openvox-ca/launcher_memlimit.go:315-341 | GOMEMLIMIT decides, "off" and invalid included; the cgroup answers only where it is unset |
| MemoryBudget.ResolveMemoryBudget | cmd/openvox-ca/launcher_memlimit.go:216-274 | a division conserves the total, which is all of a stated ceiling and the configured percentage of a cgroup's to within that many bytes, exact below the guard; it happens exactly when that leaves the frontend 24 MiB; every note is there on every outcome |
| MemoryBudget.KindIsDecided | cmd/openvox-ca/launcher_memlimit.go:241-263 | when a budget is divided, on the ceiling, the percentage and the reservations alone |
| MemoryBudget.ConfigNotesAre | cmd/openvox-ca/config.go:162-197 | a complaint is reported if and only if its setting cannot be used |
| MemoryBudget.DefaultConfig | cmd/openvox-ca/config.go:151-172 | an empty configuration reserves 8 MiB and 24 MiB, divides nine tenths and draws no complaint |
| MemoryBudget.ShareIsEffective | cmd/openvox-ca/launcher.go:458-470 | a share in the environment is the limit the child applies, and a zero share leaves the inherited GOMEMLIMIT |
| MemoryBudget.LaunchTree | cmd/openvox-ca/launcher.go:135-148 | end to end the three limits in force add up to the total, which withholds what the percentage says, each above its floor; otherwise nothing is overridden, so a stated GOMEMLIMIT too small to divide is applied whole by each child and a cgroup ceiling too small by neither |
| RebuildInventory.FoldChain | internal/storage/storage.go:1524-1533 | the loop computes the chain head |
| RebuildInventory.FoldInjective | internal/storage/storage.go:1512-1556 | equal heads cover equal content |
| RebuildInventory.Session.InventoryIntegrityReport | internal/storage/storage.go:1849-1945 | in every environment each part of the report is what the store held at its own moment, in the order read, the head at the last; it writes nothing |
| RebuildInventory.ReportIsSeen | internal/storage/storage.go:1849-1945 | the same of the report as a function of the environment and the failing operations |
| RebuildInventory.CountsAre | internal/storage/storage.go:1868-1884 | a report counts the rows of a structured store, and the lines of a blob by what they are |
| RebuildInventory.RewriteIsSeen | internal/storage/storage.go:1739-1752 | a written head covers the inventory of a state the store was in during the call, under the call's key |
| RebuildInventory.KeyIsTheStored | internal/storage/storage.go:1391-1443 | in every environment the key answered is the one then stored, one already there is adopted, and only a failing operation prevents an answer |
| RebuildInventory.RebuildFailsOnFault | internal/storage/storage.go:1739-1752 | a rebuild call fails if and only if one of its operations did |
| RebuildInventory.Session.EnsureHmacKey | internal/storage/storage.go:1391-1443 | the stored key if usable, otherwise the minted one, which is then stored |
| RebuildInventory.Session.RebuildInventoryHmac | internal/storage/storage.go:1739-1752 | with no other writer it leaves the store untouched, with the key written, or with key and head written, as far as it got |
| RebuildInventory.Session.Run | cmd/openvox-ca/rebuildinventoryhmac.go:123-409 | for every environment and every set of failing operations: the exit is the verdict on states the store really went through; "Rebuilt" with a usable key leaves a value covering what was reported; against appends it means nothing was added between the two reads; writes happen only behind every gate |
| RebuildInventory.RunIsWitnessed | cmd/openvox-ca/rebuildinventoryhmac.go:123-388 | first report, fold, head write and second report are observations of the store's history in that order |
| RebuildInventory.LockSays | internal/storage/instancelock.go:197-244 | the lock refuses exactly where another process holds it and is enforced exactly where it was free to take, on a backend known not to coordinate across hosts |
| RebuildInventory.GateOpenIff | cmd/openvox-ca/rebuildinventoryhmac.go:135-276 | the gates let a run write if and only if the report mismatches in no legacy store, it was confirmed, no running server holds the store, and it is asserted quiet or its lock is enforced |
| RebuildInventory.GateSays | cmd/openvox-ca/rebuildinventoryhmac.go:135-276 | which report, flags and backend each refusal stands for, each an if-and-only-if |
| RebuildInventory.HeldLockIsRespected | cmd/openvox-ca/rebuildinventoryhmac.go:250-261 | in every environment a lock a running server holds keeps the run from writing anything, whatever was asserted, and is the exit where the earlier gates pass |
| RebuildInventory.WritesOnlyWhereItMay | cmd/openvox-ca/rebuildinventoryhmac.go:135-276 | in every environment a run that wrote anything may write by that condition |
| RebuildInventory.QuietWritesIff | cmd/openvox-ca/rebuildinventoryhmac.go:135-388 | alone and with nothing failing, a run repairs the store if and only if it may write, and otherwise leaves it as it was |
| RebuildInventory.RebuiltCoversWhatWasShown | cmd/openvox-ca/rebuildinventoryhmac.go:338-388 | in every environment, "Rebuilt" with a usable key means the stored value covers the inventory the store held at the reported read, under the key it then held, and that the store held the same content again after the rebuild |
| RebuildInventory.ChangeIsReportedIff | cmd/openvox-ca/rebuildinventoryhmac.go:367-388 | in every run whose second report verifies under the first one's key, the exit is "Rebuilt" if the store held the same content at both inventory reads and the error otherwise |
| RebuildInventory.CountsDecideWithoutKey | cmd/openvox-ca/rebuildinventoryhmac.go:367-388 | in every run without a usable first key whose second report verifies, the exit is "Rebuilt" if both counts agree between the two states read and the error otherwise |
| RebuildInventory.AppendIsNeverBlessed | cmd/openvox-ca/rebuildinventoryhmac.go:354-374 | against an appending environment "Rebuilt" means that no state between the two inventory reads held an entry that was not reported, with a usable key or without |
| RebuildInventory.SwapExit | cmd/openvox-ca/rebuildinventoryhmac.go:282-388 | the exit for every operation at which another inventory could be put in after the report: decided by content or by counts up to the fold, caught as a mismatch up to the second read, unseen after it |
| RebuildInventory.WithoutKeyOnlyCountsBind | cmd/openvox-ca/rebuildinventoryhmac.go:354-374 | without a usable key, a replacement at any operation up to the fold ends in "Rebuilt" if and only if it kept both counts, and the store then verifies over the replacement |
| RebuildInventory.SubstitutionIsBlessed | cmd/openvox-ca/rebuildinventoryhmac.go:363-366 | a session in which the one entry is replaced during the run ends in "Rebuilt" over an entry never shown |
| RebuildInventory.RerunCompletes | cmd/openvox-ca/rebuildinventoryhmac.go:282-299 | after a failure between the two writes a confirmed re-run on a quiet store ends verifying, and a run after that changes nothing |
| ClientCrlSets.SignerOf | internal/api/clientcrl.go:674-681 | an anchor that signed the CRL, or none exactly when no anchor did |
| ClientCrlSets.NewClientCrlSet | internal/api/clientcrl.go:104-144 | each CRL is filed once, under the key that signed it, full and partial apart |
| ClientCrlSets.FiledCounts | internal/api/clientcrl.go:104-144 | every copy of a CRL is filed under its signing key if an anchor of that key may sign, by its scope, and nowhere else |
| ClientCrlSets.NewSetIsolated | internal/api/clientcrl.go:40-80 | nothing is filed under a key that did not sign it or is not an anchor of the bundle |
| ClientCrlSets.ForIssuer | internal/api/clientcrl.go:204-226 | all full CRLs of the issuer, and whether a believed and unexpired one is among them |
| ClientCrlSets.Coverage | internal/api/clientcrl.go:358-374 | exactly the anchor keys with a CRL and with a current one |
| ClientCrlSets.LosesCoverage | cmd/openvox-ca/clientca.go:295-312 | true exactly when some key would lose its CRL or its current CRL |
| ClientCrlSets.ComputeFreshness | internal/api/clientcrl.go:390-432 | the highest number and latest believed date, each the maximum over the list |
| ClientCrlSets.MarksOrderFree | internal/api/clientcrl.go:434-446 | the marks do not depend on the order of the CRLs |
| ClientCrlSets.Regresses | internal/api/clientcrl.go:569-582 | true exactly when some anchor with CRLs on both sides would go backwards |
| ClientCrlSets.PartialsDropped | internal/api/clientcrl.go:538-560 | true exactly when some key would hold fewer partial CRLs without its full CRL having advanced |
| ClientCrlReload.LoadDomainCrls | cmd/openvox-ca/clientca.go:364-401 | nothing without a crl_file; an error exactly for an unreadable or malformed one; otherwise the parsed CRLs whose signing key is a signing anchor's, in order |
| ClientCrlReload.BuildTrustDomains | cmd/openvox-ca/clientca.go:131-194 | succeeds exactly when every bundle and CRL file is usable; domain zero is this CA and domain i+1 belongs to entry i |
| ClientCrlReload.RefreshDomain | cmd/openvox-ca/clientca.go:414-498 | with a crl_file, an accepted pass installs what it verified and moves the stamp to its clock, and any other leaves set and stamp as they were |
| ClientCrlReload.RefreshedIs | cmd/openvox-ca/clientca.go:442-498 | the same of the pass as a function of what is held, delivered and read from the clock |
| ClientCrlReload.RefreshClientCrls | cmd/openvox-ca/clientca.go:412-528 | every domain gets its own entry's decision, domain zero is untouched and the layout stays |
| ClientCrlReload.RunClientCrlReloader | cmd/openvox-ca/clientca.go:536-550 | after any number of ticks each domain with a crl_file holds what its own sequence of passes leaves, stamped with the clock of its last accepted pass or as at the start, and every domain still belongs to its entry |
| ClientCrlReload.IsolationIsForever | cmd/openvox-ca/clientca.go:353-419 | over every run only CRLs signed by this entry's own anchors are ever installed |
| ClientCrlReload.AcceptedPassGuards | cmd/openvox-ca/clientca.go:442-498 | an accepted pass loses no CRL and no current CRL, moves no anchor back, and holds fewer partials only after the base advanced |
| ClientCrlReload.CoverageIsForever | cmd/openvox-ca/clientca.go:282-312 | an anchor key that ever had a CRL never loses it, over every run |
| ClientCrlReload.NumberedRevocationIsForever | internal/api/clientcrl.go:483-522 | no run of reloads, with any clock, drops a revoked serial of an issuer that numbers its CRLs |
| ClientCrlReload.DatedRevocationIsForever | internal/api/clientcrl.go:483-522 | nor one of an issuer that never does, if a believed CRL names it and the clock does not run back |
| ClientRevocation.CheckChainRevocation | internal/api/clientcrl.go:628-668 | admits exactly the chains the policy allows; a refusal names a listed certificate or a missing CRL |
| ClientRevocation.RequireIsStrict | internal/api/clientcrl.go:628-668 | under any policy but "check" and "skip", admission means exactly that every issuer has a CRL dated at most five minutes ahead with an expiry still to come, and that no CRL of it names the certificate |
| ClientRevocation.LaxPolicies | internal/api/clientcrl.go:628-668 | "check" refuses exactly named certificates and "skip" nothing |
| ClientRevocation.RevokedClientStaysRefused | internal/api/clientcrl.go:628-668 | end to end, a client whose chain holds a revoked certificate of a numbering issuer stays refused over every run of reloads |
| ClientRevocation.ReloadKeepsAdmission | cmd/openvox-ca/clientca.go:449-462 | a pass never takes the current CRL from a covered issuer |
| ClientRevocation.RegressedIff | internal/api/clientcrl.go:501-522 | the freshness comparison, on the CRLs: every number offered is below one held, or every believed date offered is before a believed one held, or nothing held is believed and one side has no number |
| ClientRevocation.AdvancedIff | internal/api/clientcrl.go:474-481 | a base has moved on exactly when a believed CRL is offered later than every believed one held, of which there is one, and nothing goes back |
| ClientRevocation.AcceptsIff | cmd/openvox-ca/clientca.go:442-498 | exactly which files a domain takes, on the CRLs held and offered, key by key |
| ClientRevocation.BelievedDateIsReached | internal/api/clientcrl.go:501-522 | where the latest installed CRL is believed, every pass the guards accept offers one at least as late |
| ClientRevocation.BelievedLatestKeepsSerials | internal/api/clientcrl.go:501-522 | for any issuer that never forgets, numbered, unnumbered or mixed, no pass loses a named serial while the latest installed CRL is believed |
| ClientRevocation.PassLosesSerialIff | cmd/openvox-ca/clientca.go:442-498 | for an issuer whose revocations grow with every date, a pass loses a serial if and only if no guard objects and every CRL it offers for the key is older than the latest installed one, which is then dated ahead of the clock |
| ClientRevocation.BelievedRevocationIsForever | internal/api/clientcrl.go:483-522 | over every run no issuer that never forgets loses a serial, however it mixes numbered and unnumbered CRLs, while nothing installed or delivered is dated ahead of a clock that does not run back |
| ClientRevocation.MixedNumberingLosesSerial | internal/api/clientcrl.go:501-522 | three accepted passes of genuine CRLs after which a serial named by a believed CRL is gone |
| ClientRevocation.UnbelievedSerialIsLost | internal/api/clientcrl.go:390-432 | an accepted pass drops a serial whose only CRL is dated ahead of the clock, also where an earlier clock reading had believed it |
| ClientRevocation.PartialsAreNotFewer | internal/api/clientcrl.go:538-560 | every pass the guards accept offers a newer base or as many partial CRLs of the key |
| ClientRevocation.PassLosesPartialSerialIff | internal/api/clientcrl.go:464-560 | over every base, a pass lets the check forget a serial a partial CRL named if and only if no guard objects and everything it offers for the key, full or partial, is older than the latest installed partial CRL |
| ClientRevocation.DeliveredPartialIsForever | internal/api/clientcrl.go:524-560 | over every run a serial a partial CRL named stays refused, while every readable file holds a CRL of the key dated no earlier |
| ClientRevocation.CaughtUpPartialIsForever | internal/api/clientcrl.go:501-560 | once a full CRL as late as the partial one is installed the guards alone keep its serials named, while nothing is dated ahead of a clock that does not run back |
| ClientRevocation.PartialGuardCounts | internal/api/clientcrl.go:538-560 | delivering an earlier genuine delta in place of the later one, over the same base, is installed and its serial is no longer refused |
| ClientRevocation.NewerBaseDropsDelta | internal/api/clientcrl.go:545-555 | delivering only a base dated between the installed base and its delta is installed and the delta's serial is no longer refused |
| JobGraph.Walk.DependsOnAggregate | magefile.go:2940-2957 | a true answer has a path; a false one leaves everything newly seen closed without the aggregate |
| JobGraph.Downstream | magefile.go:2940-2962 | reachability by needs edges, for every finite graph, cyclic ones included |
| JobGraph.UncoveredJobs | magefile.go:2958-2968 | an error for exactly the jobs that cannot reach the aggregate and are not in its needs |
| Archives.PlainIff | magefile.go:4262-4264 | which names pass the plain-filename check |
| Archives.CreateTarGz | magefile.go:9841-9892 | the files in order with their modes, or a failure exactly when one is missing |
| Archives.PackedAt | magefile.go:9868-9889 | the i-th entry is the i-th file, regular, in its given mode, with its content |
| Archives.ExtractTarGz | magefile.go:4235-4320 | succeeds exactly when all names are plain and each wanted name's first entry is there, regular, within the bound and new; then exactly those are written, in full; a failure changes no file that was there |
| Archives.ExtractableIff | magefile.go:4262-4318 | extraction succeeds exactly when every entry name is plain and every wanted name is free and has a regular first entry within the bound |
| Archives.RoundTrip | magefile.go:9841-9892 | extracting packed files into an empty directory gives them back byte for byte, in their packed modes |
| Conditions.TopLevelOr | magefile.go:1181-1198 | a disjunction operator at depth zero |
| Conditions.ScanDecidesRoot | magefile.go:1178-1198 | for every printed expression tree the scan is true if and only if the root is a disjunction |
| Conditions.HarmlessQuotesAgree | magefile.go:1178-1198 | on every text whose literals are all balanced and without a top-level disjunction the scan agrees with the quote-aware reading |
| Conditions.LiteralIsHarmlessIff | magefile.go:1181-1198 | a literal leaves the two readings in agreement in every surrounding code if and only if it is such a literal |
| Conditions.QuotedParenthesisHides | magefile.go:1181-1198 | a text whose quoted parenthesis hides its top-level disjunction |
| HelmAnnotations.CollectAnnotations | magefile.go:4882-4903 | the line-to-version map of the accepted matches |
| HelmAnnotations.AnnotatedIs | magefile.go:4883-4903 | a line is annotated exactly when some complete match names the Helm releases there, with the value of the last |
| HelmAnnotations.MatchEntries | magefile.go:4905-4923 | the deleting loop ends with exactly the unused annotations, or names an entry without a matching one |
| HelmAnnotations.VerifyHelmAnnotations | magefile.go:4860-4930 | passes if and only if entries and accepted annotations are in bijection; the lowest stray is named |
| HelmAnnotations.MatchesIsMapEquality | magefile.go:4883-4929 | that bijection is equality of the two line-to-version maps |
| Migration.Migrator.LockStore | cmd/openvox-ca-ctl/migrate.go:220-231 | takes the lock, or closes the backend handle on failure |
| Migration.Migrator.Release | cmd/openvox-ca-ctl/migrate.go:226-230 | closes the backend before the lock goes |
| Migration.Migrator.Migrate | cmd/openvox-ca-ctl/migrate.go:112-196 | in every run and at every moment a locked store that is open is still locked, blobs move only between two locked stores, and at the end nothing is open or held |
| Migration.UnlockFirstIsUnsafe | cmd/openvox-ca-ctl/migrate.go:137-147 | the order two separate deferred calls would give violates that |
| OfflineGenerate.SpellingsAreCaught | cmd/openvox-ca/generate.go:191-197 | the two prepared paths are equal if and only if, read from the root, they name the same elements, however they were typed |
| OfflineGenerate.Generator.PrepareOutputPath | cmd/openvox-ca/generate.go:349-371 | accepts exactly an absent file in an existing directory, or no path, and returns it absolute and clean |
| OfflineGenerate.Generator.RemoveUnusedKey | cmd/openvox-ca/generate.go:337-345 | removes the key file and nothing else |
| OfflineGenerate.Generator.GenerateWithOptions | internal/ca/generate.go:211-401 | the key is out before anything is committed; exactly when a predecessor is revoked, also on failure; on success no other live certificate of the subject is left; what a failure leaves in the inventory |
| OfflineGenerate.Generator.Generate | cmd/openvox-ca/generate.go:183-303 | no earlier file is touched, a failed issuance leaves no key, revocation happens exactly as forced, and the key survives exactly when the certificate went elsewhere |
| OfflineGenerate.ForcedFailureRevokes | internal/ca/generate.go:286-345 | a forced run that fails after revoking leaves the predecessor revoked and nothing issued |
| OfflineGenerate.AliasedDirectories | cmd/openvox-ca/generate.go:191-197 | for every two absolute paths told apart there is a disk on which they are one place, are not refused, and the certificate replaces the key |

## Left out

- Cryptography, X.509, PEM, YAML and regular expressions: parsed values, symbolic MACs and signatures stand for them.
- Issuance inside internal/ca: its phases and their order are modelled, signing and serial allocation are not; a serial consumed by a signing that fails is not counted.
- `goroutine_group.go` and `k8sexport.go`: stop-and-join and a retry timer, which would only add easy members.
- The simple ticker jobs, cobra wiring, HTTP client, metrics and log texts: plumbing around the modelled decisions.
- `shouldWarnDiscards`, `checkModuleTidy` and the interval bounds of `config.go`: easy members.
- Gzip and tar framing, umask, symlinks in the extraction directory: an archive is its list of entries.
- The wall-clock length of the drain and crash budgets: the timer may fire at any moment after it is armed.
- Supervisor: the select loop is a step relation on values, not a method, so goroutines and channels are states and events; signal channels are unbounded counters, which allows every run a bounded one has.
- ClientCrlReload.DatedRevocationIsForever: asks for a believed CRL and a clock that does not run back, because a CRL dated ahead of the clock is not compared; UnbelievedSerialIsLost shows both are needed.
- OfflineGenerate.Generator.Generate: other processes do not touch the output paths during the run.
