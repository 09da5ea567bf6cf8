# Certarium: verified model of the certificate lifecycle, the backup and the audit trail

Certarium keeps a small certification authority on disk: a serial counter, one directory per certificate bundle with a
manifest, and per issuer a status index for OCSP, a published CRL and a CRL number. Every mutation is a chain of
single durable changes (a rename, a certificate file, a state file), any of which may fail, and the machine may stop
between any two of them. This project models that state as it is on disk and proves what holds after every prefix of
every run; it does the same for the encrypted backup with its restore transaction, the printed extension
configuration and the audit log.

## How it is organised

| file | contents |
|---|---|
| `Names.dfy`, `Text.dfy`, `Order.dfy` | file names, splitting and joining, sorting by a key |
| `Inventory.dfy` | the durable state, the projection of manifests to index rows and revoked serials, well-formed states |
| `Machine.dfy` | the lifecycle as a state machine: one label per durable change, legal runs, the invariant |
| `Theorems.dfy` | what holds of every run |
| `Commands.dfy` | the calls of the tool in a publication and an issuance |
| `Engine.dfy` | the disk, serial allocation, staged issuance, staged CRL publication, OCSP |
| `Service.dfy` | issue, revoke, list, CRL, OCSP, with the refresh that rebuilds the status of an issuer |
| `History.dfy`, `Listing.dfy` | any sequence of calls, each complete, failed or cut short: reported revocations, and how long a serial stays on the CRL |
| `Witnesses.dfy` | histories that break a promise of the documents |
| `Requests.dfy`, `Subject.dfy`, `ExtensionConfig.dfy` | request validation, the DNS name scanner, the subject text and its reading, the configuration printer and its reader |
| `Pbkdf2.dfy`, `Frame.dfy` | key derivation and the encrypted frame |
| `Paths.dfy`, `Archive.dfy` | lexical path cleaning, the archive filter, the archive writer and reader |
| `RestoreTransaction.dfy`, `Backup.dfy` | publish and rollback, create and restore as a whole |
| `AuditTrail.dfy` | the audit wrapper and the append-only log |

The classes `Disk`, `Engine` and `PkiService` change the disk in the order of the code, with a free choice of failure
at every step. `Disk` carries a ghost list of labels: every assignment to the disk must be a step of the machine in
`Machine.dfy`, so what is proved there of every legal run holds of everything these methods do, also when they stop
early. The disk and the directories of a restore count the operations that failed, those of a rollback apart: a call
that reports an error without a failed operation has a reason in its arguments or in the state, and its contract names
it. The manifests whose read fails during a call, and the files whose reads or writes fail during a backup or restore,
are arbitrary arguments of the call. Every call of the tool is recorded with its outcome, and every step of an audited
request as an event. A reader without the lock sees a state after some prefix of the run at each of its reads. Audited
requests overlap: between any two steps of one, others may take theirs. `openssl ca` has the small semantics of
`RegisterRow`, `RevokeRow` and `GenerateFrom`. SHA-256, JSON, tar, HMAC and AEAD are functions with the laws stated in
`Lawful`, `TarLaw`, `Prf` and `AeadLaw`. The tool's reading of `-subj` is that of its documentation: backslash escapes,
dropped empty values, and, as an argument, whether a plus sign separates attributes. The constants of a format stand in
the code once and in the statements about it as literals.

## Where the code does less than its documents promise

In each case the code is modelled as it is, a history of its calls or an input shows the failure, and the exact
condition under which the promise holds is proved.

* *Revocation can be under-reported.* `refreshIssuer` passes over a manifest it cannot read
  (internal/webapp/pki_service.go:177-180). A revocation whose refresh could not read the target's own manifest then
  succeeds with an empty CRL (`UnreadTargetIsUnderReported`), and any later refresh that cannot read a revoked
  manifest withdraws its revocation (`UnreadManifestWithdrawsRevocation`). Over every history of calls, revocation is
  reported at every point if and only if no refresh that replaced a file passed over a revoked manifest and no
  completed revocation passed over its own (`NeverUnderReportedIffRead`).
* *A stopped revocation is taken back.* With every manifest readable, a revocation that reports an error after its CRL
  was published leaves its manifest valid, and the next publication takes the serial off again
  (`StoppedRevocationIsWithdrawn`). `SerialStaysListedIff` says exactly when a serial stays on every later CRL.
* *CRL numbers can repeat.* docs/SPEC-revocation-crl.md:11-12 promises increasing numbers. A publication that stops
  after the CRL was replaced and before its number was lets the next one publish other content under the same number
  (`InterruptedPublicationRepeatsNumber`). Numbers never decrease, and two CRLs have different numbers if and only if
  a number update lies between them (`CrlNumbersIncreaseIff`; section 5.2.3 of RFC 5280 asks for increasing numbers).
* *Rollback is not all or nothing.* A tree installed where nothing was before stays after a failed restore
  (internal/backup/backup.go:395, `RollbackLeavesInstalled`). `RollbackCompleteIff` says exactly when every destination
  is restored, and `RollbackAlwaysCompleteIff` when it is wherever the publication stops: if and only if every
  destination but the last, here the data directory, existed before.
* *Create can write what Restore refuses.* The archive limit is compared before the end marker and the frame are added,
  and a file name that JSON cannot carry makes the hash manifest disagree. `BackupRoundTrip` gives the exact condition.
* *The block counter of the key derivation wraps* beyond 2^32 - 1 blocks, which the standard excludes
  (`CounterReachesZero`, `CounterIsBlockNumberIff`).
* *A torn audit append spoils the next record.* The remains of a line without its line feed stay in the file and the
  next, acknowledged record is glued to them (`TornAppendSpoilsNext`). A record is a line of its own if and only if the
  file ended at a line boundary (`RecordIsLineIff`).

* *An accepted common name can lose its end.* The characters refused in a common name (internal/pki/pki.go:39) leave out
  the plus sign, which separates attributes where the tool reads multi-valued names: a trailing one is dropped and one
  inside makes the request fail (`PlusIsLost`). `SubjectIsCommonNameIff` says exactly when the subject is the name.

## Model

| member | source | states |
|---|---|---|
| Machine.ReachableIsWellFormed | internal/webapp/pki_service.go:80-201 | in every state of every run, complete or cut short: the counter is in range, all certificates on disk have distinct serials below it, visible directories have accepted names and manifests that agree with their files, staging directories have no manifest, indexes and CRLs list only inventory serials, the two serials of a pair always agree |
| Machine.StepKeepsWellFormed | internal/pki/engine.go:126-204 | each single durable change keeps that invariant |
| Machine.PrefixLegal | internal/pki/engine.go:192-202 | stopping a run after any step leaves a run, so what holds of every run holds after a crash anywhere |
| Machine.RefreshIsCoherent | internal/webapp/pki_service.go:166-195 | what a refresh publishes treats all serials of one bundle alike, whatever manifests it passed over |
| History.NeverUnderReportedIffRead | internal/webapp/pki_service.go:132-201 | over every history of calls, each complete, failed or cut short, every revoked manifest is revoked in CRL and index at every point if and only if no refresh that replaced a file passed over a revoked manifest and no completed revocation passed over its own |
| History.RevocationCleanIff | internal/webapp/pki_service.go:150-157 | any beginning of a revocation keeps revocations reported exactly under that condition |
| History.IssueCleanIff | internal/webapp/pki_service.go:80-130 | any beginning of an issuance keeps revocations reported exactly when its refresh, if it replaced a file, passed over no revoked manifest |
| History.PublicationCleanIff | internal/webapp/pki_service.go:160-201 | the same for any beginning of a publication |
| History.IssuanceCleanIff | internal/pki/engine.go:249-356 | issuing certificates keeps a run clean or not as it was |
| History.IssuanceKeepsRevoked | internal/pki/engine.go:249-356 | issuing certificates leaves every bundle revoked or not as it was |
| Theorems.NeverUnderReportedIffClean | internal/webapp/pki_service.go:132-201 | over any run, every revoked manifest is revoked in CRL and index at every point if and only if every step was clean |
| Theorems.StepReportsIffClean | internal/webapp/pki_service.go:150-156 | from a state with all revocations reported, one step keeps them reported if and only if it passes over no revoked manifest and turns only covered manifests |
| Witnesses.UnreadTargetIsUnderReported | internal/webapp/pki_service.go:177-180 | a history of two complete calls after which a revoked bundle is not on the CRL, because its manifest was not read |
| Witnesses.UnreadManifestWithdrawsRevocation | internal/webapp/pki_service.go:177-180 | a history of complete calls in which a reported revocation is withdrawn by an issuance that does not read its manifest |
| Witnesses.StoppedRevocationIsWithdrawn | internal/webapp/pki_service.go:150-156 | a history with every manifest readable in which a revocation that stopped after its CRL was published is taken off the next CRL |
| Witnesses.InterruptedPublicationRepeatsNumber | internal/pki/engine.go:192-202 | a history that publishes two CRLs with different content under one number |
| Witnesses.IssueRuns | internal/pki/engine.go:249-292 | from every reachable state a new bundle can be issued to the end, whatever its refresh cannot read, and what it leaves |
| Witnesses.RevocationRuns | internal/webapp/pki_service.go:132-158 | from every reachable state a valid bundle can be revoked to the end, whatever its refresh cannot read, and what it leaves |
| Listing.SerialStaysListedIff | internal/webapp/pki_service.go:160-201 | over every history a serial on the published CRL stays on all later ones if and only if each later call that replaced the CRL read the bundle's manifest and was for this bundle or came after its completed revocation |
| Listing.CallCrlIff | internal/webapp/pki_service.go:166-195 | whether a serial is on the CRL after a call, complete or cut short |
| Listing.RevokedSince | internal/webapp/pki_service.go:150-156 | a bundle is revoked at a point of a history if and only if it was so before or a call in between completed its revocation |
| Theorems.SerialsAreUnique | internal/pki/pki.go:77-94 | over a whole run serials are strictly increasing, not zero, below the durable counter, and the 64-bit counter never wraps |
| Theorems.CrlNumbersCountCompletions | internal/pki/engine.go:155-202 | the numbers of two published CRLs of an issuer differ by the number updates completed in between |
| Theorems.CrlNumbersIncreaseIff | internal/pki/engine.go:155-202 | CRL numbers never decrease, and increase if and only if an update of the number file lies in between |
| Theorems.CrlNumberIs | internal/pki/engine.go:155-163 | the number of a published CRL is 1000 in hexadecimal plus the completed updates of the number file before it |
| Theorems.PublishedNumberNotAhead | internal/pki/engine.go:155-163 | the published CRL number never exceeds the durable one |
| Theorems.BundleAtomicity | internal/webapp/pki_service.go:185-195 | in every index and CRL ever on disk the serials of a bundle have one status, also before the bundle existed |
| Theorems.TlcpPairAtomicity | internal/pki/engine.go:167-177 | signing and encryption certificate of a TLCP bundle have distinct serials that are both revoked or both not, in every index and CRL ever on disk |
| Theorems.InventoryOnlyGrows | internal/webapp/pki_service.go:150-157 | over a run no bundle disappears or changes serials, and a manifest changes at most from valid to revoked |
| Theorems.RevokedIsAbsorbing | internal/webapp/pki_service.go:144-146 | a revoked manifest stays as it is for the rest of the run |
| Theorems.VisibleBundlesAreUsable | internal/webapp/pki_service.go:98-125 | a visible manifest carries its directory's name, which can be routed and listed; its certificate files match its serials one to one |
| Inventory.RowOfBundle | internal/webapp/pki_service.go:170-193 | for every serial of a bundle, what a refresh registers and revokes, for any target and any set of manifests passed over |
| Inventory.LookupMatchesManifests | internal/webapp/pki_service.go:166-195 | a lookup in the full projection answers unknown, revoked or good (section 2.2 of RFC 6960) exactly as the manifests say |
| Inventory.SkippingShowsInRows | internal/webapp/pki_service.go:177-180 | a refresh publishes the whole inventory if and only if it read every manifest of its kind |
| Inventory.OneOwner | internal/pki/engine.go:260-263 | a serial belongs to one bundle only |
| Inventory.CertFilesOfBundle | internal/webapp/pki_service.go:185-189 | the files a refresh picks from a bundle's manifest are exactly its certificates |
| Inventory.ManifestOfBundle | internal/webapp/pki_service.go:104-117 | the files of a new manifest are, for each certificate, that file and its key, the signing pair first, and its serials are those of the certificates in this order |
| Names.RouteSegmentMeaning | internal/webapp/pki_service.go:410-412 | the route filter admits exactly the nonempty names other than dot and dot-dot without slash, backslash and NUL; its Base comparison adds nothing |
| Names.AcceptedNamesAreRoutable | internal/pki/pki.go:18 | every bundle name that issuance accepts is a safe route segment and not hidden |
| Engine.Disk.Commit | internal/pki/engine.go:487-492 | a durable change is a step of the machine and is recorded as such |
| Engine.Engine.NextSerial | internal/pki/pki.go:77-94 | returns the counter and leaves it one higher; an error, for a failed operation or an exhausted counter, leaves the counter or burns one number |
| Engine.Engine.BeginBundle | internal/pki/engine.go:365-385 | opens a hidden empty directory for a name that is not taken; a taken name is refused without any change |
| Engine.Engine.RunAll | internal/pki/engine.go:387-394 | runs the commands in order; the first failure ends the run and leaves the certificates of the commands before it; success means that all of them succeeded |
| Engine.Engine.PublishBundle | internal/pki/engine.go:438-443 | the rename takes effect even when the directory sync then reports an error |
| Engine.Engine.BuildAndPublish | internal/pki/engine.go:281-292 | a bundle with fresh serials becomes visible, whole, only after every command succeeded, and otherwise nothing visible changes; it fails only when an operation fails |
| Engine.Engine.IssueRsa | internal/pki/engine.go:249-292 | the bundle appears whole with one fresh certificate or not at all; a taken name is refused as existing unless an operation fails; the calls are exactly its command list, every certificate signed from its own key and checked afterwards; a timeout means that the last tool call failed |
| Engine.Engine.IssueTlcp | internal/pki/engine.go:294-356 | the same for a pair, with two distinct fresh serials |
| Commands.RsaCertified | internal/pki/engine.go:276-281 | the certificate is signed from the request of its own key, and checked after that |
| Commands.TlcpCertified | internal/pki/engine.go:332-337 | both certificates of a pair are signed from the requests of their own keys, and checked after that |
| Engine.Engine.NextSerialPair | internal/pki/engine.go:305-312 | a pair gets two consecutive serials; a failure only burns numbers |
| Engine.SerialIsNew | internal/pki/engine.go:167-172 | no two certificates of a collected list share a serial, so no registration collides |
| Engine.Engine.RegisterAll | internal/pki/engine.go:167-172 | registrations in order up to the first tool failure; it succeeds exactly when none failed, so a duplicate serial is never the reason |
| Engine.Engine.RevokeAll | internal/pki/engine.go:173-177 | revocations in order up to the first tool failure; it succeeds exactly when none failed, so a row revoked already is never the reason; exactly the given serials end revoked |
| Engine.Engine.BuildDatabase | internal/pki/engine.go:166-177 | all registrations before any revocation; it succeeds exactly when every call did, with the rows of the inventory as result |
| Commands.PlanIsComplete | internal/pki/engine.go:166-184 | the commands of a publication are one registration of each certificate, then one revocation of each revoked one, then the generation and last the check of the CRL |
| Engine.GeneratedListsRevoked | internal/pki/engine.go:178-184 | the generated CRL lists exactly the revoked serials of the inventory |
| Engine.Engine.StageCrl | internal/pki/engine.go:131-191 | everything before the first rename leaves the disk alone; a CRL is staged only after every certificate was registered once, then every revoked one revoked once, then the CRL generated and, last, checked, all successfully |
| Engine.Engine.ReplaceFiles | internal/pki/engine.go:192-203 | CRL, index and number are replaced in this order, and a failure stops after any of them: what each stage leaves |
| Engine.Engine.PublishCrl | internal/pki/engine.go:126-204 | nothing is replaced before every registration, every revocation, the generation and the check succeeded, each made once and in this order; CRL, index and number are then replaced in this order; a failed tool call implies that nothing published changed; success, certain unless an operation fails, leaves rows, CRL and next number of the inventory |
| Engine.Engine.RespondOcsp | internal/pki/engine.go:206-247 | an answer is the status in the index on disk; an empty or oversized request runs no tool |
| Service.PkiService.CollectCerts | internal/webapp/pki_service.go:171-194 | the two lists hold every certificate of every manifest read, once, split by state with the target counted as revoked |
| Service.CollectedIsInventory | internal/webapp/pki_service.go:171-195 | these lists are exactly the registered and the revoked serials of the inventory |
| Service.PkiService.RefreshIssuer | internal/webapp/pki_service.go:160-201 | the steps are a beginning of a publication, and none after a failed tool call; success leaves the projection of the inventory; a timeout means that the last tool call failed |
| Service.PkiService.RecordBundle | internal/webapp/pki_service.go:122-128 | the manifest is written first and the publication follows, stopping anywhere |
| Service.PkiService.Issue | internal/webapp/pki_service.go:80-130 | success leaves a new manifest with fresh serials and the projection of the inventory; a taken name is answered as a conflict unless an operation fails, and nothing else is; failure, for a reason in the request, the counter or a failed operation only, leaves a beginning of these steps; other bundles never change |
| Service.PkiService.RevokeListed | internal/webapp/pki_service.go:150-157 | the publication comes first and the manifest last; success means all of it, a failure leaves every manifest as it was |
| Service.PkiService.Revoke | internal/webapp/pki_service.go:132-158 | a bundle revoked already is returned without any change; an unknown one is refused; otherwise as above, and it succeeds unless an operation fails |
| Service.RevokedIsCoveredIffRead | internal/webapp/pki_service.go:150-157 | after a successful revocation CRL and index list the bundle if and only if the refresh read its manifest |
| Service.RevocationProjectsResult | internal/webapp/pki_service.go:181-184 | what a revocation publishes is the projection of the inventory it leaves |
| Service.IssueHealsIndex | internal/webapp/pki_service.go:126-130 | from any reachable state, after a successful issuance every lookup answers as the manifests say if and only if the refresh read every manifest of the kind |
| Service.RevokeHealsIndex | internal/webapp/pki_service.go:150-157 | the same after a successful revocation |
| Service.UnreadIsUnknown | internal/webapp/pki_service.go:177-180 | a serial of a manifest passed over is answered unknown although the inventory knows it |
| Service.PkiService.List | internal/webapp/pki_service.go:231-253 | read without the lock while other calls go on: every record is that of its manifest at some moment of the call, in ascending order, and no readable bundle that was visible at the start is missing |
| Service.ShownStays | internal/webapp/pki_service.go:231-253 | a bundle seen when the directory was read is still there whenever its manifest is read later |
| Order.BelowMeaning | internal/webapp/pki_service.go:251 | one identifier is sorted before another exactly when it is a proper beginning of it or has the smaller character at the first difference |
| Service.PkiService.PublishedCrlOf | internal/webapp/pki_service.go:203-218 | the CRL as it is on disk, and an error exactly when there is none or the read fails |
| Service.PkiService.Ocsp | internal/webapp/pki_service.go:220-229 | an answer is the status in the issuer's index |
| Requests.ValidDnsName | internal/pki/pki.go:165-183 | the split-and-scan loops accept exactly the names of valid labels |
| Requests.ScannerIsAutomaton | internal/pki/pki.go:165-183 | these are exactly the names of a one-pass automaton for letter-digit-hyphen labels (section 2.1 of RFC 1123) with an optional leading wildcard |
| Requests.ValidateRequest | internal/pki/pki.go:35-56 | a request is accepted if and only if every field obeys its rule |
| Requests.MatchesName | internal/pki/pki.go:18 | a name is accepted if and only if it has 1 to 64 characters, the first a letter or digit and the others letters, digits, dots, underscores or hyphens |
| Subject.SubjectIsCommonNameIff | internal/pki/engine.go:278 | the subject of an accepted request is read as its common name alone, if and only if no plus sign in it is taken for a separator; nothing but a beginning of the name can ever be read from it |
| Subject.PlusIsLost | internal/pki/pki.go:39 | accepted names that a tool reading multi-valued names cuts off or refuses |
| ExtensionConfig.BuildExtensionConfig | internal/pki/profile.go:16-53 | prints exactly the lines of the configuration for a valid request and kind and refuses every other; read back, the text carries the key usage of its kind, "critical,CA:FALSE", "serverAuth" and the other settings once each, "@alt_names" exactly when there are alternatives, the DNS names and addresses in order, and nothing else |
| ExtensionConfig.FormatRoundTrip | internal/pki/profile.go:16-53 | reading printed lines gives back their assignments and sections for all printable items |
| ExtensionConfig.ConfigRoundTrip | internal/pki/profile.go:16-53 | reading the configuration of a valid request gives exactly its assignments, and they carry these settings |
| ExtensionConfig.ConfigPrintable | internal/pki/pki.go:35-56 | nothing in a valid request can break a line or open a section |
| ExtensionConfig.NumberedKeysDistinct | internal/pki/profile.go:43-52 | no numbered key is assigned twice |
| ExtensionConfig.DecimalIsInjective | internal/pki/profile.go:43-52 | distinct numbers print differently |
| Pbkdf2.DeriveBlock | internal/backup/backup.go:310-324 | the in-place loops leave the exclusive or of U_1 to U_c (section 5.2 of RFC 8018), a count below one acting as one |
| Pbkdf2.BigEndianValue | internal/backup/backup.go:311-312 | the block number enters as four octets that weigh 2^24, 2^16, 2^8 and 1 in this order |
| Pbkdf2.Derive | internal/backup/backup.go:307-328 | for every count and length the key is octet by octet that of the standard up to its length bound, and that of wrapped block numbers beyond |
| Pbkdf2.CodeMatchesStandard | internal/backup/backup.go:307-328 | within the bound the block number of the code is that of the standard |
| Pbkdf2.CounterIsBlockNumberIff | internal/backup/backup.go:309-313 | the 32-bit counter names a block as the standard does if and only if the block is within the bound |
| Frame.Encrypt | internal/backup/backup.go:261-282 | the magic line, salt, nonce and the text sealed under 32 octets of PBKDF2 of the password and the salt with 200000 rounds |
| Frame.Decrypt | internal/backup/backup.go:284-305 | data opens exactly when it is the magic line, 16 octets of salt, 12 of nonce and a text that authenticates under 32 octets of PBKDF2 of the password and that salt with 200000 rounds, and then to that text |
| Frame.MagicText | internal/backup/backup.go:26 | the magic line, character by character |
| Frame.FrameRoundTrip | internal/backup/backup.go:261-305 | decryption inverts encryption for every plaintext, password, salt and nonce, and the artifact is 64 octets longer |
| Frame.OpenedIffAuthentic | internal/backup/backup.go:284-305 | data opens if and only if it is a frame around a text that authenticates under that key, and then to that text |
| Paths.SafePathMeaning | internal/backup/backup.go:251-259 | the accepted archive names are the manifest and the paths of at least two proper parts that start with data or config |
| Paths.JoinStaysBelow | internal/backup/backup.go:342-356 | joining an accepted name to any staging directory, absolute or relative, changes neither and stays strictly below the directory |
| Paths.JoinIsInjective | internal/backup/backup.go:342-356 | distinct accepted names reach distinct files |
| Archive.MakeArchive | internal/backup/backup.go:172-202 | the entries with their hash manifest in the order of names, refused if and only if the buffer would exceed the limit |
| Archive.PaddedMeaning | internal/backup/backup.go:184-202 | contents fill the fewest whole blocks of 512 octets |
| Archive.ReadArchive | internal/backup/backup.go:204-249 | accepts exactly the intact archives of regular, safe, bounded, distinct entries with one version-1 manifest that lists exactly the other names with their digests, and returns these sorted; what it returns are files of the archive, each with the digest that the manifest gives |
| Archive.CountAndLookupDecide | internal/backup/backup.go:236-246 | equal counts and a one-way lookup decide the agreement with the manifest in both directions |
| Archive.ReadingIgnoresOrder | internal/backup/backup.go:204-249 | any reordering of the archive reads the same |
| Archive.ArchiveRoundTrip | internal/backup/backup.go:172-249 | reading back what was written gives the sorted entries with contents and permission bits if the manifest can carry every name, and is refused otherwise |
| Archive.UnrecodableRejected | internal/backup/backup.go:174-182 | a name that JSON text cannot carry makes the archive unreadable |
| RestoreTransaction.Publish | internal/backup/backup.go:362-391 | in every state until all new trees are in place each previous tree is intact at its destination or its second name; afterwards all new trees stay in place; an error leaves every previous tree, and at its destination when the calls of the rollback succeed; without the replace flag no destination that existed changes in any state and one that existed is an error; a success without a failed operation leaves no previous tree behind; every error has its reason |
| RestoreTransaction.Rollback | internal/backup/backup.go:393-401 | keeps all previous trees even if its own calls fail, puts each set-aside tree back unless one of its calls fails, and touches nothing else |
| RestoreTransaction.RollbackCompleteIff | internal/backup/backup.go:393-401 | after a rollback whose calls succeeded every previous tree is back, and all destinations are as before if and only if each one whose new tree was in place had existed |
| RestoreTransaction.RollbackAlwaysCompleteIff | internal/backup/backup.go:362-401 | such a rollback restores all destinations wherever the publication stops if and only if every destination but the last existed before |
| RestoreTransaction.RollbackLeavesInstalled | internal/backup/backup.go:393-401 | two absent destinations: the rename that installs the first tree leads to a state that the rollback leaves as it is and in which not all destinations are as before |
| RestoreTransaction.MoveAside | internal/backup/backup.go:368-378 | a previous tree is moved to its second name or stays; without the replace flag nothing changes, and an existing destination is refused |
| RestoreTransaction.RemoveSetAside | internal/backup/backup.go:385-389 | removing the previous trees never touches a new one, and leaves none of them unless an operation fails |
| Backup.Collect | internal/backup/backup.go:129-170 | exactly the files of both directories, once, sorted; it succeeds exactly when no read fails |
| Backup.CollectionRecoversTree | internal/backup/backup.go:129-170 | the collected entries determine both directories |
| Backup.Materialize | internal/backup/backup.go:330-358 | each entry below the prefix lands under its own name below the staging directory and nothing else does; it fails exactly when the operating system refuses a file or a file is in the place of a directory |
| Backup.Create | internal/backup/backup.go:43-87 | exactly the artifact of the two directories, whatever order their files were walked in; it is refused exactly for a missing password, a failing read or write, or the size |
| Backup.SamePacked | internal/backup/backup.go:129-202 | two directories make one archive, whatever the order of the walk |
| Backup.ReadBackup | internal/backup/backup.go:89-109 | what restore takes from an artifact, with its refusals |
| Backup.BackupRoundTrip | internal/backup/backup.go:43-109 | what create accepts, restore reads back file by file if and only if end marker and frame still fit the limit and the manifest can carry every name; in every other case it is refused |
| Backup.CreateOutgrowsRestore | internal/backup/backup.go:93-96 | a whole range of sizes is created and then refused |
| Backup.Restore | internal/backup/backup.go:89-127 | a refused artifact changes nothing; without the replace flag an existing destination is refused before anything is staged; success puts both trees in place; in every state on the way previous trees are kept or both new ones are in place; after a failure previous trees are kept, and back at their destinations when the calls of the rollback succeed; unless an operation fails no staging directory and, after success, no previous tree is left; every error has its reason |
| AuditTrail.AuditLog.Append | internal/audit/log.go:45-77 | success is the whole line at the end; an operation that fails leaves a part of it, all of it or nothing; earlier contents never change |
| AuditTrail.BufferedResponse.Call | internal/webapp/handler.go:370-387 | the first status wins and a write without one sets 200 |
| AuditTrail.FirstStatusWins | internal/webapp/handler.go:376-407 | a response leaves with what the first call fixes that fixes a status |
| AuditTrail.BodyInOrder | internal/webapp/handler.go:381-386 | the body is what was written, in order |
| AuditTrail.Handle | internal/webapp/handler.go:389-434 | the steps of a request, among those of others: the handler starts only after the log was opened for it, its response leaves only after its own record was acknowledged, whose outcome is a failure exactly from status 400 on, and exactly when a log operation failed or there is no identifier the audit failure with status 500 leaves instead |
| AuditTrail.DeliveredIsOnFile | internal/webapp/handler.go:389-433 | however requests overlap, a delivered response other than an audit failure was preceded by the opening of the log, the run of the handler and the acknowledged record of the same request; that record is in the file and says "failure" with the error code of the body exactly when the delivered status is at least 400, "success" without a code otherwise, with the identifier, action and resource of the request |
| AuditTrail.AuditFailureHasReason | internal/webapp/handler.go:396-424 | however requests overlap, a delivered audit failure has status 500, and its own request had no identifier, could not open the log or could not append |
| AuditTrail.StartedAfterOpening | internal/webapp/handler.go:401-405 | however requests overlap, a handler that started was preceded by the opening of the log for its own request |
| AuditTrail.AuditLog.Ready | internal/audit/log.go:32-43 | only a successful opening counts as one for the request |
| AuditTrail.RecordIsLineIff | internal/audit/log.go:59-68 | an acknowledged record is a line of its own if and only if the file ended at a line boundary, however the log grows later |
| AuditTrail.IntactLogReadsBack | internal/audit/log.go:45-77 | a log in which every append completed reads back line by line as the records in their order |
| AuditTrail.TornAppendSpoilsNext | internal/audit/log.go:66-68 | after an append that stopped inside its line the next acknowledged record is no line |

## Left out

- Initialisation of the store and the issuers, and its race with issuance: a run starts from the initialised state.
- Status, root certificate, single-file and zip downloads, HTTP routing, headers, the choice of audited routes.
- Manifest fields other than identifier, kind, state, serials and files; JSON that was written is assumed to read back unchanged, and a read may fail at any time.
- File modes, umask, symbolic links, non-regular files and what fsync means for a power failure: a rename happens or not, and an error may be reported after it took effect.
- The constant attribute file next to the index, renamed between the index and the number.
- A rename onto an existing directory is refused, as os.Rename refuses it; its own look at the destination is taken to succeed.
- Removal of a staging directory of a bundle is one step; the set-aside and staging trees of a restore are removed file by file.
- Temporary files beside a manifest or an artifact, written and renamed or removed.
- Key generation, certificate encoding and verification: a signing command leaves a file with its serial, and every command may fail.
- The text of tool errors, apart from the one kind that the service maps to a conflict; passphrases and timeouts.
- Mutations run one at a time, as the service lock makes them; the locks themselves are not modelled. Reads without a lock see the state between two steps.
- Text is a sequence of octets; the rune decoding of range loops makes no difference to the accepted names and is not modelled.
- Two destinations of a restore that coincide or lie inside each other, and set-aside names that collide: `Separate` is required of the paths.
- Empty directories, which the backup does not carry; symbolic links, which it refuses.
- The tool itself and the library behind it; attribute types it does not know and its limits on value lengths when it reads a subject.
- Engine.Engine.RespondOcsp: the encoded response is reduced to the status of one serial.
- Engine.Disk.Commit: holds for the durable changes of this model only; the private working directory of a publication is a value.
- AuditTrail.AuditLog.Append: the time stamp and the remote address of a record are left out.
- Archive.ReadArchive: the tar reader is a list of entries with an end that may be broken.
