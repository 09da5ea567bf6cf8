/**
 * The certificate service: issue, revoke, list, CRL and OCSP over the inventory of manifests. Mutations run one
 * at a time under the service lock, so one method call is a contiguous part of the run of single changes; reads
 * see the state between any two of them.
 */
module Service {
  import opened Basics
  import opened Names
  import opened Order
  import opened Inventory
  import opened Machine
  import opened Theorems
  import opened Requests
  import opened Commands
  import opened Engine

  datatype ServiceError = Conflict | Invalid | FileNotAllowed | CryptoTimeout | CryptoFailure | Internal

  function MapPkiError(e: EngineError): ServiceError {
    match e
    case TimedOut => CryptoTimeout
    case AlreadyExists => Conflict
    case _ => CryptoFailure
  }

  // ---- What a refresh collects ----

  function PathsOf(id: string, files: seq<string>): seq<CertPath> {
    seq(|CertFiles(files)|, i requires 0 <= i < |CertFiles(files)| => CertPath(id, CertFiles(files)[i]))
  }

  /** The certificates that a refresh over the directories done puts in the list of this state. */
  ghost predicate Collected(issued: map<string, Directory>, p: CertPath, kind: BundleKind, target: string, skipped: set<string>,
                            done: set<string>, state: BundleState) {
    && p.directory in done && Listed(issued, p.directory, kind, skipped)
    && StateDuring(issued[p.directory].manifest.value, target) == state
    && p.file in CertFiles(issued[p.directory].manifest.value.files)
  }

  ghost predicate Collects(issued: map<string, Directory>, paths: seq<CertPath>, kind: BundleKind, target: string, skipped: set<string>,
                           done: set<string>, state: BundleState) {
    && Distinct(paths)
    && forall p :: p in paths <==> Collected(issued, p, kind, target, skipped, done, state)
  }

  lemma PathsOfBundle(name: string, directory: Directory)
    requires directory.manifest.Some? && ManifestOk(name, directory)
    ensures var files := directory.manifest.value.files;
            && Distinct(PathsOf(name, files))
            && forall p: CertPath :: p in PathsOf(name, files) <==> p.directory == name && p.file in CertFiles(files)
  {
    CertFilesOfBundle(directory.manifest.value.kind);
    DistinctCertFiles();
    var files := directory.manifest.value.files;
    forall p: CertPath | p.directory == name && p.file in CertFiles(files)
      ensures p in PathsOf(name, files)
    {
      var i :| 0 <= i < |CertFiles(files)| && CertFiles(files)[i] == p.file;
      assert PathsOf(name, files)[i] == p;
    }
  }

  lemma DistinctConcat<T>(xs: seq<T>, ys: seq<T>)
    requires Distinct(xs) && Distinct(ys) && forall x | x in xs :: x !in ys
    ensures Distinct(xs + ys)
  {
    var all := xs + ys;
    forall i, j | 0 <= i < j < |all|
      ensures all[i] != all[j]
    {
      if i < |xs| <= j {
        assert all[i] in xs && all[j] in ys;
      }
    }
  }

  lemma CollectedIsOnDisk(s: Durable, p: CertPath, kind: BundleKind, target: string, skipped: set<string>, done: set<string>, state: BundleState)
    requires SerialsOk(s) && DirectoriesOk(s) && Collected(s.issued, p, kind, target, skipped, done, state)
    ensures OnDisk(s, p) && SerialAt(s, p) in s.issued[p.directory].manifest.value.serials
  {
    var d := s.issued[p.directory];
    CertFilesOfBundle(d.manifest.value.kind);
    SerialsMembership(d.certs, d.manifest.value.kind, d.certs[p.file]);
  }

  lemma BundleSerialIsCollected(s: Durable, name: string, serial: nat, kind: BundleKind, target: string, skipped: set<string>, done: set<string>)
    returns (p: CertPath)
    requires SerialsOk(s) && DirectoriesOk(s) && Listed(s.issued, name, kind, skipped) && name in done
    requires serial in s.issued[name].manifest.value.serials
    ensures OnDisk(s, p) && SerialAt(s, p) == serial
    ensures Collected(s.issued, p, kind, target, skipped, done, StateDuring(s.issued[name].manifest.value, target))
  {
    var d := s.issued[name];
    var i :| 0 <= i < |d.manifest.value.serials| && d.manifest.value.serials[i] == serial;
    CertFilesOfBundle(kind);
    p := CertPath(name, CertFilesOf(kind)[i]);
  }

  /** The collected lists are the inventory of the issuer, as the publication needs it. */
  lemma CollectedIsInventory(s: Durable, ca: CaKind, valid: seq<CertPath>, revoked: seq<CertPath>, target: string, skipped: set<string>)
    requires SerialsOk(s) && DirectoriesOk(s)
    requires Collects(s.issued, valid, KindOf(ca), target, skipped, s.issued.Keys, Valid)
    requires Collects(s.issued, revoked, KindOf(ca), target, skipped, s.issued.Keys, Revoked)
    ensures ListsInventory(s, ca, valid, revoked, target, skipped)
  {
    var kind := KindOf(ca);
    var all := valid + revoked;
    DistinctConcat(valid, revoked);
    forall i | 0 <= i < |all|
      ensures OnDisk(s, all[i]) && SerialAt(s, all[i]) in Registered(s.issued, kind, skipped)
    {
      assert all[i] in valid || all[i] in revoked;
      CollectedIsOnDisk(s, all[i], kind, target, skipped, s.issued.Keys, if all[i] in valid then Valid else Revoked);
    }
    forall i | 0 <= i < |revoked|
      ensures OnDisk(s, revoked[i]) && SerialAt(s, revoked[i]) in RevokedSerials(s.issued, kind, target, skipped)
    {
      CollectedIsOnDisk(s, revoked[i], kind, target, skipped, s.issued.Keys, Revoked);
    }
    forall x | x in Registered(s.issued, kind, skipped)
      ensures x in SerialSet(s, all)
    {
      var name :| name in s.issued && Listed(s.issued, name, kind, skipped) && x in s.issued[name].manifest.value.serials;
      var p := BundleSerialIsCollected(s, name, x, kind, target, skipped, s.issued.Keys);
      assert p in valid || p in revoked;
      assert p in all;
    }
    forall x | x in RevokedSerials(s.issued, kind, target, skipped)
      ensures x in SerialSet(s, revoked)
    {
      var name :| name in s.issued && Listed(s.issued, name, kind, skipped) && x in s.issued[name].manifest.value.serials
                  && StateDuring(s.issued[name].manifest.value, target) == Revoked;
      var p := BundleSerialIsCollected(s, name, x, kind, target, skipped, s.issued.Keys);
      assert p in revoked;
    }
  }

  lemma CollectedStep(s: Durable, name: string, paths: seq<CertPath>, kind: BundleKind, target: string, skipped: set<string>,
                      done: set<string>, state: BundleState)
    requires DirectoriesOk(s) && name in s.issued && name !in done
    requires Collects(s.issued, paths, kind, target, skipped, done, state)
    ensures var more := if Listed(s.issued, name, kind, skipped) && StateDuring(s.issued[name].manifest.value, target) == state
                        then PathsOf(name, s.issued[name].manifest.value.files) else [];
            Collects(s.issued, paths + more, kind, target, skipped, done + {name}, state)
  {
    if Listed(s.issued, name, kind, skipped) && StateDuring(s.issued[name].manifest.value, target) == state {
      PathsOfBundle(name, s.issued[name]);
      DistinctConcat(paths, PathsOf(name, s.issued[name].manifest.value.files));
    } else {
      assert paths + [] == paths;
    }
  }

  // ---- What the operations leave behind ----

  /** After a completed refresh for a target, both artefacts list the target exactly when its manifest was read. */
  lemma TargetCoveredIffRead(s: Durable, id: string, skipped: set<string>, files: IssuerFiles)
    requires SerialsOk(s) && DirectoriesOk(s) && id in s.issued && s.issued[id].manifest.Some?
    requires var kind := s.issued[id].manifest.value.kind;
             files.index == Rows(s.issued, kind, id, skipped) && files.crl.Some?
             && files.crl.value.revoked == RevokedSerials(s.issued, kind, id, skipped)
    ensures Covered(s.issued[id].manifest.value.serials, files) <==> id !in skipped
  {
    var serials := s.issued[id].manifest.value.serials;
    forall x | x in serials
      ensures x in files.crl.value.revoked <==> id !in skipped
      ensures id !in skipped ==> Lookup(files.index, x) == RevokedStatus
    {
      RowOfBundle(s, id, id, skipped, x);
    }
    assert serials[0] in serials;
  }

  /** What a completed refresh leaves at the issuer. */
  ghost predicate Refreshed(s: Durable, t: Durable, ca: CaKind, target: string, skipped: set<string>) {
    && t == s.WithIssuer(ca, t.Issuer(ca))
    && t.Issuer(ca) == IssuerFiles(Rows(s.issued, KindOf(ca), target, skipped), Some(s.Issuer(ca).NextNumber() + 1),
                                   Some(PublishedCrl(s, ca, target, skipped)))
  }

  ghost predicate OthersUnchanged(s: Durable, t: Durable, name: string) {
    forall other | !Hidden(other) && other != name ::
      (other in s.issued <==> other in t.issued) && (other in s.issued ==> s.issued[other] == t.issued[other])
  }

  lemma FreshSerials(s: Durable, t: Durable, name: string, kind: BundleKind)
    requires BundleAdded(s, t, name, kind)
    ensures forall x | x in SerialsOf(t.issued[name].certs, kind) :: s.nextSerial <= x
  {
    forall x | x in SerialsOf(t.issued[name].certs, kind)
      ensures s.nextSerial <= x
    {
      SerialsMembership(t.issued[name].certs, kind, x);
    }
  }

  /** A successful issuance: a new manifest with fresh serials, and the issuer's files project the whole inventory. */
  ghost predicate IssueComplete(s: Durable, t: Durable, name: string, kind: BundleKind, manifest: Manifest, skipped: set<string>) {
    var number := s.Issuer(CaOf(kind)).NextNumber();
    && !kind.UnknownKind? && name !in s.issued && name in t.issued
    && t.issued[name].manifest == Some(manifest)
    && HasCertsOf(t.issued[name].certs, kind) && manifest == NewManifest(name, t.issued[name].certs, kind)
    && (forall x | x in manifest.serials :: s.nextSerial <= x)
    && t == t.WithIssuer(CaOf(kind), IssuerFiles(Rows(t.issued, kind, "", skipped), Some(number + 1),
                                                 Some(Crl(number, RevokedSerials(t.issued, kind, "", skipped)))))
    && (forall ca | ca != CaOf(kind) :: t.Issuer(ca) == s.Issuer(ca))
  }

  lemma RecordingStep(s: Durable, name: string, kind: BundleKind)
    requires Enabled(s, IssueManifest(name, kind))
    ensures Next(s, IssueManifest(name, kind)) == WithManifest(s, name, NewManifest(name, s.issued[name].certs, kind))
  {
  }

  lemma IssuedIsComplete(s: Durable, bare: Durable, t: Durable, name: string, kind: BundleKind, manifest: Manifest, skipped: set<string>)
    requires BundleAdded(s, bare, name, kind) && manifest == NewManifest(name, bare.issued[name].certs, kind)
    requires Refreshed(WithManifest(bare, name, manifest), t, CaOf(kind), "", skipped)
    ensures IssueComplete(s, t, name, kind, manifest, skipped)
  {
    FreshSerials(s, bare, name, kind);
  }

  /** A state-changing revocation: only this manifest turned to revoked, after a complete publication that counted it. */
  ghost predicate RevokeComplete(s: Durable, t: Durable, id: string, manifest: Manifest, skipped: set<string>) {
    && id in s.issued && s.issued[id].manifest.Some? && manifest == s.issued[id].manifest.value.(state := Revoked)
    && !manifest.kind.UnknownKind?
    && Refreshed(s, t.(issued := s.issued), CaOf(manifest.kind), id, skipped)
    && t.issued == s.issued[id := s.issued[id].(manifest := Some(manifest))]
  }

  /** The steps of a completed revocation: the publication first, the manifest last. */
  function RevocationSteps(id: string, kind: BundleKind, skipped: set<string>): seq<Label> {
    Publication(CaOf(kind), id, skipped) + [RevokeManifest(id)]
  }

  /** The steps of a completed issuance after its bundle is visible: the manifest first, then the publication. */
  function RecordingSteps(name: string, kind: BundleKind, skipped: set<string>): seq<Label> {
    [IssueManifest(name, kind)] + Publication(CaOf(kind), "", skipped)
  }

  lemma RecordingPrefix(before: seq<Label>, name: string, kind: BundleKind, skipped: set<string>, n: nat)
    requires n <= 3
    ensures before + [IssueManifest(name, kind)] + Publication(CaOf(kind), "", skipped)[..n]
            == before + RecordingSteps(name, kind, skipped)[..n + 1]
  {
  }

  lemma RevocationPrefix(before: seq<Label>, id: string, kind: BundleKind, skipped: set<string>, n: nat)
    requires n <= 3
    ensures before + Publication(CaOf(kind), id, skipped)[..n] == before + RevocationSteps(id, kind, skipped)[..n]
    ensures n == 3 ==> before + RevocationSteps(id, kind, skipped)[..n] + [RevokeManifest(id)]
                       == before + RevocationSteps(id, kind, skipped)[..4]
  {
  }

  /** after continues before with a bundle issuance and the first n recording steps. */
  ghost predicate IssueSteps(before: seq<Label>, after: seq<Label>, name: string, kind: BundleKind, skipped: set<string>, m: nat, n: nat) {
    && m <= |after| && n <= 4
    && IssuanceSteps(before, after[..m]) && after[m..] == RecordingSteps(name, kind, skipped)[..n]
  }

  /** One call with the manifests its refresh could not read and how far it came. */
  datatype Call =
    | IssueCall(name: string, kind: BundleKind, skipped: set<string>, m: nat, n: nat)
    | RevokeCall(id: string, skipped: set<string>, n: nat)

  /** The labels that a call adds, complete, failed or cut short: a beginning of its steps in their order. */
  ghost predicate Performed(before: seq<Label>, after: seq<Label>, call: Call)
    requires Legal(before)
  {
    match call
    case IssueCall(name, kind, skipped, m, n) => IssueSteps(before, after, name, kind, skipped, m, n)
    case RevokeCall(id, skipped, n) =>
      if Revocable(Run(before), id) then
        n <= 4 && after == before + RevocationSteps(id, Run(before).issued[id].manifest.value.kind, skipped)[..n]
      else after == before
  }

  /** The bundles that a revocation changes. */
  ghost predicate Revocable(s: Durable, id: string) {
    id in s.issued && s.issued[id].manifest.Some? && s.issued[id].manifest.value.state == Valid
  }

  /** Every bundle with a manifest can be named in a request. */
  lemma NotRoutableHasNoManifest(s: Durable, id: string)
    requires DirectoriesOk(s) && !SafeRouteSegment(id)
    ensures id in s.issued ==> s.issued[id].manifest.None?
  {
    if id in s.issued && s.issued[id].manifest.Some? {
      AcceptedNamesAreRoutable(id);
      assert false;
    }
  }

  /** A completed revocation is in both published artefacts exactly when the refresh read the bundle's own manifest. */
  lemma RevokedIsCoveredIffRead(s: Durable, t: Durable, id: string, manifest: Manifest, skipped: set<string>)
    requires WellFormed(s) && RevokeComplete(s, t, id, manifest, skipped)
    ensures Covered(manifest.serials, t.Issuer(CaOf(manifest.kind))) <==> id !in skipped
  {
    TargetCoveredIffRead(s, id, skipped, t.Issuer(CaOf(manifest.kind)));
  }

  ghost function WithManifest(s: Durable, name: string, manifest: Manifest): Durable
    requires name in s.issued
  {
    s.(issued := s.issued[name := s.issued[name].(manifest := Some(manifest))])
  }

  /** What a revocation published is the projection of the inventory it leaves behind. */
  lemma RevocationProjectsResult(s: Durable, id: string, skipped: set<string>)
    requires SerialsOk(s) && DirectoriesOk(s) && id in s.issued && s.issued[id].manifest.Some?
    ensures var m := s.issued[id].manifest.value; var t := WithManifest(s, id, m.(state := Revoked));
            Rows(s.issued, m.kind, id, skipped) == Rows(t.issued, m.kind, "", skipped)
            && RevokedSerials(s.issued, m.kind, id, skipped) == RevokedSerials(t.issued, m.kind, "", skipped)
  {
    var m := s.issued[id].manifest.value;
    var t := WithManifest(s, id, m.(state := Revoked));
    assert forall name :: Listed(t.issued, name, m.kind, skipped) <==> Listed(s.issued, name, m.kind, skipped);
    assert forall name | Listed(s.issued, name, m.kind, skipped) ::
        t.issued[name].manifest.value.serials == s.issued[name].manifest.value.serials
        && StateDuring(t.issued[name].manifest.value, "") == StateDuring(s.issued[name].manifest.value, id);
    assert Registered(s.issued, m.kind, skipped) == Registered(t.issued, m.kind, skipped);
    assert RevokedSerials(s.issued, m.kind, id, skipped) == RevokedSerials(t.issued, m.kind, "", skipped);
  }

  /** The index answers every status lookup as the manifests of the kind say. */
  ghost predicate AnswersByManifests(t: Durable, kind: BundleKind) {
    forall serial: nat ::
      Lookup(t.Issuer(CaOf(kind)).index, serial) == Lookup(Rows(t.issued, kind, "", {}), serial)
  }

  /** A bundle whose manifest the refresh could not read is answered unknown instead of good or revoked. */
  lemma UnreadIsUnknown(t: Durable, name: string, skipped: set<string>, serial: nat)
    requires SerialsOk(t) && DirectoriesOk(t) && name in t.issued && t.issued[name].manifest.Some? && name in skipped
    requires serial in t.issued[name].manifest.value.serials
    ensures var kind := t.issued[name].manifest.value.kind;
            && Lookup(Rows(t.issued, kind, "", skipped), serial) == Unknown
            && Lookup(Rows(t.issued, kind, "", {}), serial) != Unknown
  {
    RowOfBundle(t, name, "", skipped, serial);
    RowOfBundle(t, name, "", {}, serial);
  }

  lemma RowsAnswerIffComplete(t: Durable, kind: BundleKind, skipped: set<string>)
    requires SerialsOk(t) && DirectoriesOk(t) && t.Issuer(CaOf(kind)).index == Rows(t.issued, kind, "", skipped)
    ensures AnswersByManifests(t, kind) <==> forall name | name in skipped :: !Listed(t.issued, name, kind, {})
  {
    if forall name | name in skipped :: !Listed(t.issued, name, kind, {}) {
      SkippingShowsInRows(t, kind, "", skipped);
    } else {
      var name :| name in skipped && Listed(t.issued, name, kind, {});
      SerialsNonEmpty(t, name);
      UnreadIsUnknown(t, name, skipped, t.issued[name].manifest.value.serials[0]);
    }
  }

  /**
   * Self-healing: whatever earlier operations failed, after a successful issuance the index answers as the manifests
   * say, exactly when the refresh read every manifest of the kind.
   */
  lemma IssueHealsIndex(s: Durable, t: Durable, name: string, kind: BundleKind, manifest: Manifest, skipped: set<string>)
    requires WellFormed(t) && IssueComplete(s, t, name, kind, manifest, skipped)
    ensures AnswersByManifests(t, kind) <==> forall other | other in skipped :: !Listed(t.issued, other, kind, {})
  {
    RowsAnswerIffComplete(t, kind, skipped);
  }

  lemma RevokeHealsIndex(s: Durable, t: Durable, id: string, manifest: Manifest, skipped: set<string>)
    requires WellFormed(s) && WellFormed(t) && RevokeComplete(s, t, id, manifest, skipped)
    ensures AnswersByManifests(t, manifest.kind) <==> forall other | other in skipped :: !Listed(t.issued, other, manifest.kind, {})
  {
    RevocationProjectsResult(s, id, skipped);
    assert WithManifest(s, id, manifest).issued == t.issued;
    RowsAnswerIffComplete(t, manifest.kind, skipped);
  }

  // ---- Reading without the lock ----

  /** Successive reads see the states after longer and longer beginnings of the run. */
  ghost predicate Observes(views: nat -> Durable, run: seq<Label>, moments: nat -> nat) {
    && Legal(run)
    && (forall k: nat :: moments(0) <= moments(k) <= |run| && views(k) == StateAt(run, moments(k)))
    && (forall j: nat, k: nat | j <= k :: moments(j) <= moments(k))
  }

  ghost predicate Shows(s: Durable, m: Manifest) {
    !Hidden(m.id) && m.id in s.issued && s.issued[m.id].manifest == Some(m)
  }

  ghost predicate Seen(views: nat -> Durable, m: Manifest) {
    exists k: nat :: Shows(views(k), m)
  }

  /** The visible bundles with a manifest. */
  ghost function Shown(s: Durable): set<string> {
    set name | name in s.issued && !Hidden(name) && s.issued[name].manifest.Some?
  }

  ghost function IdsOf(records: seq<Manifest>): set<string> {
    set m | m in records :: m.id
  }

  lemma IdsOfMore(records: seq<Manifest>, record: Manifest)
    ensures IdsOf(records + [record]) == IdsOf(records) + {record.id}
  {
    assert forall m :: m in records + [record] <==> m in records || m == record;
  }

  /** A bundle that was shown at the first read is there, under its name, at every later one. */
  lemma ShownStays(views: nat -> Durable, run: seq<Label>, moments: nat -> nat, name: string, k: nat)
    requires Observes(views, run, moments)
    ensures name in Shown(views(0)) ==>
              name in views(k).issued && views(k).issued[name].manifest.Some? && views(k).issued[name].manifest.value.id == name
  {
    assert moments(0) <= moments(k) <= |run| && views(k) == StateAt(run, moments(k));
    assert moments(0) <= moments(0) <= |run| && views(0) == StateAt(run, moments(0));
    InventoryOnlyGrows(run, moments(0), moments(k));
    StateAtIsWellFormed(run, moments(k));
  }

  /** The methods that read manifests take the names of those whose read fails during the call, any set of them. */
  class PkiService {
    const disk: Disk
    const engine: Engine

    constructor (engine: Engine)
      ensures this.engine == engine && disk == engine.disk
    {
      this.engine := engine;
      this.disk := engine.disk;
    }

    ghost predicate Valid()
      reads this, disk`now, disk`labels
    {
      engine.disk == disk && disk.Valid()
    }

    /** The directory entries, each once, in some order. */
    method ReadDirectory(issued: map<string, Directory>) returns (names: seq<string>)
      ensures Distinct(names) && forall name :: name in names <==> name in issued
    {
      names := [];
      var rest := issued.Keys;
      while rest != {}
        invariant Distinct(names) && rest <= issued.Keys
        invariant forall name :: name in names <==> name in issued && name !in rest
        decreases |rest|
      {
        var name :| name in rest;
        DistinctConcat(names, [name]);
        names := names + [name];
        rest := rest - {name};
      }
    }

    /** The paths of a bundle's certificates among its listed files. */
    method CertPaths(id: string, files: seq<string>) returns (paths: seq<CertPath>)
      ensures paths == PathsOf(id, files)
    {
      paths := [];
      for i := 0 to |files|
        invariant paths == PathsOf(id, files[..i])
      {
        assert files[..i + 1][..i] == files[..i];
        if Ext(files[i]) == ".crt" && SafeRouteSegment(files[i]) {
          paths := paths + [CertPath(id, files[i])];
        }
      }
      assert files[..|files|] == files;
    }

    /** Reads every manifest of a kind into the lists of valid and revoked certificates; unreadable ones are passed over. */
    method CollectCerts(names: seq<string>, kind: BundleKind, target: string, skipped: set<string>)
      returns (validCerts: seq<CertPath>, revokedCerts: seq<CertPath>)
      requires Valid() && Distinct(names) && forall name | name in names :: name in disk.now.issued
      ensures Collects(disk.now.issued, validCerts, kind, target, skipped, (set name | name in names), BundleState.Valid)
      ensures Collects(disk.now.issued, revokedCerts, kind, target, skipped, (set name | name in names), Revoked)
    {
      ReachableIsWellFormed(disk.labels);
      var s := disk.now;
      validCerts, revokedCerts := [], [];
      ghost var done: set<string> := {};
      for i := 0 to |names|
        invariant done == set name | name in names[..i]
        invariant Collects(s.issued, validCerts, kind, target, skipped, done, BundleState.Valid)
        invariant Collects(s.issued, revokedCerts, kind, target, skipped, done, Revoked)
      {
        var name := names[i];
        assert names[..i + 1] == names[..i] + [name];
        assert name in names && name !in done;
        CollectedStep(s, name, validCerts, kind, target, skipped, done, BundleState.Valid);
        CollectedStep(s, name, revokedCerts, kind, target, skipped, done, Revoked);
        var manifest := s.issued[name].manifest;
        if !Hidden(name) && name !in skipped && manifest.Some? && manifest.value.kind == kind {
          assert ManifestOk(name, s.issued[name]);
          var paths := CertPaths(manifest.value.id, manifest.value.files);
          if StateDuring(manifest.value, target) == Revoked {
            revokedCerts := revokedCerts + paths;
          } else {
            validCerts := validCerts + paths;
          }
        }
        AppendNothing(validCerts);
        AppendNothing(revokedCerts);
        done := done + {name};
      }
      assert names[..|names|] == names;
    }

    /** Publishes CRL and index of one issuer from the collected lists. */
    method PublishLists(ca: CaKind, validCerts: seq<CertPath>, revokedCerts: seq<CertPath>, ghost target: string, ghost skipped: set<string>)
      returns (r: Result<(), ServiceError>, ghost published: nat)
      requires Valid() && ListsInventory(disk.now, ca, validCerts, revokedCerts, target, skipped)
      modifies engine`calls, disk
      ensures Valid() && published <= 3 && disk.labels == old(disk.labels) + Publication(ca, target, skipped)[..published]
      ensures disk.now == old(disk.now).WithIssuer(ca, disk.now.Issuer(ca))
      ensures r.Ok? ==> published == 3
      ensures published == 3 ==> Refreshed(old(disk.now), disk.now, ca, target, skipped)
      ensures old(disk.faults) <= disk.faults && (r.Ok? <==> disk.faults == old(disk.faults))
      ensures r == Err(CryptoTimeout) ==> LastFailed(old(engine.calls), engine.calls)
      ensures (exists i :: |old(engine.calls)| <= i < |engine.calls| && !engine.calls[i].ok) ==> published == 0
      ensures r.Err? ==> r.error == CryptoTimeout || r.error == CryptoFailure
    {
      var result;
      ghost var ran, succeeded;
      result, ran, succeeded, published := engine.PublishCrl(ca, validCerts, revokedCerts, target, skipped);
      r := if result.Ok? then Ok(()) else Err(MapPkiError(result.error));
    }

    /** Publishes CRL and index of one issuer from the manifests. */
    method RefreshIssuer(kind: BundleKind, target: string, skipped: set<string>)
      returns (r: Result<(), ServiceError>, ghost published: nat)
      requires Valid()
      modifies engine`calls, disk
      ensures Valid() && published <= 3
      ensures disk.labels == old(disk.labels) + Publication(CaOf(kind), target, skipped)[..published]
      ensures disk.now == old(disk.now).WithIssuer(CaOf(kind), disk.now.Issuer(CaOf(kind)))
      ensures r.Ok? ==> published == 3 && !kind.UnknownKind?
      ensures published == 3 ==> Refreshed(old(disk.now), disk.now, CaOf(kind), target, skipped)
      ensures old(disk.faults) <= disk.faults && (r.Ok? ==> disk.faults == old(disk.faults))
      ensures r == Err(CryptoTimeout) ==> LastFailed(old(engine.calls), engine.calls)
      ensures r != Err(Conflict) && (r == Err(Invalid) <==> kind.UnknownKind?)
      ensures (exists i :: |old(engine.calls)| <= i < |engine.calls| && !engine.calls[i].ok) ==> published == 0
      ensures r.Err? && !kind.UnknownKind? ==> old(disk.faults) < disk.faults
    {
      published := 0;
      if kind.UnknownKind? {
        return Err(Invalid), published;
      }
      var ok := disk.Try();
      if !ok {
        return Err(Internal), published;
      }
      ReachableIsWellFormed(disk.labels);
      var names := ReadDirectory(disk.now.issued);
      assert (set name | name in names) == disk.now.issued.Keys;
      var validCerts, revokedCerts;
      validCerts, revokedCerts := CollectCerts(names, kind, target, skipped);
      CollectedIsInventory(disk.now, CaOf(kind), validCerts, revokedCerts, target, skipped);
      r, published := PublishLists(CaOf(kind), validCerts, revokedCerts, target, skipped);
    }

    method CreateBundle(kind: BundleKind, req: Request) returns (r: Result<(), EngineError>, ghost published: bool)
      requires Valid() && ValidRequest(req) && !kind.UnknownKind?
      modifies engine`calls, disk
      ensures Valid() && IssuanceSteps(old(disk.labels), disk.labels)
      ensures req.name in old(disk.now.issued) ==> r.Err? && disk.labels == old(disk.labels) && engine.calls == old(engine.calls)
      ensures r.Ok? ==> published
      ensures if published then BundleAdded(old(disk.now), disk.now, req.name, kind) else SameInventory(old(disk.now), disk.now)
      ensures old(disk.faults) <= disk.faults && (r.Ok? ==> disk.faults == old(disk.faults))
      ensures |old(engine.calls)| <= |engine.calls| && (r == Err(TimedOut) ==> LastFailed(old(engine.calls), engine.calls))
      ensures r == Err(AlreadyExists) ==> req.name in old(disk.now.issued)
      ensures req.name in old(disk.now.issued) ==> r == Err(AlreadyExists) || old(disk.faults) < disk.faults
      ensures r.Err? && req.name !in old(disk.now.issued) ==> old(disk.faults) < disk.faults || old(disk.now.nextSerial) >= MAX_UINT64 - 1
    {
      if kind.Rsa? {
        var bundle;
        bundle, published := engine.IssueRsa(req);
        r := if bundle.Ok? then Ok(()) else Err(bundle.error);
      } else {
        var bundle;
        bundle, published := engine.IssueTlcp(req);
        r := if bundle.Ok? then Ok(()) else Err(bundle.error);
      }
    }

    /** Replaces the manifest of a bundle by rename: the new one or, when anything fails, none. */
    method WriteManifest(name: string, manifest: Manifest, ghost l: Label) returns (ok: bool)
      requires Valid() && name in disk.now.issued && Enabled(disk.now, l)
      requires Next(disk.now, l) == WithManifest(disk.now, name, manifest)
      modifies disk
      ensures Valid()
      ensures !ok ==> disk.now == old(disk.now) && disk.labels == old(disk.labels)
      ensures ok ==> disk.labels == old(disk.labels) + [l]
      ensures ok ==> disk.now == WithManifest(old(disk.now), name, manifest)
      ensures old(disk.faults) <= disk.faults && (ok ==> disk.faults == old(disk.faults))
      ensures !ok ==> old(disk.faults) < disk.faults
    {
      ok := disk.Try();
      if ok {
        var directory := disk.now.issued[name];
        disk.Commit(disk.now.(issued := disk.now.issued[name := directory.(manifest := Some(manifest))]), l);
      }
    }

    /** Writes the manifest of a new bundle and refreshes its issuer. */
    method RecordBundle(name: string, kind: BundleKind, skipped: set<string>) returns (r: Result<Manifest, ServiceError>, ghost n: nat)
      requires Valid() && Enabled(disk.now, IssueManifest(name, kind))
      modifies engine`calls, disk
      ensures Valid() && n <= 4 && disk.labels == old(disk.labels) + RecordingSteps(name, kind, skipped)[..n]
      ensures OthersUnchanged(old(disk.now), disk.now, name)
      ensures r.Ok? ==> n == 4 && r.value == NewManifest(name, old(disk.now.issued[name].certs), kind)
                        && Refreshed(WithManifest(old(disk.now), name, r.value), disk.now, CaOf(kind), "", skipped)
      ensures old(disk.faults) <= disk.faults && (r.Ok? ==> disk.faults == old(disk.faults))
      ensures r == Err(CryptoTimeout) ==> LastFailed(old(engine.calls), engine.calls)
      ensures r != Err(Conflict) && (r == Err(Invalid) ==> kind.UnknownKind?)
      ensures r.Err? ==> old(disk.faults) < disk.faults
    {
      n := 0;
      ghost var before := disk.labels;
      var manifest := NewManifest(name, disk.now.issued[name].certs, kind);
      RecordingStep(disk.now, name, kind);
      var ok := WriteManifest(name, manifest, IssueManifest(name, kind));
      if !ok {
        return Err(Internal), n;
      }
      var refreshed;
      refreshed, n := RefreshIssuer(kind, "", skipped);
      RecordingPrefix(before, name, kind, skipped, n);
      n := n + 1;
      r := if refreshed.Ok? then Ok(manifest) else Err(refreshed.error);
    }

    /**
     * Issues a bundle: certificates, then the manifest, then the refreshed status of its issuer. A failure after the
     * rename of the directory leaves the bundle; the refresh is complete when the call succeeds.
     */
    method Issue(kind: BundleKind, req: Request, skipped: set<string>)
      returns (r: Result<Manifest, ServiceError>, ghost m: nat, ghost n: nat)
      requires Valid()
      modifies engine`calls, disk
      ensures Valid() && Performed(old(disk.labels), disk.labels, IssueCall(req.name, kind, skipped, m, n))
      ensures r == Err(Invalid) <==> !ValidRequest(req) || kind.UnknownKind?
      ensures r == Err(Invalid) ==> disk.labels == old(disk.labels)
      ensures req.name in old(disk.now.issued) ==> r.Err? && disk.labels == old(disk.labels) && engine.calls == old(engine.calls)
      ensures OthersUnchanged(old(disk.now), disk.now, req.name)
      ensures r.Ok? ==> IssueComplete(old(disk.now), disk.now, req.name, kind, r.value, skipped)
      ensures old(disk.faults) <= disk.faults && (r.Ok? ==> disk.faults == old(disk.faults))
      ensures r == Err(CryptoTimeout) ==> LastFailed(old(engine.calls), engine.calls)
      ensures r == Err(Conflict) ==> req.name in old(disk.now.issued)
      ensures ValidRequest(req) && !kind.UnknownKind? && req.name in old(disk.now.issued) ==>
                r == Err(Conflict) || (r.Err? && old(disk.faults) < disk.faults)
      ensures r.Err? && ValidRequest(req) && !kind.UnknownKind? && req.name !in old(disk.now.issued) ==>
                old(disk.faults) < disk.faults || old(disk.now.nextSerial) >= MAX_UINT64 - 1
    {
      m, n := |disk.labels|, 0;
      var valid := ValidateRequest(req);
      if !valid || kind.UnknownKind? {
        return Err(Invalid), m, n;
      }
      AcceptedNamesAreRoutable(req.name);
      var created;
      ghost var published;
      created, published := CreateBundle(kind, req);
      m := |disk.labels|;
      if created.Err? {
        return Err(MapPkiError(created.error)), m, n;
      }
      ghost var bare := disk.now;
      ghost var built := disk.labels;
      r, n := RecordBundle(req.name, kind, skipped);
      assert disk.labels[..m] == built;
      if r.Ok? {
        IssuedIsComplete(old(disk.now), bare, disk.now, req.name, kind, r.value, skipped);
      }
    }

    /** The refresh with this bundle counted as revoked, and then its manifest. */
    method RevokeListed(id: string, skipped: set<string>) returns (r: Result<Manifest, ServiceError>, ghost n: nat)
      requires Valid() && Revocable(disk.now, id)
      modifies engine`calls, disk
      ensures Valid() && n <= 4
      ensures disk.labels == old(disk.labels) + RevocationSteps(id, old(disk.now.issued[id].manifest.value.kind), skipped)[..n]
      ensures r.Ok? <==> n == 4
      ensures r.Err? ==> disk.now.issued == old(disk.now.issued)
      ensures r.Ok? ==> RevokeComplete(old(disk.now), disk.now, id, r.value, skipped)
      ensures old(disk.faults) <= disk.faults && (r.Ok? ==> disk.faults == old(disk.faults))
      ensures r == Err(CryptoTimeout) ==> LastFailed(old(engine.calls), engine.calls)
      ensures r.Err? ==> old(disk.faults) < disk.faults
    {
      ReachableIsWellFormed(disk.labels);
      var target := disk.now.issued[id].manifest.value;
      ghost var before := disk.labels;
      var refreshed;
      refreshed, n := RefreshIssuer(target.kind, id, skipped);
      RevocationPrefix(before, id, target.kind, skipped, n);
      if refreshed.Err? {
        return Err(refreshed.error), n;
      }
      var revoked := target.(state := Revoked);
      var ok := WriteManifest(id, revoked, RevokeManifest(id));
      r := if ok then Ok(revoked) else Err(Internal);
      n := if ok then 4 else 3;
    }

    /**
     * Revokes a bundle: CRL and index are published with the bundle revoked before its manifest changes. A bundle
     * that is revoked already is returned as it is.
     */
    method Revoke(id: string, skipped: set<string>) returns (r: Result<Manifest, ServiceError>, ghost n: nat)
      requires Valid()
      modifies engine`calls, disk
      ensures Valid()
      ensures id !in old(disk.now.issued) || old(disk.now.issued[id].manifest.None?) ==> r == Err(FileNotAllowed)
      ensures r.Err? ==> disk.now.issued == old(disk.now.issued)
      ensures r.Ok? ==> id in old(disk.now.issued) && old(disk.now.issued[id].manifest.Some?)
                        && if old(disk.now.issued[id].manifest.value.state) == Revoked then r.value == old(disk.now.issued[id].manifest.value)
                           else RevokeComplete(old(disk.now), disk.now, id, r.value, skipped)
      ensures Performed(old(disk.labels), disk.labels, RevokeCall(id, skipped, n))
      ensures old(disk.faults) <= disk.faults && (r.Ok? ==> disk.faults == old(disk.faults))
      ensures r == Err(CryptoTimeout) ==> LastFailed(old(engine.calls), engine.calls)
      ensures r.Err? && id in old(disk.now.issued) && old(disk.now.issued[id].manifest.Some?) ==> old(disk.faults) < disk.faults
    {
      n := 0;
      ReachableIsWellFormed(disk.labels);
      if !SafeRouteSegment(id) {
        NotRoutableHasNoManifest(disk.now, id);
        return Err(FileNotAllowed), n;
      }
      var ok := disk.Try();
      if !ok || id !in disk.now.issued || disk.now.issued[id].manifest.None? || disk.now.issued[id].manifest.value.id != id {
        return Err(FileNotAllowed), n;
      }
      if disk.now.issued[id].manifest.value.state == Revoked {
        return Ok(disk.now.issued[id].manifest.value), n;
      }
      r, n := RevokeListed(id, skipped);
    }

    /**
     * The visible bundles with a readable manifest, in ascending order. It takes no lock: the directory and each manifest
     * are read at their own moments, while other calls go on. Every record is that of its manifest at one of these
     * moments, and no readable bundle that was there at the first of them is missing.
     */
    method List(views: nat -> Durable, listable: bool, unread: set<string>, ghost run: seq<Label>, ghost moments: nat -> nat)
      returns (r: Result<seq<Manifest>, ServiceError>)
      requires Observes(views, run, moments)
      ensures r.Ok? <==> listable
      ensures r.Ok? ==> Ascending((m: Manifest) => m.id, r.value)
      ensures r.Ok? ==> forall m | m in r.value :: m.id !in unread && Seen(views, m)
      ensures r.Ok? ==> forall name | name in Shown(views(0)) && name !in unread :: name in IdsOf(r.value)
    {
      if !listable {
        return Err(Internal);
      }
      ghost var key := (m: Manifest) => m.id;
      var names := ReadDirectory(views(0).issued);
      var records: seq<Manifest> := [];
      for i := 0 to |names|
        invariant DistinctKeys(key, records)
        invariant forall m | m in records :: m.id in names[..i] && m.id !in unread && Seen(views, m)
        invariant forall name | name in names[..i] && name in Shown(views(0)) && name !in unread :: name in IdsOf(records)
      {
        var name := names[i];
        assert names[..i + 1] == names[..i] + [name] && name in names && name !in names[..i];
        var now := views(i + 1);
        ShownStays(views, run, moments, name, i + 1);
        if !Hidden(name) && name !in unread && name in now.issued && now.issued[name].manifest.Some?
           && now.issued[name].manifest.value.id == name {
          var record := now.issued[name].manifest.value;
          assert Shows(views(i + 1), record);
          DistinctAppend(key, records, record);
          IdsOfMore(records, record);
          records := records + [record];
        }
      }
      assert names[..|names|] == names;
      var sorted := Sort((m: Manifest) => m.id, records);
      SortAscending(key, records);
      SameMembers(sorted, records);
      r := Ok(sorted);
    }

    /** The published CRL, read without a lock; the read may fail. */
    method PublishedCrlOf(ca: CaKind, readable: bool) returns (r: Result<Crl, ServiceError>)
      ensures r == if readable && disk.now.Issuer(ca).crl.Some? then Ok(disk.now.Issuer(ca).crl.value) else Err(FileNotAllowed)
    {
      if !readable {
        return Err(FileNotAllowed);
      }
      var crl := disk.now.Issuer(ca).crl;
      r := if crl.Some? then Ok(crl.value) else Err(FileNotAllowed);
    }

    method Ocsp(ca: CaKind, requestSize: nat, serial: nat) returns (r: Result<OcspStatus, ServiceError>)
      requires Valid()
      modifies engine`calls, disk`faults
      ensures r.Ok? ==> r.value == Lookup(disk.now.Issuer(ca).index, serial)
      ensures old(disk.faults) <= disk.faults && (r.Ok? ==> disk.faults == old(disk.faults))
      ensures r == Err(CryptoTimeout) ==> LastFailed(old(engine.calls), engine.calls)
      ensures r.Err? && 0 < requestSize <= 16 * 1024 ==> old(disk.faults) < disk.faults
    {
      var answer := engine.RespondOcsp(ca, requestSize, serial);
      r := if answer.Ok? then Ok(answer.value) else Err(MapPkiError(answer.error));
    }
  }

  lemma AppendNothing<T>(xs: seq<T>)
    ensures xs + [] == xs
  {
  }
}
