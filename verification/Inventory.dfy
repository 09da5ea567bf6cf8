/**
 * The durable state of the certificate service and the status rows derived from it: the serial
 * counter, the bundle directories with their manifests, and per issuer the OCSP index, the
 * published CRL and the CRL number.
 */
module Inventory {
  import opened Basics
  import opened Names

  const MAX_UINT64: nat := 0xFFFF_FFFF_FFFF_FFFF

  /** The CRL number of a fresh issuer database, the hexadecimal text "1000". */
  const FIRST_CRL_NUMBER: nat := 0x1000

  datatype BundleKind = Rsa | Tlcp | UnknownKind

  datatype CaKind = RsaCa | Sm2Ca

  datatype BundleState = Valid | Revoked

  datatype RowStatus = V | R

  datatype Manifest = Manifest(id: string, kind: BundleKind, state: BundleState, serials: seq<nat>, files: seq<string>)

  /** A directory below pki/issued: certificate files by name with the serial inside, and the manifest if it was written. */
  datatype Directory = Directory(certs: map<string, nat>, manifest: Option<Manifest>)

  datatype Crl = Crl(number: nat, revoked: set<nat>)

  datatype IssuerFiles = IssuerFiles(index: map<nat, RowStatus>, crlNumber: Option<nat>, crl: Option<Crl>) {
    /** The number the next CRL gets; a missing file counts as the initial number. */
    function NextNumber(): nat {
      if crlNumber.Some? then crlNumber.value else FIRST_CRL_NUMBER
    }
  }

  datatype Durable = Durable(nextSerial: nat, issued: map<string, Directory>, rsa: IssuerFiles, sm2: IssuerFiles) {
    function Issuer(ca: CaKind): IssuerFiles {
      if ca.RsaCa? then rsa else sm2
    }

    function WithIssuer(ca: CaKind, files: IssuerFiles): Durable {
      if ca.RsaCa? then this.(rsa := files) else this.(sm2 := files)
    }
  }

  function CaOf(kind: BundleKind): CaKind {
    if kind.Tlcp? then Sm2Ca else RsaCa
  }

  function KindOf(ca: CaKind): BundleKind {
    if ca.Sm2Ca? then Tlcp else Rsa
  }

  // ---- Files of a bundle ----

  const CRT := ".crt"
  const KEY := ".key"
  const RSA_STEM := "server-rsa"
  const SIGN_STEM := "server-sign"
  const ENC_STEM := "server-enc"
  const RSA_CERT := RSA_STEM + CRT
  const RSA_KEY := RSA_STEM + KEY
  const SIGN_CERT := SIGN_STEM + CRT
  const SIGN_KEY := SIGN_STEM + KEY
  const ENC_CERT := ENC_STEM + CRT
  const ENC_KEY := ENC_STEM + KEY

  function FilesOf(kind: BundleKind): seq<string> {
    match kind
    case Rsa => [RSA_CERT, RSA_KEY]
    case Tlcp => [SIGN_CERT, SIGN_KEY, ENC_CERT, ENC_KEY]
    case UnknownKind => []
  }

  function CertFilesOf(kind: BundleKind): seq<string> {
    match kind
    case Rsa => [RSA_CERT]
    case Tlcp => [SIGN_CERT, ENC_CERT]
    case UnknownKind => []
  }

  predicate IsCertFile(file: string) {
    Ext(file) == ".crt" && SafeRouteSegment(file)
  }

  /** The certificate files among a manifest's files, in order. */
  function CertFiles(files: seq<string>): seq<string> {
    if files == [] then []
    else
      var rest := CertFiles(files[..|files| - 1]);
      if IsCertFile(files[|files| - 1]) then rest + [files[|files| - 1]] else rest
  }

  lemma CertAndKeyOf(stem: string)
    requires stem != "" && '\0' !in stem && '/' !in stem && '\\' !in stem
    ensures IsCertFile(stem + CRT) && !IsCertFile(stem + KEY)
  {
    ExtOfThreeLetters(stem, 'c', 'r', 't');
    ExtOfThreeLetters(stem, 'k', 'e', 'y');
    assert CRT == ['.', 'c', 'r', 't'] && KEY == ['.', 'k', 'e', 'y'];
    RouteSegmentMeaning(stem + CRT);
  }

  lemma CertAndKeyExtensions()
    ensures IsCertFile(RSA_CERT) && IsCertFile(SIGN_CERT) && IsCertFile(ENC_CERT)
    ensures !IsCertFile(RSA_KEY) && !IsCertFile(SIGN_KEY) && !IsCertFile(ENC_KEY)
  {
    CertAndKeyOf(RSA_STEM);
    CertAndKeyOf(SIGN_STEM);
    CertAndKeyOf(ENC_STEM);
  }

  lemma DistinctCertFiles()
    ensures SIGN_CERT != ENC_CERT
  {
    assert SIGN_CERT[7] != ENC_CERT[7];
  }

  /** What the refresh picks from the manifest of an issued bundle is exactly its certificates. */
  lemma CertFilesOfBundle(kind: BundleKind)
    ensures CertFiles(FilesOf(kind)) == CertFilesOf(kind)
  {
    CertAndKeyExtensions();
    var files := FilesOf(kind);
    match kind
    case Rsa =>
      assert files[..1] == [RSA_CERT] && files[..1][..0] == [];
    case Tlcp =>
      assert files[..3] == [SIGN_CERT, SIGN_KEY, ENC_CERT];
      assert files[..3][..2] == [SIGN_CERT, SIGN_KEY];
      assert files[..3][..2][..1] == [SIGN_CERT] && files[..3][..2][..1][..0] == [];
      assert CertFiles(files[..3][..2][..1]) == [SIGN_CERT];
      assert CertFiles(files[..3][..2]) == [SIGN_CERT];
      assert CertFiles(files[..3]) == [SIGN_CERT, ENC_CERT];
    case UnknownKind =>
  }

  predicate HasCertsOf(certs: map<string, nat>, kind: BundleKind) {
    !kind.UnknownKind? && certs.Keys == set f | f in CertFilesOf(kind)
  }

  function SerialsOf(certs: map<string, nat>, kind: BundleKind): seq<nat>
    requires HasCertsOf(certs, kind)
  {
    seq(|CertFilesOf(kind)|, i requires 0 <= i < |CertFilesOf(kind)| => certs[CertFilesOf(kind)[i]])
  }

  function NewManifest(name: string, certs: map<string, nat>, kind: BundleKind): Manifest
    requires HasCertsOf(certs, kind)
  {
    Manifest(name, kind, Valid, SerialsOf(certs, kind), FilesOf(kind))
  }

  lemma CertNames()
    ensures RSA_CERT == "server-rsa.crt" && SIGN_CERT == "server-sign.crt" && ENC_CERT == "server-enc.crt"
  {
  }

  lemma KeyNames()
    ensures RSA_KEY == "server-rsa.key" && SIGN_KEY == "server-sign.key" && ENC_KEY == "server-enc.key"
  {
  }

  /** The manifest of a new bundle names, for each certificate, its file and then its key, and its serial, the signing pair first. */
  lemma ManifestOfBundle(name: string, certs: map<string, nat>, kind: BundleKind)
    requires HasCertsOf(certs, kind)
    ensures NewManifest(name, certs, kind).id == name && NewManifest(name, certs, kind).kind == kind
    ensures NewManifest(name, certs, kind).state == Valid
    ensures kind.Rsa? ==>
              certs.Keys == {"server-rsa.crt"} && NewManifest(name, certs, kind).serials == [certs["server-rsa.crt"]]
              && NewManifest(name, certs, kind).files == ["server-rsa.crt", "server-rsa.key"]
    ensures kind.Tlcp? ==>
              certs.Keys == {"server-sign.crt", "server-enc.crt"}
              && NewManifest(name, certs, kind).serials == [certs["server-sign.crt"], certs["server-enc.crt"]]
              && NewManifest(name, certs, kind).files == ["server-sign.crt", "server-sign.key", "server-enc.crt", "server-enc.key"]
  {
    CertNames();
    KeyNames();
    assert kind.Tlcp? ==> SIGN_CERT in CertFilesOf(kind) && ENC_CERT in CertFilesOf(kind);
  }

  // ---- The projection of the inventory to status rows ----

  /** name has a readable manifest of this kind in a visible directory. */
  predicate Listed(issued: map<string, Directory>, name: string, kind: BundleKind, skipped: set<string>) {
    && name in issued && !Hidden(name) && name !in skipped
    && issued[name].manifest.Some? && issued[name].manifest.value.kind == kind
  }

  /** The state a refresh uses: the bundle being revoked counts as revoked already. */
  function StateDuring(manifest: Manifest, target: string): BundleState {
    if manifest.id == target then Revoked else manifest.state
  }

  ghost function Registered(issued: map<string, Directory>, kind: BundleKind, skipped: set<string>): set<nat> {
    set name, serial | name in issued && Listed(issued, name, kind, skipped)
                       && serial in issued[name].manifest.value.serials :: serial
  }

  ghost function RevokedSerials(issued: map<string, Directory>, kind: BundleKind, target: string, skipped: set<string>): set<nat> {
    set name, serial | name in issued && Listed(issued, name, kind, skipped)
                       && StateDuring(issued[name].manifest.value, target) == Revoked
                       && serial in issued[name].manifest.value.serials :: serial
  }

  ghost function Rows(issued: map<string, Directory>, kind: BundleKind, target: string, skipped: set<string>): map<nat, RowStatus> {
    map serial | serial in Registered(issued, kind, skipped) ::
      if serial in RevokedSerials(issued, kind, target, skipped) then R else V
  }

  /** The answer of an OCSP responder over an index (section 2.2 of RFC 6960). */
  datatype OcspStatus = Good | RevokedStatus | Unknown

  function Lookup(index: map<nat, RowStatus>, serial: nat): OcspStatus {
    if serial !in index then Unknown else if index[serial] == R then RevokedStatus else Good
  }

  // ---- Well-formed states ----

  ghost predicate CounterOk(s: Durable) {
    1 <= s.nextSerial <= MAX_UINT64
  }

  /** Every certificate on disk, published or staged, has its own serial below the counter. */
  ghost predicate SerialsOk(s: Durable) {
    && (forall d, f | d in s.issued && f in s.issued[d].certs :: 1 <= s.issued[d].certs[f] < s.nextSerial)
    && (forall d, f, e, g | d in s.issued && f in s.issued[d].certs && e in s.issued && g in s.issued[e].certs
          && s.issued[d].certs[f] == s.issued[e].certs[g] :: d == e && f == g)
  }

  ghost predicate ManifestOk(name: string, directory: Directory)
    requires directory.manifest.Some?
  {
    var m := directory.manifest.value;
    && m.id == name
    && HasCertsOf(directory.certs, m.kind)
    && m.serials == SerialsOf(directory.certs, m.kind)
    && m.files == FilesOf(m.kind)
  }

  ghost predicate DirectoriesOk(s: Durable) {
    forall name | name in s.issued ::
      && (Hidden(name) ==> s.issued[name].manifest.None?)
      && (!Hidden(name) ==> SafeName(name))
      && (s.issued[name].manifest.Some? ==> ManifestOk(name, s.issued[name]))
  }

  /** No index row and no CRL entry without a bundle of that issuer; the published number is not ahead of the file. */
  ghost predicate IssuerOk(s: Durable, ca: CaKind) {
    var files := s.Issuer(ca);
    && files.index.Keys <= Registered(s.issued, KindOf(ca), {})
    && (files.crl.Some? ==> files.crl.value.revoked <= Registered(s.issued, KindOf(ca), {}))
    && (files.crl.Some? ==> files.crl.value.number <= files.NextNumber())
  }

  /** All serials of one bundle have one status in an index. */
  ghost predicate OneStatus(serials: seq<nat>, index: map<nat, RowStatus>) {
    forall x, y | x in serials && y in serials :: Lookup(index, x) == Lookup(index, y)
  }

  /** A CRL lists all serials of a bundle or none. */
  ghost predicate AllOrNone(serials: seq<nat>, revoked: set<nat>) {
    forall x, y | x in serials && y in serials :: x in revoked <==> y in revoked
  }

  ghost predicate BundleCoherent(serials: seq<nat>, files: IssuerFiles) {
    && OneStatus(serials, files.index)
    && (files.crl.Some? ==> AllOrNone(serials, files.crl.value.revoked))
  }

  ghost predicate CoherentIssuer(s: Durable, ca: CaKind) {
    forall name | Listed(s.issued, name, KindOf(ca), {}) ::
      BundleCoherent(s.issued[name].manifest.value.serials, s.Issuer(ca))
  }

  ghost predicate WellFormed(s: Durable) {
    && CounterOk(s) && SerialsOk(s) && DirectoriesOk(s)
    && IssuerOk(s, RsaCa) && IssuerOk(s, Sm2Ca)
    && CoherentIssuer(s, RsaCa) && CoherentIssuer(s, Sm2Ca)
  }

  /** serials are revoked in both published artefacts of an issuer. */
  ghost predicate Covered(serials: seq<nat>, files: IssuerFiles) {
    forall x | x in serials :: files.crl.Some? && x in files.crl.value.revoked && Lookup(files.index, x) == RevokedStatus
  }

  /** Every bundle whose manifest says revoked is revoked in its issuer's CRL and index. */
  ghost predicate NeverUnderReported(s: Durable) {
    forall name | name in s.issued && s.issued[name].manifest.Some? && s.issued[name].manifest.value.state == Revoked ::
      Covered(s.issued[name].manifest.value.serials, s.Issuer(CaOf(s.issued[name].manifest.value.kind)))
  }

  // ---- Facts about the projection ----

  lemma SerialsMembership(certs: map<string, nat>, kind: BundleKind, serial: nat)
    requires HasCertsOf(certs, kind)
    ensures serial in SerialsOf(certs, kind) <==> exists f :: f in certs && certs[f] == serial
  {
    var serials := SerialsOf(certs, kind);
    if serial in serials {
      var i :| 0 <= i < |serials| && serials[i] == serial;
      assert CertFilesOf(kind)[i] in certs;
    }
    if f :| f in certs && certs[f] == serial {
      var i :| 0 <= i < |CertFilesOf(kind)| && CertFilesOf(kind)[i] == f;
      assert serials[i] == serial;
    }
  }

  /** A serial belongs to one bundle only. */
  lemma OneOwner(s: Durable, a: string, b: string, serial: nat)
    requires SerialsOk(s) && DirectoriesOk(s)
    requires a in s.issued && s.issued[a].manifest.Some? && serial in s.issued[a].manifest.value.serials
    requires b in s.issued && s.issued[b].manifest.Some? && serial in s.issued[b].manifest.value.serials
    ensures a == b
  {
    SerialsMembership(s.issued[a].certs, s.issued[a].manifest.value.kind, serial);
    SerialsMembership(s.issued[b].certs, s.issued[b].manifest.value.kind, serial);
  }

  /**
   * What a refresh publishes for a bundle's serial, whatever manifests it failed to read: nothing if the
   * bundle's own manifest was skipped, otherwise its state, with the target counted as revoked.
   */
  lemma RowOfBundle(s: Durable, name: string, target: string, skipped: set<string>, serial: nat)
    requires SerialsOk(s) && DirectoriesOk(s)
    requires name in s.issued && s.issued[name].manifest.Some? && serial in s.issued[name].manifest.value.serials
    ensures var m := s.issued[name].manifest.value;
            && (serial in Registered(s.issued, m.kind, skipped) <==> name !in skipped)
            && (serial in RevokedSerials(s.issued, m.kind, target, skipped) <==>
                name !in skipped && (name == target || m.state == Revoked))
  {
    var kind := s.issued[name].manifest.value.kind;
    if serial in Registered(s.issued, kind, skipped) {
      var n :| n in s.issued && Listed(s.issued, n, kind, skipped) && serial in s.issued[n].manifest.value.serials;
      OneOwner(s, n, name, serial);
    }
    if serial in RevokedSerials(s.issued, kind, target, skipped) {
      var n :| n in s.issued && Listed(s.issued, n, kind, skipped) && serial in s.issued[n].manifest.value.serials
               && StateDuring(s.issued[n].manifest.value, target) == Revoked;
      OneOwner(s, n, name, serial);
    }
    if name !in skipped {
      assert Listed(s.issued, name, kind, skipped);
      if name == target || s.issued[name].manifest.value.state == Revoked {
        assert StateDuring(s.issued[name].manifest.value, target) == Revoked;
      }
    }
  }

  /**
   * A status lookup in the full projection answers good, revoked or unknown exactly as the manifests say.
   */
  lemma LookupMatchesManifests(s: Durable, kind: BundleKind, serial: nat)
    requires SerialsOk(s) && DirectoriesOk(s)
    ensures Lookup(Rows(s.issued, kind, "", {}), serial) ==
            if !(exists name :: Listed(s.issued, name, kind, {}) && serial in s.issued[name].manifest.value.serials) then Unknown
            else if exists name :: Listed(s.issued, name, kind, {}) && s.issued[name].manifest.value.state == Revoked
                                   && serial in s.issued[name].manifest.value.serials then RevokedStatus
            else Good
  {
    if name :| Listed(s.issued, name, kind, {}) && serial in s.issued[name].manifest.value.serials {
      RowOfBundle(s, name, "", {}, serial);
      if other :| Listed(s.issued, other, kind, {}) && s.issued[other].manifest.value.state == Revoked
                  && serial in s.issued[other].manifest.value.serials {
        OneOwner(s, name, other, serial);
      }
    }
  }

  lemma SerialsNonEmpty(s: Durable, name: string)
    requires DirectoriesOk(s) && name in s.issued && s.issued[name].manifest.Some?
    ensures |s.issued[name].manifest.value.serials| > 0
  {
  }

  /** A refresh publishes the whole inventory exactly when it read every manifest of its kind. */
  lemma SkippingShowsInRows(s: Durable, kind: BundleKind, target: string, skipped: set<string>)
    requires SerialsOk(s) && DirectoriesOk(s)
    ensures Rows(s.issued, kind, target, skipped) == Rows(s.issued, kind, target, {})
            <==> forall name | name in skipped :: !Listed(s.issued, name, kind, {})
  {
    if forall name | name in skipped :: !Listed(s.issued, name, kind, {}) {
      assert forall name :: Listed(s.issued, name, kind, skipped) <==> Listed(s.issued, name, kind, {});
      assert Registered(s.issued, kind, skipped) == Registered(s.issued, kind, {});
      assert RevokedSerials(s.issued, kind, target, skipped) == RevokedSerials(s.issued, kind, target, {});
    } else {
      var name :| name in skipped && Listed(s.issued, name, kind, {});
      var serial := s.issued[name].manifest.value.serials[0];
      RowOfBundle(s, name, target, skipped, serial);
      RowOfBundle(s, name, target, {}, serial);
      assert serial in Rows(s.issued, kind, target, {}).Keys && serial !in Rows(s.issued, kind, target, skipped).Keys;
    }
  }
}
