/**
 * Histories of the service that break a promise of its documents. They are built from the calls of the code: an
 * issuance and a revocation can always be carried through, whatever manifests their refresh cannot read.
 */
module Witnesses {
  import opened Basics
  import opened Names
  import opened Inventory
  import opened Machine
  import opened Theorems
  import opened Engine
  import opened Service
  import opened History
  import opened Listing

  // ---- A publication, a revocation and an issuance can be carried through ----

  ghost function Published(s: Durable, ca: CaKind, target: string, skipped: set<string>): Durable {
    s.WithIssuer(ca, IssuerFiles(Rows(s.issued, KindOf(ca), target, skipped), Some(s.Issuer(ca).NextNumber() + 1),
                                 Some(PublishedCrl(s, ca, target, skipped))))
  }

  ghost function StagedFrom(s: Durable, ca: CaKind, target: string, skipped: set<string>): StagedCrl {
    StagedCrl(Rows(s.issued, KindOf(ca), target, skipped), PublishedCrl(s, ca, target, skipped))
  }

  /** The files of an issuer after the first so many renames of a publication. */
  ghost function Replaced(files: IssuerFiles, staged: StagedCrl, published: nat): IssuerFiles {
    IssuerFiles(if published >= 2 then staged.rows else files.index,
                if published >= 3 then Some(staged.crl.number + 1) else files.crlNumber,
                if published >= 1 then Some(staged.crl) else files.crl)
  }

  /** The state after the first n steps of a publication. */
  ghost function PublishedTo(s: Durable, ca: CaKind, target: string, skipped: set<string>, n: nat): Durable {
    s.WithIssuer(ca, Replaced(s.Issuer(ca), StagedFrom(s, ca, target, skipped), n))
  }

  lemma PublicationStep(s: Durable, ca: CaKind, target: string, skipped: set<string>, n: nat)
    requires n < 3
    ensures Enabled(PublishedTo(s, ca, target, skipped, n), Publication(ca, target, skipped)[n])
    ensures Next(PublishedTo(s, ca, target, skipped, n), Publication(ca, target, skipped)[n])
            == PublishedTo(s, ca, target, skipped, n + 1)
  {
  }

  lemma {:induction false} PublicationRunsTo(before: seq<Label>, ca: CaKind, target: string, skipped: set<string>, n: nat)
    requires Legal(before) && n <= 3
    ensures Legal(before + Publication(ca, target, skipped)[..n])
    ensures Run(before + Publication(ca, target, skipped)[..n]) == PublishedTo(Run(before), ca, target, skipped, n)
  {
    var steps := Publication(ca, target, skipped);
    if n == 0 {
      assert before + steps[..0] == before;
    } else {
      PublicationRunsTo(before, ca, target, skipped, n - 1);
      PublicationStep(Run(before), ca, target, skipped, n - 1);
      ExtendBy(before, steps, n - 1);
    }
  }

  lemma PublicationRuns(before: seq<Label>, ca: CaKind, target: string, skipped: set<string>)
    requires Legal(before)
    ensures Legal(before + Publication(ca, target, skipped))
    ensures Run(before + Publication(ca, target, skipped)) == Published(Run(before), ca, target, skipped)
  {
    PublicationRunsTo(before, ca, target, skipped, 3);
    assert Publication(ca, target, skipped)[..3] == Publication(ca, target, skipped);
  }

  ghost function AsRevoked(m: Manifest): Manifest {
    m.(state := Revoked)
  }

  lemma RevocationRuns(before: seq<Label>, id: string, skipped: set<string>)
    requires Legal(before) && Revocable(Run(before), id)
    ensures var m := Run(before).issued[id].manifest.value; var after := before + RevocationSteps(id, m.kind, skipped);
            Legal(after) && Run(after) == WithManifest(Published(Run(before), CaOf(m.kind), id, skipped), id, AsRevoked(m))
  {
    var m := Run(before).issued[id].manifest.value;
    PublicationRuns(before, CaOf(m.kind), id, skipped);
    ReachableIsWellFormed(before);
    var published := before + Publication(CaOf(m.kind), id, skipped);
    Extend(published, RevokeManifest(id));
    assert published + [RevokeManifest(id)] == before + RevocationSteps(id, m.kind, skipped);
  }

  /** The steps that make an RSA bundle visible, in the order of the code. */
  function BundleSteps(name: string, temp: string, serial: nat): seq<Label> {
    [Stage(temp), TakeSerial, WriteCert(temp, RSA_CERT, serial), PublishDirectory(temp, name, Rsa)]
  }

  function BareBundle(serial: nat): Directory {
    Directory(map[RSA_CERT := serial], None)
  }

  function RsaManifest(name: string, serial: nat, state: BundleState): Manifest {
    Manifest(name, Rsa, state, [serial], FilesOf(Rsa))
  }

  ghost predicate MayIssue(s: Durable, name: string, temp: string) {
    && WellFormed(s) && s.nextSerial < MAX_UINT64 && SafeName(name) && name !in s.issued && Hidden(temp) && temp !in s.issued
  }

  lemma StageRuns(before: seq<Label>, name: string, temp: string)
    requires Legal(before) && MayIssue(Run(before), name, temp)
    ensures var s := Run(before); var after := before + [Stage(temp)] + [TakeSerial];
            Legal(after)
            && Run(after) == s.(nextSerial := s.nextSerial + 1, issued := s.issued[temp := Directory(map[], None)])
  {
    Extend(before, Stage(temp));
    Extend(before + [Stage(temp)], TakeSerial);
  }

  lemma SerialIsUnused(s: Durable, temp: string)
    requires SerialsOk(s)
    ensures !UsedSerial(s.(nextSerial := s.nextSerial + 1, issued := s.issued[temp := Directory(map[], None)]), s.nextSerial)
  {
  }

  lemma WriteRuns(before: seq<Label>, name: string, temp: string)
    requires Legal(before) && MayIssue(Run(before), name, temp)
    ensures var s := Run(before); var after := before + [Stage(temp)] + [TakeSerial] + [WriteCert(temp, RSA_CERT, s.nextSerial)];
            Legal(after)
            && Run(after) == s.(nextSerial := s.nextSerial + 1, issued := s.issued[temp := BareBundle(s.nextSerial)])
  {
    var s := Run(before);
    StageRuns(before, name, temp);
    SerialIsUnused(s, temp);
    Extend(before + [Stage(temp)] + [TakeSerial], WriteCert(temp, RSA_CERT, s.nextSerial));
  }

  /** The rename of a staging directory that holds one certificate. */
  lemma RenameStep(s: Durable, name: string, temp: string, serial: nat)
    requires SafeName(name) && Hidden(temp) && name !in s.issued && temp !in s.issued
    ensures var staged := s.(issued := s.issued[temp := BareBundle(serial)]);
            Enabled(staged, PublishDirectory(temp, name, Rsa))
            && Next(staged, PublishDirectory(temp, name, Rsa)) == s.(issued := s.issued[name := BareBundle(serial)])
  {
    assert HasCertsOf(BareBundle(serial).certs, Rsa);
    AcceptedNamesAreRoutable(name);
  }

  lemma BundleRuns(before: seq<Label>, name: string, temp: string)
    requires Legal(before) && MayIssue(Run(before), name, temp)
    ensures var s := Run(before); var after := before + BundleSteps(name, temp, s.nextSerial);
            Legal(after)
            && Run(after) == s.(nextSerial := s.nextSerial + 1, issued := s.issued[name := BareBundle(s.nextSerial)])
  {
    var s := Run(before);
    WriteRuns(before, name, temp);
    var written := before + [Stage(temp)] + [TakeSerial] + [WriteCert(temp, RSA_CERT, s.nextSerial)];
    RenameStep(s.(nextSerial := s.nextSerial + 1), name, temp, s.nextSerial);
    Extend(written, PublishDirectory(temp, name, Rsa));
    assert written + [PublishDirectory(temp, name, Rsa)] == before + BundleSteps(name, temp, s.nextSerial);
  }

  function Recorded(s: Durable, name: string): Durable {
    s.(nextSerial := s.nextSerial + 1,
       issued := s.issued[name := Directory(map[RSA_CERT := s.nextSerial], Some(RsaManifest(name, s.nextSerial, BundleState.Valid)))])
  }

  lemma RecordStep(s: Durable, name: string)
    requires SafeName(name)
    ensures var bare := s.(nextSerial := s.nextSerial + 1, issued := s.issued[name := BareBundle(s.nextSerial)]);
            Enabled(bare, IssueManifest(name, Rsa)) && Next(bare, IssueManifest(name, Rsa)) == Recorded(s, name)
  {
    AcceptedNamesAreRoutable(name);
    assert HasCertsOf(BareBundle(s.nextSerial).certs, Rsa);
    assert SerialsOf(BareBundle(s.nextSerial).certs, Rsa) == [s.nextSerial];
  }

  /** All steps of an issuance. */
  function CompleteIssue(name: string, temp: string, serial: nat, skipped: set<string>): seq<Label> {
    BundleSteps(name, temp, serial) + RecordingSteps(name, Rsa, skipped)
  }

  lemma RecordingRuns(before: seq<Label>, name: string, temp: string)
    requires Legal(before) && MayIssue(Run(before), name, temp)
    ensures var after := before + BundleSteps(name, temp, Run(before).nextSerial) + [IssueManifest(name, Rsa)];
            Legal(after) && Run(after) == Recorded(Run(before), name)
  {
    BundleRuns(before, name, temp);
    RecordStep(Run(before), name);
    Extend(before + BundleSteps(name, temp, Run(before).nextSerial), IssueManifest(name, Rsa));
  }

  lemma IssueRuns(before: seq<Label>, name: string, temp: string, skipped: set<string>)
    requires Legal(before) && MayIssue(Run(before), name, temp)
    ensures var after := before + CompleteIssue(name, temp, Run(before).nextSerial, skipped);
            Legal(after) && Run(after) == Published(Recorded(Run(before), name), RsaCa, "", skipped)
  {
    RecordingRuns(before, name, temp);
    var listed := before + BundleSteps(name, temp, Run(before).nextSerial) + [IssueManifest(name, Rsa)];
    PublicationRuns(listed, RsaCa, "", skipped);
    assert listed + Publication(RsaCa, "", skipped) == before + CompleteIssue(name, temp, Run(before).nextSerial, skipped);
  }

  // ---- The calls of the histories ----

  lemma SplitAt<T>(a: seq<T>, b: seq<T>, c: seq<T>)
    ensures (a + b + c)[..|a| + |b|] == a + b && (a + b + c)[|a| + |b|..] == c
  {
  }

  lemma BundleStepsIssue(before: seq<Label>, name: string, temp: string, serial: nat)
    ensures IssuanceSteps(before, before + BundleSteps(name, temp, serial))
  {
    var built := before + BundleSteps(name, temp, serial);
    forall i | |before| <= i < |built|
      ensures built[i].TakeSerial? || built[i].Stage? || built[i].WriteCert? || built[i].PublishDirectory?
    {
      assert built[i] == BundleSteps(name, temp, serial)[i - |before|];
    }
  }

  lemma IssuePerformed(before: seq<Label>, name: string, temp: string, serial: nat, skipped: set<string>, n: nat)
    requires Legal(before) && n <= 4
    ensures Performed(before, before + BundleSteps(name, temp, serial) + RecordingSteps(name, Rsa, skipped)[..n],
                      IssueCall(name, Rsa, skipped, |before| + 4, n))
  {
    BundleStepsIssue(before, name, temp, serial);
    SplitAt(before, BundleSteps(name, temp, serial), RecordingSteps(name, Rsa, skipped)[..n]);
  }

  lemma WholeOf<T>(a: seq<T>, b: seq<T>, c: seq<T>, n: nat)
    requires |c| == n
    ensures a + b + c[..n] == a + (b + c)
  {
  }

  lemma CompletePerformed(before: seq<Label>, name: string, temp: string, serial: nat, skipped: set<string>)
    requires Legal(before)
    ensures Performed(before, before + CompleteIssue(name, temp, serial, skipped), IssueCall(name, Rsa, skipped, |before| + 4, 4))
  {
    IssuePerformed(before, name, temp, serial, skipped, 4);
    WholeOf(before, BundleSteps(name, temp, serial), RecordingSteps(name, Rsa, skipped), 4);
  }

  /** Only the bundle "a" exists, with serial 1. */
  ghost predicate OnlyA(s: Durable, state: BundleState) {
    s.nextSerial == 2 && s.issued == map["a" := Directory(map[RSA_CERT := 1], Some(RsaManifest("a", 1, state)))]
  }

  lemma OnlyAListed(s: Durable, state: BundleState)
    requires OnlyA(s, state)
    ensures BundleWith(s, RsaCa, "a", 1) && (RevokedBundle(s, RsaCa, "a") <==> state == Revoked)
    ensures Revocable(s, "a") <==> state == BundleState.Valid
  {
  }

  lemma MayIssueA()
    ensures Legal([]) && Run([]) == INITIAL && MayIssue(INITIAL, "a", ".a-1")
  {
    ReachableIsWellFormed([]);
  }

  lemma MayIssueB(s: Durable, state: BundleState)
    requires WellFormed(s) && OnlyA(s, state)
    ensures MayIssue(s, "b", ".b-1")
  {
    assert "b"[0] != "a"[0] && ".b-1"[0] != "a"[0];
  }

  /** A complete issuance of "a". */
  function IssueOfA(): seq<Label> {
    CompleteIssue("a", ".a-1", 1, {})
  }

  lemma IssueOfARuns()
    ensures Legal([]) && Legal(IssueOfA()) && OnlyA(Run(IssueOfA()), BundleState.Valid)
    ensures Performed([], IssueOfA(), IssueCall("a", Rsa, {}, 4, 4))
  {
    MayIssueA();
    IssueRuns([], "a", ".a-1", {});
    CompletePerformed([], "a", ".a-1", 1, {});
    assert [] + IssueOfA() == IssueOfA();
  }

  /** A complete revocation of "a", whatever its refresh cannot read. */
  function RevocationOfA(skipped: set<string>): seq<Label> {
    IssueOfA() + RevocationSteps("a", Rsa, skipped)
  }

  lemma RevocationOfARuns(skipped: set<string>)
    ensures Legal(IssueOfA()) && Legal(RevocationOfA(skipped)) && OnlyA(Run(RevocationOfA(skipped)), Revoked)
    ensures Performed(IssueOfA(), RevocationOfA(skipped), RevokeCall("a", skipped, 4))
    ensures OnCrl(Run(RevocationOfA(skipped)), RsaCa, 1) <==> "a" !in skipped
  {
    IssueOfARuns();
    OnlyAListed(Run(IssueOfA()), BundleState.Valid);
    RevocationRuns(IssueOfA(), "a", skipped);
    assert RevocationSteps("a", Rsa, skipped)[..4] == RevocationSteps("a", Rsa, skipped);
    CallCrlIff(IssueOfA(), RevocationOfA(skipped), RevokeCall("a", skipped, 4), RsaCa, "a", 1);
  }

  /** A complete issuance of "b" after another run. */
  function ThenIssueOfB(before: seq<Label>, skipped: set<string>): seq<Label> {
    before + CompleteIssue("b", ".b-1", 2, skipped)
  }

  lemma RecordedKeepsA(s: Durable, skipped: set<string>)
    requires "a" in s.issued
    ensures "a" in Published(Recorded(s, "b"), RsaCa, "", skipped).issued
    ensures Published(Recorded(s, "b"), RsaCa, "", skipped).issued["a"] == s.issued["a"]
  {
    assert "b"[0] != "a"[0];
  }

  lemma IssueOfBPerformed(before: seq<Label>, skipped: set<string>)
    requires Legal(before)
    ensures Performed(before, ThenIssueOfB(before, skipped), IssueCall("b", Rsa, skipped, |before| + 4, 4))
  {
    CompletePerformed(before, "b", ".b-1", 2, skipped);
  }

  lemma IssueOfBRuns(before: seq<Label>, state: BundleState, skipped: set<string>)
    requires Legal(before) && OnlyA(Run(before), state)
    ensures Legal(ThenIssueOfB(before, skipped))
    ensures Performed(before, ThenIssueOfB(before, skipped), IssueCall("b", Rsa, skipped, |before| + 4, 4))
    ensures OnCrl(Run(ThenIssueOfB(before, skipped)), RsaCa, 1) <==> "a" !in skipped && state == Revoked
    ensures "a" in Run(ThenIssueOfB(before, skipped)).issued
            && Run(ThenIssueOfB(before, skipped)).issued["a"] == Run(before).issued["a"]
  {
    ReachableIsWellFormed(before);
    MayIssueB(Run(before), state);
    IssueRuns(before, "b", ".b-1", skipped);
    RecordedKeepsA(Run(before), skipped);
    IssueOfBPerformed(before, skipped);
    OnlyAListed(Run(before), state);
    IssueOfBCrl(before, state, skipped);
  }

  lemma IssueOfBCrl(before: seq<Label>, state: BundleState, skipped: set<string>)
    requires Legal(before) && OnlyA(Run(before), state) && Legal(ThenIssueOfB(before, skipped))
    ensures OnCrl(Run(ThenIssueOfB(before, skipped)), RsaCa, 1) <==> "a" !in skipped && state == Revoked
  {
    OnlyAListed(Run(before), state);
    IssueOfBPerformed(before, skipped);
    CallCrlIff(before, ThenIssueOfB(before, skipped), IssueCall("b", Rsa, skipped, |before| + 4, 4), RsaCa, "a", 1);
  }

  lemma UncoveredIsUnderReported(s: Durable)
    requires "a" in s.issued && s.issued["a"].manifest == Some(RsaManifest("a", 1, Revoked)) && !OnCrl(s, RsaCa, 1)
    ensures !NeverUnderReported(s)
  {
    assert 1 in s.issued["a"].manifest.value.serials;
  }

  // ---- The histories ----

  /**
   * A revocation whose refresh could not read the target's own manifest completes: the inventory reports the bundle as
   * revoked while its serial is not on the published CRL.
   */
  lemma UnreadTargetIsUnderReported()
    ensures var points := [[], IssueOfA(), RevocationOfA({"a"})];
            var calls := [IssueCall("a", Rsa, {}, 4, 4), RevokeCall("a", {"a"}, 4)];
            && IsHistory(points, calls)
            && Run(points[2]).issued["a"].manifest == Some(RsaManifest("a", 1, Revoked))
            && !OnCrl(Run(points[2]), RsaCa, 1) && !NeverUnderReported(Run(points[2]))
  {
    IssueOfARuns();
    RevocationOfARuns({"a"});
    UncoveredIsUnderReported(Run(RevocationOfA({"a"})));
  }

  /** After a revocation that was reported, one complete issuance that cannot read that manifest withdraws it. */
  lemma UnreadManifestWithdrawsRevocation()
    ensures var points := [[], IssueOfA(), RevocationOfA({}), ThenIssueOfB(RevocationOfA({}), {"a"})];
            var calls := [IssueCall("a", Rsa, {}, 4, 4), RevokeCall("a", {}, 4), IssueCall("b", Rsa, {"a"}, |points[2]| + 4, 4)];
            && IsHistory(points, calls)
            && NeverUnderReported(Run(points[2])) && OnCrl(Run(points[2]), RsaCa, 1)
            && !NeverUnderReported(Run(points[3])) && !OnCrl(Run(points[3]), RsaCa, 1)
  {
    IssueOfARuns();
    RevocationOfARuns({});
    var run := RevocationOfA({});
    NeverUnderReportedIffRead([[], IssueOfA(), run], [IssueCall("a", Rsa, {}, 4, 4), RevokeCall("a", {}, 4)]);
    assert StateAt(run, |run|) == Run(run) by { assert run[..|run|] == run; }
    IssueOfBRuns(run, Revoked, {"a"});
    UncoveredIsUnderReported(Run(ThenIssueOfB(run, {"a"})));
  }

  /** A revocation that stopped after the rename of the CRL. */
  function StoppedRevocationOfA(before: seq<Label>): seq<Label> {
    before + RevocationSteps("a", Rsa, {})[..1]
  }

  lemma StoppedRevocationRuns(before: seq<Label>)
    requires Legal(before) && OnlyA(Run(before), BundleState.Valid)
    ensures Legal(StoppedRevocationOfA(before)) && OnlyA(Run(StoppedRevocationOfA(before)), BundleState.Valid)
    ensures Performed(before, StoppedRevocationOfA(before), RevokeCall("a", {}, 1))
    ensures OnCrl(Run(StoppedRevocationOfA(before)), RsaCa, 1)
  {
    OnlyAListed(Run(before), BundleState.Valid);
    RevocationPrefix(before, "a", Rsa, {}, 1);
    PublicationRunsTo(before, RsaCa, "a", {}, 1);
    CallCrlIff(before, StoppedRevocationOfA(before), RevokeCall("a", {}, 1), RsaCa, "a", 1);
  }

  /**
   * With every manifest readable: a revocation that stopped after its CRL was published is taken back by the next
   * issuance, because the manifest still says valid.
   */
  lemma StoppedRevocationIsWithdrawn()
    ensures var stopped := StoppedRevocationOfA(IssueOfA());
            var points := [[], IssueOfA(), stopped, ThenIssueOfB(stopped, {})];
            var calls := [IssueCall("a", Rsa, {}, 4, 4), RevokeCall("a", {}, 1), IssueCall("b", Rsa, {}, |stopped| + 4, 4)];
            && IsHistory(points, calls)
            && OnCrl(Run(points[2]), RsaCa, 1) && !OnCrl(Run(points[3]), RsaCa, 1)
  {
    IssueOfARuns();
    StoppedRevocationRuns(IssueOfA());
    IssueOfBRuns(StoppedRevocationOfA(IssueOfA()), BundleState.Valid, {});
  }

  /** An issuance of "a" that stopped after the rename of the CRL. */
  function StoppedIssueOfA(): seq<Label> {
    BundleSteps("a", ".a-1", 1) + RecordingSteps("a", Rsa, {})[..2]
  }

  lemma StoppedIssueRuns()
    ensures Legal([]) && Legal(StoppedIssueOfA()) && OnlyA(Run(StoppedIssueOfA()), BundleState.Valid)
    ensures Performed([], StoppedIssueOfA(), IssueCall("a", Rsa, {}, 4, 2))
    ensures !OnCrl(Run(StoppedIssueOfA()), RsaCa, 1)
  {
    MayIssueA();
    RecordingRuns([], "a", ".a-1");
    var listed := [] + BundleSteps("a", ".a-1", 1) + [IssueManifest("a", Rsa)];
    PublicationRunsTo(listed, RsaCa, "", {}, 1);
    assert listed + Publication(RsaCa, "", {})[..1] == StoppedIssueOfA();
    IssuePerformed([], "a", ".a-1", 1, {}, 2);
    assert [] + BundleSteps("a", ".a-1", 1) + RecordingSteps("a", Rsa, {})[..2] == StoppedIssueOfA();
    OnlyAListed(Run(listed), BundleState.Valid);
    ReachableIsWellFormed(listed);
    ListedOnCrlIff(Run(listed), RsaCa, "", {}, "a", 1);
  }

  /**
   * A publication that stops between the CRL and its number lets the next one publish different content under the same
   * number.
   */
  lemma InterruptedPublicationRepeatsNumber()
    ensures var run := StoppedRevocationOfA(StoppedIssueOfA());
            var points := [[], StoppedIssueOfA(), run];
            && Legal(run) && IsHistory(points, [IssueCall("a", Rsa, {}, 4, 2), RevokeCall("a", {}, 1)])
            && ReplacesCrlAt(run, RsaCa, 5) && ReplacesCrlAt(run, RsaCa, 6)
            && CrlPublishedAt(run, RsaCa, 5).number == CrlPublishedAt(run, RsaCa, 6).number
            && 1 !in CrlPublishedAt(run, RsaCa, 5).revoked && 1 in CrlPublishedAt(run, RsaCa, 6).revoked
  {
    StoppedIssueRuns();
    StoppedRevocationRuns(StoppedIssueOfA());
    var run := StoppedRevocationOfA(StoppedIssueOfA());
    assert run[..6] == StoppedIssueOfA() && run[..7] == run;
    CrlNumbersCountCompletions(run, RsaCa, 5, 6);
    assert run[6..6] == [];
    StateStep(run, 5);
    StateStep(run, 6);
  }
}
