/**
 * Histories of the service: any sequence of issuances and revocations, each of them complete, failed or cut short by a
 * crash after any of its durable changes.
 */
module History {
  import opened Basics
  import opened Inventory
  import opened Machine
  import opened Theorems
  import opened Engine
  import opened Service

  /** points[i] is the run up to the beginning of call i. */
  ghost predicate IsHistory(points: seq<seq<Label>>, calls: seq<Call>) {
    && |points| == |calls| + 1 && points[0] == []
    && (forall i | 0 <= i < |points| :: Legal(points[i]))
    && forall i | 0 <= i < |calls| :: Performed(points[i], points[i + 1], calls[i])
  }

  /** None of these manifests is that of a revoked bundle of this issuer. */
  ghost predicate NoneRevoked(s: Durable, ca: CaKind, skipped: set<string>) {
    forall name | name in skipped :: !RevokedBundle(s, ca, name)
  }

  /**
   * What the guard of the refresh decided in this call: a refresh that replaced a file passed over no revoked manifest,
   * and a revocation that came to its end did not pass over its own.
   */
  ghost predicate ReadEnough(before: seq<Label>, call: Call)
    requires Legal(before)
  {
    match call
    case IssueCall(name, kind, skipped, m, n) => n > 1 ==> NoneRevoked(Run(before), CaOf(kind), skipped)
    case RevokeCall(id, skipped, n) =>
      Revocable(Run(before), id) ==>
        && (n > 0 ==> NoneRevoked(Run(before), CaOf(Run(before).issued[id].manifest.value.kind), skipped))
        && (n == 4 ==> id !in skipped)
  }

  // ---- Which steps of a call are clean ----

  lemma CleanStep(before: seq<Label>, l: Label)
    requires Legal(before + [l])
    ensures Legal(before) && Enabled(Run(before), l)
    ensures CleanRun(before + [l]) <==> CleanRun(before) && Clean(Run(before), l)
  {
    Shorten(before, l);
    assert (before + [l])[..|before|] == before;
  }

  ghost predicate IssuanceLabel(l: Label) {
    l.TakeSerial? || l.Stage? || l.WriteCert? || l.Discard? || l.PublishDirectory? || l.IssueManifest?
  }

  lemma IssuanceStepIsClean(s: Durable, l: Label)
    requires Enabled(s, l) && IssuanceLabel(l)
    ensures Clean(s, l)
  {
  }

  /** An issuance step changes no directory that has a manifest already. */
  lemma IssuanceStepKeepsManifest(s: Durable, l: Label, name: string)
    requires DirectoriesOk(s) && Enabled(s, l) && IssuanceLabel(l)
    requires name in s.issued && s.issued[name].manifest.Some?
    ensures name in Next(s, l).issued && Next(s, l).issued[name].manifest == s.issued[name].manifest
  {
    ManifestKept(s, l, name);
  }

  /** A manifest that an issuance step wrote says valid. */
  lemma IssuanceStepRevokesNothing(s: Durable, l: Label, name: string)
    requires DirectoriesOk(s) && Enabled(s, l) && IssuanceLabel(l)
    requires name in Next(s, l).issued && Next(s, l).issued[name].manifest.Some?
    requires !(name in s.issued && s.issued[name].manifest.Some?)
    ensures Next(s, l).issued[name].manifest.value.state == BundleState.Valid
  {
    ManifestOrigin(s, l, name);
  }

  lemma IssuanceStepKeepsRevoked(s: Durable, l: Label, ca: CaKind, name: string)
    requires DirectoriesOk(s) && Enabled(s, l) && IssuanceLabel(l)
    ensures RevokedBundle(s, ca, name) <==> RevokedBundle(Next(s, l), ca, name)
  {
    var t := Next(s, l);
    if name in s.issued && s.issued[name].manifest.Some? {
      IssuanceStepKeepsManifest(s, l, name);
    } else if name in t.issued && t.issued[name].manifest.Some? {
      IssuanceStepRevokesNothing(s, l, name);
    }
  }

  lemma LastIssuanceStep(before: seq<Label>, after: seq<Label>)
    requires IssuanceSteps(before, after) && |before| < |after|
    ensures var n := |after| - 1;
            IssuanceSteps(before, after[..n]) && IssuanceLabel(after[n]) && after == after[..n] + [after[n]]
  {
  }

  /** Issuance steps never make a reported revocation unreported. */
  lemma {:induction false} IssuanceCleanIff(before: seq<Label>, after: seq<Label>)
    requires Legal(before) && Legal(after) && IssuanceSteps(before, after)
    ensures CleanRun(after) <==> CleanRun(before)
    decreases |after|
  {
    if |before| < |after| {
      var n := |after| - 1;
      LastIssuanceStep(before, after);
      CleanStep(after[..n], after[n]);
      IssuanceCleanIff(before, after[..n]);
      IssuanceStepIsClean(Run(after[..n]), after[n]);
    } else {
      assert before == after;
    }
  }

  /** Issuance steps leave every bundle revoked or not as it was. */
  lemma {:induction false} IssuanceKeepsRevoked(before: seq<Label>, after: seq<Label>, ca: CaKind, name: string)
    requires Legal(before) && Legal(after) && IssuanceSteps(before, after)
    ensures RevokedBundle(Run(before), ca, name) <==> RevokedBundle(Run(after), ca, name)
    decreases |after|
  {
    if |before| < |after| {
      var n := |after| - 1;
      LastIssuanceStep(before, after);
      StepBetween(after[..n], after, after[n]);
      IssuanceKeepsRevoked(before, after[..n], ca, name);
      ReachableIsWellFormed(after[..n]);
      IssuanceStepKeepsRevoked(Run(after[..n]), after[n], ca, name);
    } else {
      assert before == after;
    }
  }

  lemma RefreshStepCleanIff(s: Durable, t: Durable, ca: CaKind, target: string, skipped: set<string>, i: nat)
    requires i < 3 && t.issued == s.issued && Enabled(t, Publication(ca, target, skipped)[i])
    ensures Clean(t, Publication(ca, target, skipped)[i]) <==> i == 2 || NoneRevoked(s, ca, skipped)
    ensures Next(t, Publication(ca, target, skipped)[i]).issued == s.issued
  {
    assert forall name :: RevokedBundle(t, ca, name) <==> RevokedBundle(s, ca, name);
  }

  /** A publication, complete or not, keeps revocation reported if and only if it passed over no revoked manifest. */
  lemma {:induction false} PublicationCleanIff(before: seq<Label>, ca: CaKind, target: string, skipped: set<string>, n: nat)
    requires n <= 3 && Legal(before + Publication(ca, target, skipped)[..n])
    ensures Legal(before) && Run(before + Publication(ca, target, skipped)[..n]).issued == Run(before).issued
    ensures CleanRun(before + Publication(ca, target, skipped)[..n]) <==>
            CleanRun(before) && (n > 0 ==> NoneRevoked(Run(before), ca, skipped))
    decreases n
  {
    var steps := Publication(ca, target, skipped);
    if n > 0 {
      var fewer := before + steps[..n - 1];
      assert before + steps[..n] == fewer + [steps[n - 1]];
      ShortenBy(before, steps, n - 1);
      CleanStep(fewer, steps[n - 1]);
      PublicationCleanIff(before, ca, target, skipped, n - 1);
      RefreshStepCleanIff(Run(before), Run(fewer), ca, target, skipped, n - 1);
    } else {
      assert before + steps[..n] == before;
    }
  }

  /** What a whole publication leaves, seen from the run. */
  lemma PublicationRefreshes(before: seq<Label>, ca: CaKind, target: string, skipped: set<string>)
    requires Legal(before + Publication(ca, target, skipped))
    ensures Legal(before) && Refreshed(Run(before), Run(before + Publication(ca, target, skipped)), ca, target, skipped)
  {
    var steps := Publication(ca, target, skipped);
    var one := before + [steps[0]];
    var two := one + [steps[1]];
    assert before + steps == two + [steps[2]];
    Shorten(two, steps[2]);
    Shorten(one, steps[1]);
    Shorten(before, steps[0]);
  }

  lemma RevocationCleanIff(before: seq<Label>, id: string, skipped: set<string>, n: nat)
    requires Legal(before) && Revocable(Run(before), id) && n <= 4
    requires var kind := Run(before).issued[id].manifest.value.kind; Legal(before + RevocationSteps(id, kind, skipped)[..n])
    ensures var kind := Run(before).issued[id].manifest.value.kind;
            CleanRun(before + RevocationSteps(id, kind, skipped)[..n])
            <==> CleanRun(before) && ReadEnough(before, RevokeCall(id, skipped, n))
  {
    var kind := Run(before).issued[id].manifest.value.kind;
    var publication := Publication(CaOf(kind), id, skipped);
    var steps := RevocationSteps(id, kind, skipped);
    if n < 4 {
      assert steps[..n] == publication[..n];
      PublicationCleanIff(before, CaOf(kind), id, skipped, n);
    } else {
      assert publication[..3] == publication;
      assert before + steps[..4] == before + publication + [RevokeManifest(id)];
      CleanStep(before + publication, RevokeManifest(id));
      PublicationCleanIff(before, CaOf(kind), id, skipped, 3);
      PublicationRefreshes(before, CaOf(kind), id, skipped);
      ReachableIsWellFormed(before);
      TargetCoveredIffRead(Run(before), id, skipped, Run(before + publication).Issuer(CaOf(kind)));
    }
  }

  lemma RecordingCleanIff(before: seq<Label>, name: string, kind: BundleKind, skipped: set<string>, n: nat)
    requires n <= 4 && Legal(before + RecordingSteps(name, kind, skipped)[..n])
    ensures Legal(before)
    ensures CleanRun(before + RecordingSteps(name, kind, skipped)[..n])
            <==> CleanRun(before) && (n > 1 ==> NoneRevoked(Run(before), CaOf(kind), skipped))
  {
    if n == 0 {
      assert before + RecordingSteps(name, kind, skipped)[..0] == before;
    } else {
      var listed := before + [IssueManifest(name, kind)];
      RecordingPrefix(before, name, kind, skipped, n - 1);
      PublicationCleanIff(listed, CaOf(kind), "", skipped, n - 1);
      CleanStep(before, IssueManifest(name, kind));
      Shorten(before, IssueManifest(name, kind));
      ReachableIsWellFormed(before);
      IssuanceStepIsClean(Run(before), IssueManifest(name, kind));
      forall other | other in skipped
        ensures RevokedBundle(Run(before), CaOf(kind), other) <==> RevokedBundle(Run(listed), CaOf(kind), other)
      {
        IssuanceStepKeepsRevoked(Run(before), IssueManifest(name, kind), CaOf(kind), other);
      }
    }
  }

  lemma IssueCleanIff(before: seq<Label>, after: seq<Label>, call: Call)
    requires Legal(before) && Legal(after) && call.IssueCall? && Performed(before, after, call)
    ensures CleanRun(after) <==> CleanRun(before) && ReadEnough(before, call)
  {
    var built := after[..call.m];
    assert after == built + RecordingSteps(call.name, call.kind, call.skipped)[..call.n];
    RecordingCleanIff(built, call.name, call.kind, call.skipped, call.n);
    IssuanceCleanIff(before, built);
    forall name | name in call.skipped
      ensures RevokedBundle(Run(before), CaOf(call.kind), name) <==> RevokedBundle(Run(built), CaOf(call.kind), name)
    {
      IssuanceKeepsRevoked(before, built, CaOf(call.kind), name);
    }
  }

  // ---- The whole history ----

  lemma CallCleanIff(before: seq<Label>, after: seq<Label>, call: Call)
    requires Legal(before) && Legal(after) && Performed(before, after, call)
    ensures CleanRun(after) <==> CleanRun(before) && ReadEnough(before, call)
  {
    if call.IssueCall? {
      IssueCleanIff(before, after, call);
    } else if Revocable(Run(before), call.id) {
      RevocationCleanIff(before, call.id, call.skipped, call.n);
    }
  }

  lemma {:induction false} HistoryCleanIff(points: seq<seq<Label>>, calls: seq<Call>, n: nat)
    requires IsHistory(points, calls) && n <= |calls|
    ensures CleanRun(points[n]) <==> forall i | 0 <= i < n :: ReadEnough(points[i], calls[i])
  {
    if n > 0 {
      HistoryCleanIff(points, calls, n - 1);
      assert Performed(points[n - 1], points[n - 1 + 1], calls[n - 1]);
      CallCleanIff(points[n - 1], points[n], calls[n - 1]);
    }
  }

  /**
   * Over every history of the service, with failures and crashes after any durable change, every revoked bundle is
   * revoked in CRL and index at every point if and only if no refresh that replaced a file passed over a revoked
   * manifest and no completed revocation passed over its own.
   */
  lemma NeverUnderReportedIffRead(points: seq<seq<Label>>, calls: seq<Call>)
    requires IsHistory(points, calls)
    ensures var run := points[|calls|];
            (forall i | 0 <= i <= |run| :: NeverUnderReported(StateAt(run, i)))
            <==> forall i | 0 <= i < |calls| :: ReadEnough(points[i], calls[i])
  {
    HistoryCleanIff(points, calls, |calls|);
    NeverUnderReportedIffClean(points[|calls|]);
  }
}
